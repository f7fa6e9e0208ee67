/** Saving and loading the subscriber database, with JSON text replaced by its value. */
module DbJson {
  import opened Wrappers
  import opened Profiles

  const PROFILE_COUNT: nat := 6
  const ENTITY_COUNT: nat := 256
  const PROFILE0_BITS: nat := 0x88F
  const MAX_ID: nat := 0xFF_FFFF
  const MAX_RESERVED: nat := 0x3_FFFF_FFFF

  datatype Entity = Entity(entityId: nat, entityType: nat, profileId: nat, reserved34: nat, valid: bool)

  datatype Db = Db(profiles: seq<Profile>, entities: seq<Entity>)

  datatype Key =
    | Version | ProfileList | EntityList | Id | ProfileWord
    | Idx | EntityId | EntityType | ProfileId | Reserved | IsValid

  datatype Json = Null | Bool(b: bool) | Int(i: int) | Arr(items: seq<Json>) | Obj(fields: map<Key, Json>)

  const NOTHING := Entity(0, 0, 0, 0, false)

  function BlankProfile(): Profile {
    Profile(0, 0, 0, 0, 0, 0, false, false, false, false)
  }

  /** db_init_empty. */
  function EmptyDb(): Db {
    Db([Unpacked(PROFILE0_BITS)] + seq(PROFILE_COUNT - 1, _ => BlankProfile()), seq(ENTITY_COUNT, _ => NOTHING))
  }

  // ----- Loading -----

  /** json_get_uint. */
  function GetUint(o: map<Key, Json>, k: Key, max: nat): Option<nat> {
    if k in o && o[k].Int? && 0 <= o[k].i <= max then Some(o[k].i) else None
  }

  function GetBool(o: map<Key, Json>, k: Key): Option<bool> {
    if k in o && o[k].Bool? then Some(o[k].b) else None
  }

  function LoadProfiles(items: seq<Json>, ps: seq<Profile>): (r: Option<seq<Profile>>)
    requires |ps| == PROFILE_COUNT
    ensures r.Some? ==> |r.value| == PROFILE_COUNT
    decreases |items|
  {
    if items == [] then Some(ps)
    else if !items[0].Obj? then None
    else
      var id := GetUint(items[0].fields, Id, PROFILE_COUNT - 1);
      var bits := GetUint(items[0].fields, ProfileWord, 0xFFFF_FFFF);
      if id.None? || bits.None? then None
      else LoadProfiles(items[1..], if id.value == 0 then ps else ps[id.value := Unpacked(bits.value)])
  }

  /** One entity object: its index and value. */
  function ReadEntity(j: Json): Option<(nat, Entity)> {
    if !j.Obj? then None
    else
      var idx, id := GetUint(j.fields, Idx, ENTITY_COUNT - 1), GetUint(j.fields, EntityId, MAX_ID);
      var ty, pid := GetUint(j.fields, EntityType, 1), GetUint(j.fields, ProfileId, PROFILE_COUNT - 1);
      var res, v := GetUint(j.fields, Reserved, MAX_RESERVED), GetBool(j.fields, IsValid);
      if idx.None? || id.None? || ty.None? || pid.None? || res.None? || v.None? then None
      else Some((idx.value, Entity(id.value, ty.value, pid.value, res.value, v.value)))
  }

  function LoadEntities(items: seq<Json>, es: seq<Entity>): (r: Option<seq<Entity>>)
    requires |es| == ENTITY_COUNT
    ensures r.Some? ==> |r.value| == ENTITY_COUNT
    decreases |items|
  {
    if items == [] then Some(es)
    else
      var e := ReadEntity(items[0]);
      if e.None? then None
      else LoadEntities(items[1..], if e.value.0 < ENTITY_COUNT then es[e.value.0 := e.value.1] else es)
  }

  /** db_load_json on top of an initialised database; None stands for -EINVAL. */
  function LoadOnto(root: Json, start: Db): Option<Db>
    requires |start.profiles| == PROFILE_COUNT && |start.entities| == ENTITY_COUNT
  {
    if !root.Obj? || GetUint(root.fields, Version, 1) != Some(1) then None
    else if ProfileList !in root.fields || EntityList !in root.fields then None
    else if !root.fields[ProfileList].Arr? || !root.fields[EntityList].Arr? then None
    else
      var ps := LoadProfiles(root.fields[ProfileList].items, start.profiles);
      if ps.None? then None
      else
        var es := LoadEntities(root.fields[EntityList].items, start.entities);
        if es.None? then None else Some(Db(ps.value, es.value))
  }

  function Load(root: Json): Option<Db> {
    LoadOnto(root, EmptyDb())
  }

  // ----- Dumping -----

  /** The cast of a 32-bit word to int. */
  function AsInt(v: nat): int {
    if v < 0x8000_0000 then v else v - 0x1_0000_0000
  }

  /** The cast of a 64-bit word to json_int_t. */
  function AsInt64(v: nat): int {
    if v < 0x8000_0000_0000_0000 then v else v - 0x1_0000_0000_0000_0000
  }

  function WordOf(db: Db, i: nat): nat
    requires i < |db.profiles|
  {
    if i == 0 then PROFILE0_BITS else Packed(db.profiles[i])
  }

  function ProfileItem(i: nat, word: nat): Json {
    Obj(map[Id := Int(i), ProfileWord := Int(AsInt(word))])
  }

  function DumpWords(ws: seq<nat>, i: nat): seq<Json>
    requires i <= |ws|
    decreases |ws| - i
  {
    if i == |ws| then [] else [ProfileItem(i, ws[i])] + DumpWords(ws, i + 1)
  }

  function Words(db: Db): (ws: seq<nat>)
    requires |db.profiles| == PROFILE_COUNT
    ensures |ws| == PROFILE_COUNT
  {
    [WordOf(db, 0), WordOf(db, 1), WordOf(db, 2), WordOf(db, 3), WordOf(db, 4), WordOf(db, 5)]
  }

  function EntityItem(i: nat, e: Entity): Json {
    Obj(map[Idx := Int(i), EntityId := Int(e.entityId), EntityType := Int(e.entityType), ProfileId := Int(e.profileId),
            Reserved := Int(AsInt64(e.reserved34)), IsValid := Bool(e.valid)])
  }

  /** Empty slots are left out. */
  function DumpEntities(es: seq<Entity>, i: nat): seq<Json>
    requires i <= |es|
    decreases |es| - i
  {
    if i == |es| then []
    else (if es[i] == NOTHING then [] else [EntityItem(i, es[i])]) + DumpEntities(es, i + 1)
  }

  /** db_dump_json. */
  function Dump(db: Db): Json
    requires |db.profiles| == PROFILE_COUNT
  {
    Document(DumpWords(Words(db), 0), DumpEntities(db.entities, 0))
  }

  // ----- When a dump loads, and what comes back -----

  /** What db_put_entity admits; reserved34 is any 64-bit value. */
  ghost predicate EntityOk(e: Entity) {
    e.entityId <= MAX_ID && e.entityType <= 1 && e.profileId < PROFILE_COUNT && e.reserved34 < 0x1_0000_0000_0000_0000
  }

  /** What every database opened and filled through the interface satisfies. */
  ghost predicate DbInv(db: Db) {
    && |db.profiles| == PROFILE_COUNT && |db.entities| == ENTITY_COUNT && db.profiles[0] == Unpacked(PROFILE0_BITS)
    && (forall i :: 0 <= i < ENTITY_COUNT ==> EntityOk(db.entities[i]))
  }

  /** Checked before saving: call durations below 128, reserved fields of 34 bits. */
  ghost predicate Storable(db: Db)
    requires DbInv(db)
  {
    && (forall i :: 1 <= i < PROFILE_COUNT ==> db.profiles[i].maxCallDuration < 128)
    && (forall i :: 0 <= i < ENTITY_COUNT ==> db.entities[i].reserved34 <= MAX_RESERVED)
  }

  lemma ProfileItemLoads(i: nat, word: nat)
    requires i < PROFILE_COUNT && word < 0x1_0000_0000
    ensures GetUint(ProfileItem(i, word).fields, Id, PROFILE_COUNT - 1) == Some(i)
    ensures GetUint(ProfileItem(i, word).fields, ProfileWord, 0xFFFF_FFFF)
         == if word < 0x8000_0000 then Some(word) else None
  {
  }

  /** One step of the loader on one item of the dump. */
  lemma ProfileStep(i: nat, word: nat, u: Profile, rest: seq<Json>, ps: seq<Profile>)
    requires |ps| == PROFILE_COUNT && i < PROFILE_COUNT && word < 0x1_0000_0000 && u == Unpacked(word)
    ensures LoadProfiles([ProfileItem(i, word)] + rest, ps)
         == if word < 0x8000_0000 then LoadProfiles(rest, if i == 0 then ps else ps[i := u]) else None
  {
    ProfileItemLoads(i, word);
    assert ([ProfileItem(i, word)] + rest)[1..] == rest;
  }

  lemma EntityItemLoads(i: nat, e: Entity)
    requires i < ENTITY_COUNT && EntityOk(e)
    ensures ReadEntity(EntityItem(i, e)) == if e.reserved34 <= MAX_RESERVED then Some((i, e)) else None
  {
    var f := EntityItem(i, e).fields;
    assert GetUint(f, Idx, ENTITY_COUNT - 1) == Some(i) && GetUint(f, EntityId, MAX_ID) == Some(e.entityId);
    assert GetUint(f, EntityType, 1) == Some(e.entityType);
    assert GetUint(f, ProfileId, PROFILE_COUNT - 1) == Some(e.profileId);
    assert GetUint(f, Reserved, MAX_RESERVED) == if e.reserved34 <= MAX_RESERVED then Some(e.reserved34) else None;
    assert GetBool(f, IsValid) == Some(e.valid);
  }

  lemma WordFitsIff(db: Db, i: nat)
    requires DbInv(db) && i < PROFILE_COUNT
    ensures WordOf(db, i) < 0x1_0000_0000
    ensures WordOf(db, i) < 0x8000_0000 <==> i == 0 || db.profiles[i].maxCallDuration < 128
  {
    if i > 0 {
      PackedIsPositiveIff(db.profiles[i]);
    }
  }

  /** us holds the first n words unpacked. */
  ghost predicate Renews(ws: seq<nat>, us: seq<Profile>, n: nat) {
    n == 0 || (n <= |ws| == |us| && us[n - 1] == Unpacked(ws[n - 1]) && Renews(ws, us, n - 1))
  }

  lemma {:induction false} RenewsAt(ws: seq<nat>, us: seq<Profile>, n: nat, i: nat)
    requires Renews(ws, us, n) && i < n
    ensures n <= |ws| == |us| && us[i] == Unpacked(ws[i])
    decreases n
  {
    if i < n - 1 {
      RenewsAt(ws, us, n - 1, i);
    }
  }

  /** Slots before i are restored; Profile 0 always is. */
  ghost predicate RestoredTo(us: seq<Profile>, ps: seq<Profile>, i: nat) {
    |us| == |ps| == PROFILE_COUNT && ps[0] == us[0] && forall j :: 1 <= j < i && j < PROFILE_COUNT ==> ps[j] == us[j]
  }

  /** All words from i on survive the cast to int. */
  ghost predicate PositiveFrom(ws: seq<nat>, i: nat) {
    forall j :: i <= j < |ws| ==> ws[j] < 0x8000_0000
  }

  lemma PositiveStep(ws: seq<nat>, i: nat)
    requires i < |ws|
    ensures PositiveFrom(ws, i) <==> ws[i] < 0x8000_0000 && PositiveFrom(ws, i + 1)
  {
  }

  lemma RestoreOne(us: seq<Profile>, ps: seq<Profile>, i: nat)
    requires RestoredTo(us, ps, i) && i < PROFILE_COUNT
    ensures RestoredTo(us, if i == 0 then ps else ps[i := us[i]], i + 1)
  {
  }

  lemma {:induction false} ProfilesLoad(ws: seq<nat>, us: seq<Profile>, i: nat, ps: seq<Profile>)
    requires |ws| == PROFILE_COUNT && i <= PROFILE_COUNT && Renews(ws, us, PROFILE_COUNT) && RestoredTo(us, ps, i)
    requires forall j :: 0 <= j < PROFILE_COUNT ==> ws[j] < 0x1_0000_0000
    ensures var r := LoadProfiles(DumpWords(ws, i), ps);
      (r.Some? <==> PositiveFrom(ws, i)) && (r.Some? ==> RestoredTo(us, r.value, PROFILE_COUNT))
    decreases PROFILE_COUNT - i
  {
    if i < PROFILE_COUNT {
      ProfileStep(i, ws[i], us[i], DumpWords(ws, i + 1), ps) by { RenewsAt(ws, us, PROFILE_COUNT, i); }
      PositiveStep(ws, i);
      if ws[i] < 0x8000_0000 {
        RestoreOne(us, ps, i);
        ProfilesLoad(ws, us, i + 1, if i == 0 then ps else ps[i := us[i]]);
      }
    }
  }

  ghost predicate EntitiesTo(all: seq<Entity>, es: seq<Entity>, i: nat) {
    |all| == |es| == ENTITY_COUNT && forall j :: 0 <= j < ENTITY_COUNT ==> es[j] == if j < i then all[j] else NOTHING
  }

  lemma {:induction false} EntitiesLoad(all: seq<Entity>, i: nat, es: seq<Entity>)
    requires EntitiesTo(all, es, i) && i <= ENTITY_COUNT && forall j :: 0 <= j < ENTITY_COUNT ==> EntityOk(all[j])
    ensures var r := LoadEntities(DumpEntities(all, i), es);
      && (r.Some? <==> forall j :: i <= j < ENTITY_COUNT ==> all[j].reserved34 <= MAX_RESERVED)
      && (r.Some? ==> r.value == all)
    decreases ENTITY_COUNT - i
  {
    if i < ENTITY_COUNT {
      var rest := DumpEntities(all, i + 1);
      if all[i] == NOTHING {
        assert DumpEntities(all, i) == rest;
        EntitiesLoad(all, i + 1, es);
      } else {
        assert DumpEntities(all, i)[0] == EntityItem(i, all[i]) && DumpEntities(all, i)[1..] == rest;
        EntityItemLoads(i, all[i]);
        if all[i].reserved34 <= MAX_RESERVED {
          EntitiesLoad(all, i + 1, es[i := all[i]]);
        }
      }
    }
  }

  /** The profiles as they come back: each word unpacked. */
  function Renewed(db: Db): (us: seq<Profile>)
    requires |db.profiles| == PROFILE_COUNT
    ensures |us| == PROFILE_COUNT
  {
    Renewal(Words(db))
  }

  function Renewal(ws: seq<nat>): (us: seq<Profile>)
    ensures |us| == |ws|
  {
    if ws == [] then [] else Renewal(ws[..|ws| - 1]) + [Unpacked(ws[|ws| - 1])]
  }

  lemma {:induction false} RenewalAt(ws: seq<nat>, i: nat)
    requires i < |ws|
    ensures Renewal(ws)[i] == Unpacked(ws[i])
  {
    if i < |ws| - 1 {
      RenewalAt(ws[..|ws| - 1], i);
    }
  }

  lemma {:induction false} RenewalRenews(ws: seq<nat>, n: nat)
    requires n <= |ws|
    ensures Renews(ws, Renewal(ws), n)
    decreases n
  {
    if n > 0 {
      RenewalAt(ws, n - 1);
      RenewalRenews(ws, n - 1);
    }
  }

  lemma WordsAt(db: Db, j: nat)
    requires |db.profiles| == PROFILE_COUNT && j < PROFILE_COUNT
    ensures Words(db)[j] == WordOf(db, j)
  {
  }

  lemma WordsAre(db: Db)
    requires DbInv(db)
    ensures var ws := Words(db);
      ws[0] == PROFILE0_BITS && (forall j :: 0 <= j < PROFILE_COUNT ==> ws[j] < 0x1_0000_0000)
      && ((forall j :: 0 <= j < PROFILE_COUNT ==> ws[j] < 0x8000_0000)
          <==> (forall j :: 1 <= j < PROFILE_COUNT ==> db.profiles[j].maxCallDuration < 128))
  {
    var ws := Words(db);
    forall j | 0 <= j < PROFILE_COUNT
      ensures ws[j] < 0x1_0000_0000 && (ws[j] < 0x8000_0000 <==> j == 0 || db.profiles[j].maxCallDuration < 128)
    {
      WordFitsIff(db, j);
      WordsAt(db, j);
    }
  }

  /** What is loaded before the items: Profile 0 is already there. */
  lemma ProfileZero(db: Db)
    requires DbInv(db)
    ensures Renewed(db)[0] == EmptyDb().profiles[0]
  {
    RenewalAt(Words(db), 0);
  }

  /** Loading a dump succeeds exactly when the database is storable, and then gives the same
      entities, and every profile packed and unpacked once, Profile 0 being the fixed one. */
  lemma LoadUndoesDump(db: Db)
    requires DbInv(db)
    ensures Load(Dump(db)).Some? <==> Storable(db)
    ensures Load(Dump(db)).Some? ==> Load(Dump(db)) == Some(Db(Renewed(db), db.entities))
  {
    var start := EmptyDb();
    ProfileZero(db);
    Starts(start, db);
    LoadUndoesDumpFrom(db, start, Renewed(db));
  }

  lemma Starts(start: Db, db: Db)
    requires DbInv(db) && start == EmptyDb() && Renewed(db)[0] == start.profiles[0]
    ensures RestoredTo(Renewed(db), start.profiles, 0) && EntitiesTo(db.entities, start.entities, 0)
  {
  }

  lemma LoadUndoesDumpFrom(db: Db, start: Db, us: seq<Profile>)
    requires DbInv(db) && us == Renewed(db)
    requires RestoredTo(us, start.profiles, 0) && EntitiesTo(db.entities, start.entities, 0)
    ensures var r := LoadOnto(Dump(db), start);
      (r.Some? <==> Storable(db)) && (r.Some? ==> r == Some(Db(us, db.entities)))
  {
    WordsAre(db);
    RenewalRenews(Words(db), PROFILE_COUNT);
    WordsLoad(Words(db), us, db.entities, start);
  }

  lemma WordsLoad(ws: seq<nat>, us: seq<Profile>, es: seq<Entity>, start: Db)
    requires |ws| == PROFILE_COUNT && Renews(ws, us, PROFILE_COUNT) && RestoredTo(us, start.profiles, 0)
    requires forall j :: 0 <= j < PROFILE_COUNT ==> ws[j] < 0x1_0000_0000
    requires EntitiesTo(es, start.entities, 0) && forall j :: 0 <= j < ENTITY_COUNT ==> EntityOk(es[j])
    ensures var r := LoadOnto(Document(DumpWords(ws, 0), DumpEntities(es, 0)), start);
      && (r.Some? <==> (forall j :: 0 <= j < PROFILE_COUNT ==> ws[j] < 0x8000_0000)
                       && forall j :: 0 <= j < ENTITY_COUNT ==> es[j].reserved34 <= MAX_RESERVED)
      && (r.Some? ==> r == Some(Db(us, es)))
  {
    ProfilesLoad(ws, us, 0, start.profiles);
    EntitiesLoad(es, 0, start.entities);
    LoadsBoth(DumpWords(ws, 0), DumpEntities(es, 0), start);
    var r := LoadProfiles(DumpWords(ws, 0), start.profiles);
    if r.Some? {
      AllRestored(us, r.value);
    }
  }

  function Document(a: seq<Json>, b: seq<Json>): Json {
    Obj(map[Version := Int(1), ProfileList := Arr(a), EntityList := Arr(b)])
  }

  /** Loading a well-formed document is loading its two lists. */
  lemma LoadsBoth(a: seq<Json>, b: seq<Json>, start: Db)
    requires |start.profiles| == PROFILE_COUNT && |start.entities| == ENTITY_COUNT
    ensures var r, s := LoadProfiles(a, start.profiles), LoadEntities(b, start.entities);
      LoadOnto(Document(a, b), start) == if r.Some? && s.Some? then Some(Db(r.value, s.value)) else None
  {
    var f := Document(a, b).fields;
    assert GetUint(f, Version, 1) == Some(1) && f[ProfileList] == Arr(a) && f[EntityList] == Arr(b);
  }

  lemma AllRestored(us: seq<Profile>, ps: seq<Profile>)
    requires RestoredTo(us, ps, PROFILE_COUNT)
    ensures ps == us
  {
  }

  /** A saved database comes back unchanged exactly when it is storable and every narrow
      field of profiles 1 and up is in range. */
  lemma ComesBackUnchangedIff(db: Db)
    requires DbInv(db)
    ensures Load(Dump(db)) == Some(db)
       <==> Storable(db) && forall i :: 1 <= i < PROFILE_COUNT ==> InRange(db.profiles[i])
  {
    LoadUndoesDump(db);
    var us := Renewed(db);
    forall i | 0 <= i < PROFILE_COUNT ensures us[i] == db.profiles[i] <==> i == 0 || InRange(db.profiles[i]) {
      ComesBackIff(db, i);
    }
    RenewedSame(us, db.profiles);
  }

  lemma RenewedSame(us: seq<Profile>, ps: seq<Profile>)
    requires |us| == |ps| == PROFILE_COUNT
    ensures us == ps <==> forall i :: 0 <= i < PROFILE_COUNT ==> us[i] == ps[i]
  {
  }

  lemma ComesBackIff(db: Db, i: nat)
    requires DbInv(db) && i < PROFILE_COUNT
    ensures Renewed(db)[i] == db.profiles[i] <==> i == 0 || InRange(db.profiles[i])
  {
    RenewalAt(Words(db), i);
    WordsAt(db, i);
    if i > 0 {
      UnpackUndoesPackIff(db.profiles[i]);
    }
  }

  /** A profile with a call duration of 128 s or more is accepted by the interface, but the
      file written with it can no longer be loaded. */
  lemma LongCallsCannotBeReloaded(db: Db, i: nat)
    requires DbInv(db) && 1 <= i < PROFILE_COUNT && db.profiles[i].maxCallDuration >= 128
    ensures Load(Dump(db)).None?
  {
    LoadUndoesDump(db);
  }
}
