/** Which files load, and what they load to: every file, not only those the program wrote. */
module DbFile {
  import opened Wrappers
  import opened Bits
  import opened WordFields
  import opened Profiles
  import opened DbJson

  // ----- The schema -----

  /** j has an integer between 0 and max under the key. */
  predicate HasNumber(j: Json, k: Key, max: nat) {
    j.Obj? && k in j.fields && j.fields[k].Int? && 0 <= j.fields[k].i <= max
  }

  predicate GoodProfile(j: Json) {
    HasNumber(j, Id, 5) && HasNumber(j, ProfileWord, 0xFFFF_FFFF)
  }

  predicate GoodEntity(j: Json) {
    && HasNumber(j, Idx, 255) && HasNumber(j, EntityId, 0xFF_FFFF) && HasNumber(j, EntityType, 1)
    && HasNumber(j, ProfileId, 5) && HasNumber(j, Reserved, 0x3_FFFF_FFFF)
    && IsValid in j.fields && j.fields[IsValid].Bool?
  }

  predicate HasList(j: Json, k: Key) {
    j.Obj? && k in j.fields && j.fields[k].Arr?
  }

  ghost predicate GoodFile(root: Json) {
    && root.Obj? && Version in root.fields && root.fields[Version] == Int(1)
    && HasList(root, ProfileList) && HasList(root, EntityList)
    && (forall j :: j in root.fields[ProfileList].items ==> GoodProfile(j))
    && (forall j :: j in root.fields[EntityList].items ==> GoodEntity(j))
  }

  lemma {:induction false} ProfilesLoadIff(items: seq<Json>, ps: seq<Profile>)
    requires |ps| == PROFILE_COUNT
    ensures LoadProfiles(items, ps).Some? <==> forall j :: j in items ==> GoodProfile(j)
    decreases |items|
  {
    if items != [] {
      AllSplit(items);
      if GoodProfile(items[0]) {
        var id, word := items[0].fields[Id].i, items[0].fields[ProfileWord].i;
        ProfilesLoadIff(items[1..], if id == 0 then ps else ps[id := Unpacked(word)]);
      }
    }
  }

  lemma AllSplit(items: seq<Json>)
    requires items != []
    ensures forall j :: j in items <==> j == items[0] || j in items[1..]
  {
    assert items == [items[0]] + items[1..];
  }

  lemma EntityReadIff(j: Json)
    ensures ReadEntity(j).Some? <==> GoodEntity(j)
  {
  }

  lemma {:induction false} EntitiesLoadIff(items: seq<Json>, es: seq<Entity>)
    requires |es| == ENTITY_COUNT
    ensures LoadEntities(items, es).Some? <==> forall j :: j in items ==> GoodEntity(j)
    decreases |items|
  {
    if items != [] {
      AllSplit(items);
      EntityReadIff(items[0]);
      if GoodEntity(items[0]) {
        var e := ReadEntity(items[0]).value;
        EntitiesLoadIff(items[1..], es[e.0 := e.1]);
      }
    }
  }

  /** A file loads exactly when it follows the schema, every entry of it within its bounds. */
  lemma LoadsIff(root: Json)
    ensures Load(root).Some? <==> GoodFile(root)
  {
    var start := EmptyDb();
    if HasList(root, ProfileList) && HasList(root, EntityList) {
      ProfilesLoadIff(root.fields[ProfileList].items, start.profiles);
      EntitiesLoadIff(root.fields[EntityList].items, start.entities);
    }
  }

  // ----- What is loaded -----

  /** The last entry for slot n, if there is one. */
  function LastEntity(items: seq<Json>, n: nat): Option<Entity> {
    if items == [] then None
    else
      var j := items[|items| - 1];
      if GoodEntity(j) && j.fields[Idx].i == n
      then Some(Entity(j.fields[EntityId].i, j.fields[EntityType].i, j.fields[ProfileId].i, j.fields[Reserved].i,
                       j.fields[IsValid].b))
      else LastEntity(items[..|items| - 1], n)
  }

  function LastProfile(items: seq<Json>, n: nat): Option<nat> {
    if items == [] then None
    else
      var j := items[|items| - 1];
      if GoodProfile(j) && j.fields[Id].i == n then Some(j.fields[ProfileWord].i)
      else LastProfile(items[..|items| - 1], n)
  }

  lemma {:induction false} LastEntityOfRest(items: seq<Json>, n: nat)
    requires items != []
    ensures LastEntity(items, n)
         == if LastEntity(items[1..], n).Some? then LastEntity(items[1..], n) else LastEntity([items[0]], n)
    decreases |items|
  {
    var k := |items| - 1;
    if k == 0 {
      assert items == [items[0]];
    } else {
      assert items[..k][1..] == items[1..][..k - 1] && items[..k][0] == items[0];
      LastEntityOfRest(items[..k], n);
    }
  }

  lemma {:induction false} LastProfileOfRest(items: seq<Json>, n: nat)
    requires items != []
    ensures LastProfile(items, n)
         == if LastProfile(items[1..], n).Some? then LastProfile(items[1..], n) else LastProfile([items[0]], n)
    decreases |items|
  {
    var k := |items| - 1;
    if k == 0 {
      assert items == [items[0]];
    } else {
      assert items[..k][1..] == items[1..][..k - 1] && items[..k][0] == items[0];
      LastProfileOfRest(items[..k], n);
    }
  }

  lemma {:induction false} EntitiesAre(items: seq<Json>, es: seq<Entity>, n: nat)
    requires |es| == ENTITY_COUNT && n < ENTITY_COUNT && LoadEntities(items, es).Some?
    ensures LoadEntities(items, es).value[n]
         == if LastEntity(items, n).Some? then LastEntity(items, n).value else es[n]
    decreases |items|
  {
    if items != [] {
      EntityReadIff(items[0]);
      var e := ReadEntity(items[0]).value;
      EntitiesAre(items[1..], es[e.0 := e.1], n);
      LastEntityOfRest(items, n);
      LastOfOneEntity(items[0], n, e);
    }
  }

  lemma LastOfOneEntity(j: Json, n: nat, e: (nat, Entity))
    requires ReadEntity(j) == Some(e)
    ensures LastEntity([j], n) == if e.0 == n then Some(e.1) else None
  {
    EntityReadIff(j);
    assert [j][..0] == [];
  }

  lemma {:induction false} ProfilesAre(items: seq<Json>, ps: seq<Profile>, n: nat)
    requires |ps| == PROFILE_COUNT && n < PROFILE_COUNT && LoadProfiles(items, ps).Some?
    ensures LoadProfiles(items, ps).value[n]
         == if n > 0 && LastProfile(items, n).Some? then Unpacked(LastProfile(items, n).value) else ps[n]
    decreases |items|
  {
    if items != [] {
      ProfilesLoadIff(items, ps);
      AllSplit(items);
      var id, word := items[0].fields[Id].i, items[0].fields[ProfileWord].i;
      ProfilesAre(items[1..], if id == 0 then ps else ps[id := Unpacked(word)], n);
      LastProfileOfRest(items, n);
      LastOfOneProfile(items[0], n);
    }
  }

  lemma LastOfOneProfile(j: Json, n: nat)
    requires GoodProfile(j)
    ensures LastProfile([j], n) == if j.fields[Id].i == n then Some(j.fields[ProfileWord].i) else None
  {
    assert [j][..0] == [];
  }

  /** The two lists, once the document is taken apart. */
  lemma LoadTakesLists(root: Json, start: Db)
    requires |start.profiles| == PROFILE_COUNT && |start.entities| == ENTITY_COUNT && LoadOnto(root, start).Some?
    ensures HasList(root, ProfileList) && HasList(root, EntityList)
    ensures LoadProfiles(root.fields[ProfileList].items, start.profiles) == Some(LoadOnto(root, start).value.profiles)
    ensures LoadEntities(root.fields[EntityList].items, start.entities) == Some(LoadOnto(root, start).value.entities)
  {
  }

  lemma EmptySlots(n: nat)
    ensures var s := EmptyDb();
      && (n < ENTITY_COUNT ==> s.entities[n] == Entity(0, 0, 0, 0, false))
      && (n < PROFILE_COUNT ==> s.profiles[n] == Unpacked(if n == 0 then 0x88F else 0))
  {
    BlankIsZero();
  }

  /** What a file loads to: in every slot the last entry for it, or nothing. */
  lemma LoadedEntityIsLast(root: Json, n: nat)
    requires Load(root).Some? && n < ENTITY_COUNT
    ensures HasList(root, EntityList) && |Load(root).value.entities| == ENTITY_COUNT
    ensures var e := LastEntity(root.fields[EntityList].items, n);
      Load(root).value.entities[n] == if e.Some? then e.value else Entity(0, 0, 0, 0, false)
  {
    var start := EmptyDb();
    LoadTakesLists(root, start);
    EntitiesAre(root.fields[EntityList].items, start.entities, n);
    EmptySlots(n);
  }

  /** Likewise for profiles, but that entries for Profile 0 are passed over, which stays what it
      is built in as. */
  lemma LoadedProfileIsLast(root: Json, n: nat)
    requires Load(root).Some? && n < PROFILE_COUNT
    ensures HasList(root, ProfileList) && |Load(root).value.profiles| == PROFILE_COUNT
    ensures var w := LastProfile(root.fields[ProfileList].items, n);
      Load(root).value.profiles[n] == Unpacked(if n == 0 then 0x88F else if w.Some? then w.value else 0)
  {
    var start := EmptyDb();
    LoadTakesLists(root, start);
    ProfilesAre(root.fields[ProfileList].items, start.profiles, n);
    EmptySlots(n);
  }

  /** A cleared profile slot is the all-zero word. */
  lemma BlankIsZero()
    ensures BlankProfile() == Unpacked(0) && Packed(BlankProfile()) == 0
  {
    var p := BlankProfile();
    BlankBits();
    ZeroWordBits(32);
    FitsIsBound(0, 32);
    FromToBits(0, 32);
    FitsIsBound(0, 4);
    FitsIsBound(0, 3);
    FitsIsBound(0, 2);
    UnpackUndoesPackIff(p);
  }

  lemma BlankBits()
    ensures ProfileBits(BlankProfile()) == Zeros(32)
  {
    ZeroWordBits(8);
    ZeroWordBits(4);
    ZeroWordBits(3);
    ZeroWordBits(2);
    ZeroWordBits(1);
  }

  // ----- The casts -----

  /** A cast keeps the value modulo 2^32, in the range of the signed type. */
  lemma AsIntIsCast(v: nat)
    requires v < 0x1_0000_0000
    ensures -0x8000_0000 <= AsInt(v) < 0x8000_0000 && (AsInt(v) - v) % 0x1_0000_0000 == 0
  {
  }

  lemma AsInt64IsCast(v: nat)
    requires v < 0x1_0000_0000_0000_0000
    ensures -0x8000_0000_0000_0000 <= AsInt64(v) < 0x8000_0000_0000_0000
    ensures (AsInt64(v) - v) % 0x1_0000_0000_0000_0000 == 0
  {
  }
}
