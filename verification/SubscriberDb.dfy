/** The database object: profile and entity arrays filled by loading and by the put calls. */
module SubscriberDb {
  import opened Errno
  import opened Wrappers
  import opened Profiles
  import opened DbJson

  /** What db_open finds at the path: nothing, text that is not JSON, or a value. */
  datatype File = Missing | Garbled | Holds(root: Json)

  class SubscriberDb {
    const profiles: array<Profile>
    const entities: array<Entity>
    var isOpen: bool

    ghost predicate Shape()
      reads this
    {
      profiles.Length == PROFILE_COUNT && entities.Length == ENTITY_COUNT
    }

    ghost function View(): (db: Db)
      reads this, profiles, entities
    {
      Db(profiles[..], entities[..])
    }

    /** After every sequence of calls. */
    ghost predicate Valid()
      reads this, profiles, entities
    {
      Shape() && (isOpen ==> DbInv(View()))
    }

    constructor ()
      ensures Valid() && !isOpen && fresh(profiles) && fresh(entities)
    {
      profiles := new Profile[PROFILE_COUNT](_ => BlankProfile());
      entities := new Entity[ENTITY_COUNT](_ => NOTHING);
      isOpen := false;
    }

    /** memset of both tables. */
    method Clear()
      requires Shape()
      modifies profiles, entities
      ensures profiles[..] == seq(PROFILE_COUNT, _ => BlankProfile()) && entities[..] == seq(ENTITY_COUNT, _ => NOTHING)
    {
      ClearProfiles();
      ClearEntities();
    }

    method ClearProfiles()
      requires Shape()
      modifies profiles
      ensures profiles[..] == seq(PROFILE_COUNT, _ => BlankProfile())
    {
      for i := 0 to PROFILE_COUNT
        invariant forall j :: 0 <= j < i ==> profiles[j] == BlankProfile()
      {
        profiles[i] := BlankProfile();
      }
    }

    method ClearEntities()
      requires Shape()
      modifies entities
      ensures entities[..] == seq(ENTITY_COUNT, _ => NOTHING)
    {
      for i := 0 to ENTITY_COUNT
        invariant forall j :: 0 <= j < i ==> entities[j] == NOTHING
      {
        entities[i] := NOTHING;
      }
    }

    /** db_init_empty. */
    method InitEmpty()
      requires Shape()
      modifies this`isOpen, profiles, entities
      ensures isOpen && View() == EmptyDb()
    {
      Clear();
      profiles[0] := Unpacked(PROFILE0_BITS);
      assert profiles[..] == EmptyDb().profiles;
      isOpen := true;
    }

    method LoadProfileItems(items: seq<Json>) returns (ok: bool)
      requires Shape()
      modifies profiles
      ensures LoadProfiles(items, old(profiles[..])) == if ok then Some(profiles[..]) else None
    {
      for i := 0 to |items|
        invariant LoadProfiles(items, old(profiles[..])) == LoadProfiles(items[i..], profiles[..])
      {
        assert items[i..][1..] == items[i + 1..];
        if !items[i].Obj? {
          return false;
        }
        var id := GetUint(items[i].fields, Id, PROFILE_COUNT - 1);
        var bits := GetUint(items[i].fields, ProfileWord, 0xFFFF_FFFF);
        if id.None? || bits.None? {
          return false;
        }
        if id.value != 0 {
          ghost var before := profiles[..];
          profiles[id.value] := Unpacked(bits.value);
          assert profiles[..] == before[id.value := Unpacked(bits.value)];
        }
      }
      ok := true;
    }

    method LoadEntityItems(items: seq<Json>) returns (ok: bool)
      requires Shape()
      modifies entities
      ensures LoadEntities(items, old(entities[..])) == if ok then Some(entities[..]) else None
    {
      for i := 0 to |items|
        invariant LoadEntities(items, old(entities[..])) == LoadEntities(items[i..], entities[..])
      {
        assert items[i..][1..] == items[i + 1..];
        var e := ReadEntity(items[i]);
        if e.None? {
          return false;
        }
        var (idx, value) := e.value;
        if idx < ENTITY_COUNT {
          ghost var before := entities[..];
          entities[idx] := value;
          assert entities[..] == before[idx := value];
        }
      }
      ok := true;
    }

    /** db_load_json. */
    method LoadJson(root: Json) returns (ok: bool)
      requires Shape()
      modifies this`isOpen, profiles, entities
      ensures Load(root) == if ok then Some(View()) else None
      ensures ok ==> isOpen
    {
      if !root.Obj? || GetUint(root.fields, Version, 1) != Some(1) {
        return false;
      }
      if ProfileList !in root.fields || EntityList !in root.fields {
        return false;
      }
      if !root.fields[ProfileList].Arr? || !root.fields[EntityList].Arr? {
        return false;
      }
      InitEmpty();
      ok := LoadProfileItems(root.fields[ProfileList].items);
      if ok {
        ok := LoadEntityItems(root.fields[EntityList].items);
      }
    }

    /** db_open: a missing file gives the empty database, a bad one leaves it closed with
        both tables cleared. */
    method Open(file: File) returns (rc: int)
      requires Shape()
      modifies this, profiles, entities
      ensures Valid() && (isOpen <==> rc == 0)
      ensures rc == match file
        case Missing => 0
        case Garbled => -EIO
        case Holds(root) => if Load(root).Some? then 0 else -EINVAL
      ensures rc == 0 ==> View() == if file.Missing? then EmptyDb() else Load(file.root).value
      ensures rc != 0 ==>
        profiles[..] == seq(PROFILE_COUNT, _ => BlankProfile()) && entities[..] == seq(ENTITY_COUNT, _ => NOTHING)
    {
      Clear();
      isOpen := false;
      match file
      case Missing =>
        InitEmpty();
        EmptyIsOk();
        rc := 0;
      case Garbled =>
        rc := -EIO;
      case Holds(root) =>
        var ok := LoadJson(root);
        if !ok {
          Clear();
          isOpen := false;
          return -EINVAL;
        }
        LoadIsOk(root);
        profiles[0] := Unpacked(PROFILE0_BITS);
        assert profiles[..] == Load(root).value.profiles;
        rc := 0;
    }

    /** db_put_profile. */
    method PutProfile(id: nat, p: Profile) returns (rc: int)
      requires Valid()
      modifies profiles
      ensures Valid()
      ensures rc == if !isOpen || id >= PROFILE_COUNT then -EINVAL else if id == 0 then -EPERM else 0
      ensures rc != 0 ==> profiles[..] == old(profiles[..])
      ensures rc == 0 ==> profiles[..] == old(profiles[..])[id := p]
    {
      if !isOpen || id >= PROFILE_COUNT {
        return -EINVAL;
      }
      if id == 0 {
        return -EPERM;
      }
      profiles[id] := p;
      rc := 0;
    }

    /** db_put_entity: reserved34 is not checked. */
    method PutEntity(idx: nat, e: Entity) returns (rc: int)
      requires Valid() && e.reserved34 < 0x1_0000_0000_0000_0000
      modifies entities
      ensures Valid()
      ensures rc == 0 <==> isOpen && idx < ENTITY_COUNT && EntityOk(e)
      ensures rc != 0 ==> rc == -EINVAL && entities[..] == old(entities[..])
      ensures rc == 0 ==> entities[..] == old(entities[..])[idx := e]
    {
      if !isOpen || idx >= ENTITY_COUNT {
        return -EINVAL;
      }
      if e.profileId >= PROFILE_COUNT || e.entityType > 1 || e.entityId > MAX_ID {
        return -EINVAL;
      }
      entities[idx] := e;
      rc := 0;
    }

    /** db_dump_json, up to the rendering as text. */
    method DumpJson() returns (j: Json)
      requires Valid() && isOpen
      ensures j == Dump(View())
    {
      var ps := DumpProfileItems();
      var es := DumpEntityItems();
      j := Document(ps, es);
    }

    method DumpProfileItems() returns (items: seq<Json>)
      requires Shape()
      ensures items == DumpWords(Words(View()), 0)
    {
      items := [];
      ghost var ws := Words(View());
      for i := 0 to PROFILE_COUNT
        invariant items + DumpWords(ws, i) == DumpWords(ws, 0)
      {
        var bits := PROFILE0_BITS;
        if i != 0 {
          bits := PackProfile(profiles[i]);
        }
        WordsAt(View(), i);
        Extend(items, ProfileItem(i, bits), DumpWords(ws, i + 1));
        items := items + [ProfileItem(i, bits)];
      }
    }

    method DumpEntityItems() returns (items: seq<Json>)
      requires Shape()
      ensures items == DumpEntities(entities[..], 0)
    {
      items := [];
      for i := 0 to ENTITY_COUNT
        invariant items + DumpEntities(entities[..], i) == DumpEntities(entities[..], 0)
      {
        if entities[i] != NOTHING {
          Extend(items, EntityItem(i, entities[i]), DumpEntities(entities[..], i + 1));
          items := items + [EntityItem(i, entities[i])];
        } else {
          assert [] + DumpEntities(entities[..], i + 1) == DumpEntities(entities[..], i + 1);
        }
      }
    }
  }

  lemma Extend(a: seq<Json>, x: Json, b: seq<Json>)
    ensures a + ([x] + b) == (a + [x]) + b
  {
  }

  // ----- Whatever is loaded is well-formed -----

  lemma EmptyIsOk()
    ensures DbInv(EmptyDb())
  {
  }

  lemma {:induction false} LoadedProfilesOk(items: seq<Json>, ps: seq<Profile>)
    requires |ps| == PROFILE_COUNT
    ensures var r := LoadProfiles(items, ps); r.Some? ==> r.value[0] == ps[0]
    decreases |items|
  {
    if items != [] && items[0].Obj? {
      var id := GetUint(items[0].fields, Id, PROFILE_COUNT - 1);
      var bits := GetUint(items[0].fields, ProfileWord, 0xFFFF_FFFF);
      if id.Some? && bits.Some? {
        LoadedProfilesOk(items[1..], if id.value == 0 then ps else ps[id.value := Unpacked(bits.value)]);
      }
    }
  }

  ghost predicate AllOk(es: seq<Entity>) {
    forall i :: 0 <= i < |es| ==> EntityOk(es[i])
  }

  lemma {:induction false} LoadedEntitiesOk(items: seq<Json>, es: seq<Entity>)
    requires |es| == ENTITY_COUNT && AllOk(es)
    ensures var r := LoadEntities(items, es); r.Some? ==> AllOk(r.value)
    decreases |items|
  {
    if items != [] {
      var e := ReadEntity(items[0]);
      if e.Some? {
        assert EntityOk(e.value.1);
        LoadedEntitiesOk(items[1..], if e.value.0 < ENTITY_COUNT then es[e.value.0 := e.value.1] else es);
      }
    }
  }

  /** A file that loads at all, whoever wrote it, gives a database within all bounds and
      with Profile 0 intact. */
  lemma LoadIsOk(root: Json)
    ensures Load(root).Some? ==> DbInv(Load(root).value)
  {
    if Load(root).Some? {
      LoadedProfilesOk(root.fields[ProfileList].items, EmptyDb().profiles);
      LoadedEntitiesOk(root.fields[EntityList].items, EmptyDb().entities);
    }
  }
}
