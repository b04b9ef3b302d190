/** A map keyed by object identity (HashMap.js): each inserted key is tagged with an
    ID from an IDGenerator, and the value is stored under that tag. */
module HashMap {
  import opened Wrappers
  import IDGenerator

  /** Any object that can be used as a key: it carries the mutable `_HashID` tag. */
  class Key {
    var hashID: Option<int>

    constructor ()
      ensures hashID == None
    {
      hashID := None;
    }
  }

  class HashMap<V> {
    /** `_m_Map`: values by tag. */
    var entries: map<int, V>
    const ids: IDGenerator.IDGenerator

    constructor ()
      ensures entries == map[] && fresh(ids)
      ensures ids.greatest == -1 && ids.recycled == [] && ids.Coherent() && ids.WellIssued()
    {
      entries := map[];
      ids := new IDGenerator.IDGenerator();
    }

    /** The value stored under the key's current tag, or None (`undefined`). */
    function Get(key: Key): (v: Option<V>)
      reads this, key
      ensures v.Some? ==>
        key.hashID.Some? && key.hashID.value in entries && v.value == entries[key.hashID.value]
      ensures key.hashID.None? ==> v.None?
    {
      if key.hashID.Some? && key.hashID.value in entries then Some(entries[key.hashID.value]) else None
    }

    /** Tags the key with a new ID and stores the value under it. A key that already
        had a tag is retagged and its old entry is left behind. */
    method Insert(key: Key, value: V)
      requires ids.Coherent()
      modifies this`entries, ids, key`hashID
      ensures key.hashID == Some(old(ids.NextID()))
      ensures entries == old(entries)[old(ids.NextID()) := value]
      ensures Get(key) == Some(value)
      ensures old(|ids.recycled|) > 0 ==>
        ids.recycled == old(ids.recycled[..|ids.recycled| - 1]) && ids.greatest == old(ids.greatest)
      ensures old(|ids.recycled|) == 0 ==> ids.recycled == [] && ids.greatest == old(ids.greatest) + 1
      ensures ids.active == old(ids.active)[old(ids.NextID()) := true]
      ensures ids.Coherent()
      ensures old(ids.WellIssued()) ==> ids.WellIssued() && !old(ids.IsIDActive(ids.NextID()))
    {
      var id := ids.GetNewID();
      key.hashID := Some(id);
      entries := entries[id := value];
    }

    /** Untags the key and frees its ID. The value under the old tag stays in the map,
        because the deletion reads the tag after it has been removed. */
    method Remove(key: Key) returns (found: bool)
      requires ids.Coherent()
      modifies ids, key`hashID
      ensures found <==> old(key.hashID).Some?
      ensures key.hashID == None && Get(key) == None
      ensures entries == old(entries)
      ensures !found ==> unchanged(ids)
      ensures found ==> ids.recycled == old(ids.recycled) + [old(key.hashID).value]
      ensures found ==> ids.greatest == old(ids.greatest)
      ensures found ==> ids.active == old(ids.active)[old(key.hashID).value := false]
      ensures ids.Coherent()
      ensures found && old(ids.WellIssued()) && old(ids.IsIDActive(key.hashID.value)) ==> ids.WellIssued()
    {
      var tag := key.hashID;
      if tag.None? {
        return false;
      }
      key.hashID := None;
      ids.FreeID(tag.value);
      found := true;
    }

    /** Empties the map and resets the ID generator. The loop over the map's keys in
        the original iterates their string forms, so the key objects keep their tags. */
    method Clear()
      modifies this`entries, ids
      ensures entries == map[]
      ensures ids.greatest == -1 && ids.recycled == [] && ids.active == map[]
      ensures ids.Coherent() && ids.WellIssued()
    {
      ids.Reset();
      entries := map[];
    }
  }

  /** Inserting two keys and reading both back. */
  method InsertThenGet() returns (first: Option<int>, second: Option<int>, tagA: Option<int>, tagB: Option<int>)
    ensures first == Some(10) && second == Some(20)
    ensures tagA == Some(0) && tagB == Some(1)
  {
    var m := new HashMap<int>();
    var a := new Key();
    var b := new Key();
    m.Insert(a, 10);
    m.Insert(b, 20);
    first := m.Get(a);
    second := m.Get(b);
    tagA := a.hashID;
    tagB := b.hashID;
  }

  /** Remove leaves the entry under the freed tag behind. */
  method OrphanAfterRemove() returns (found: bool, left: Option<int>, now: Option<int>)
    ensures found && left == Some(1) && now == None
  {
    var m := new HashMap<int>();
    var a := new Key();
    m.Insert(a, 1);
    found := m.Remove(a);
    left := if 0 in m.entries then Some(m.entries[0]) else None;
    now := m.Get(a);
  }

  /** Re-inserting an already tagged key retags it; the old entry stays. */
  method OrphanAfterRetag() returns (oldEntry: Option<int>, newTag: Option<int>)
    ensures oldEntry == Some(2) && newTag == Some(1)
  {
    var m := new HashMap<int>();
    var b := new Key();
    m.Insert(b, 2);
    m.Insert(b, 3);
    oldEntry := if 0 in m.entries then Some(m.entries[0]) else None;
    newTag := b.hashID;
  }

  /** After Clear a stale key still carries its tag, so once the tag is reissued it
      reads the value of a different key. */
  method StaleTagAfterClear() returns (seen: Option<int>)
    ensures seen == Some(2)
  {
    var m := new HashMap<int>();
    var a := new Key();
    m.Insert(a, 1);
    m.Clear();
    var b := new Key();
    m.Insert(b, 2);
    seen := m.Get(a);
  }
}
