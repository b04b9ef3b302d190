/** A recycling integer ID allocator (IDGenerator.js). */
module IDGenerator {

  class IDGenerator {
    /** The highest ID issued so far; -1 before the first. */
    var greatest: int
    /** Freed IDs, reissued last-in first-out. */
    var recycled: seq<int>
    /** The sparse `_m_vIDActive` array: a missing entry reads as not active. */
    var active: map<int, bool>
    /** The cached list of active IDs and whether it must be rebuilt. */
    var cache: seq<int>
    var dirty: bool

    /** The cache, when not marked dirty, lists the active IDs; every method keeps this. */
    ghost predicate Coherent()
      reads this
    {
      !dirty ==> cache == ActiveIDs()
    }

    /** The discipline the allocator relies on: every ID up to `greatest` is either
        active or waiting, once, on the recycle stack. It holds as long as FreeID is
        only called on active IDs. */
    ghost predicate WellIssued()
      reads this
    {
      greatest >= -1 &&
      (forall i :: 0 <= i < |recycled| ==> 0 <= recycled[i] <= greatest && !ActiveAt(recycled[i])) &&
      (forall i, j :: 0 <= i < j < |recycled| ==> recycled[i] != recycled[j]) &&
      (forall n :: 0 <= n <= greatest ==> ActiveAt(n) || n in recycled)
    }

    predicate ActiveAt(n: int)
      reads this`active
    {
      n in active && active[n]
    }

    /** The active IDs among 0 .. k-1, ascending. */
    ghost function ActiveBelow(k: int): seq<int>
      reads this`active
      decreases k
    {
      if k <= 0 then [] else ActiveBelow(k - 1) + (if ActiveAt(k - 1) then [k - 1] else [])
    }

    ghost function ActiveIDs(): seq<int>
      reads this`active, this`greatest
    {
      ActiveBelow(greatest + 1)
    }

    constructor ()
      ensures greatest == -1 && recycled == [] && active == map[]
      ensures Coherent() && WellIssued()
    {
      greatest := -1;
      recycled := [];
      active := map[];
      cache := [];
      dirty := false;
    }

    /** The ID the next GetNewID hands out: the top of the recycle stack, if any. */
    function NextID(): (id: int)
      reads this
      ensures |recycled| > 0 ==> id == recycled[|recycled| - 1]
      ensures |recycled| == 0 ==> id == greatest + 1
    {
      if |recycled| != 0 then recycled[|recycled| - 1] else greatest + 1
    }

    method GetNewID() returns (id: int)
      modifies this`greatest, this`recycled, this`active, this`dirty
      ensures id == old(NextID())
      ensures old(|recycled|) > 0 ==>
        recycled == old(recycled[..|recycled| - 1]) && greatest == old(greatest)
      ensures old(|recycled|) == 0 ==> recycled == [] && greatest == old(greatest) + 1
      ensures active == old(active)[id := true] && dirty
      ensures Coherent()
      ensures old(WellIssued()) ==> WellIssued() && !old(IsIDActive(id)) && IsIDActive(id)
    {
      if |recycled| != 0 {
        id := recycled[|recycled| - 1];
        recycled := recycled[..|recycled| - 1];
      } else {
        greatest := greatest + 1;
        id := greatest;
      }
      active := active[id := true];
      dirty := true;
      if old(WellIssued()) {
        forall i | 0 <= i < |recycled|
          ensures recycled[i] != id && !ActiveAt(recycled[i])
        {
          assert recycled[i] == old(recycled)[i];
        }
        forall n | 0 <= n <= greatest
          ensures ActiveAt(n) || n in recycled
        {
          if n != id {
            assert n in old(recycled) ==> n in recycled;
          }
        }
      }
    }

    method FreeID(n: int)
      modifies this`recycled, this`active, this`dirty
      ensures active == old(active)[n := false]
      ensures recycled == old(recycled) + [n] && dirty
      ensures Coherent()
      ensures old(WellIssued()) && old(IsIDActive(n)) ==> WellIssued() && !IsIDActive(n)
    {
      active := active[n := false];
      recycled := recycled + [n];
      dirty := true;
    }

    /** Active and within the issued range; anything outside 0..greatest is inactive. */
    predicate IsIDActive(n: int)
      reads this
    {
      if n < 0 || n > greatest then false else ActiveAt(n)
    }

    /** Rebuilds the cache when it is dirty and returns it. */
    method GetActiveIDs() returns (ids: seq<int>)
      requires Coherent()
      modifies this`cache, this`dirty
      ensures ids == ActiveIDs() && cache == ids && !dirty
    {
      if dirty {
        var list := [];
        var i := 0;
        while i <= greatest
          invariant 0 <= i <= greatest + 1 || (i == 0 && greatest < 0)
          invariant list == ActiveBelow(i)
        {
          if i in active && active[i] {
            list := list + [i];
          }
          i := i + 1;
        }
        cache := list;
        dirty := false;
      }
      ids := cache;
    }

    /** The value GetNumActiveIDs returns. */
    function GetNumActiveIDs(): int
      reads this
    {
      greatest - |recycled|
    }

    method Reset()
      modifies this
      ensures greatest == -1 && recycled == [] && active == map[] && cache == [] && !dirty
      ensures Coherent() && WellIssued()
    {
      greatest := -1;
      recycled := [];
      active := map[];
      cache := [];
      dirty := false;
    }

    /** ActiveBelow lists exactly the active IDs below k, strictly ascending. */
    lemma {:induction false} ActiveBelowSpec(k: int)
      ensures forall n :: n in ActiveBelow(k) <==> 0 <= n < k && ActiveAt(n)
      ensures forall i, j :: 0 <= i < j < |ActiveBelow(k)| ==> ActiveBelow(k)[i] < ActiveBelow(k)[j]
      decreases k
    {
      if k > 0 {
        ActiveBelowSpec(k - 1);
        var front := ActiveBelow(k - 1);
        if ActiveAt(k - 1) {
          forall i | 0 <= i < |front|
            ensures front[i] < k - 1
          {
            assert front[i] in front;
          }
        }
      }
    }

    /** GetActiveIDs' result holds exactly the IDs IsIDActive accepts, ascending. */
    lemma ActiveIDsSpec()
      ensures forall n :: n in ActiveIDs() <==> IsIDActive(n)
      ensures forall i, j :: 0 <= i < j < |ActiveIDs()| ==> ActiveIDs()[i] < ActiveIDs()[j]
    {
      ActiveBelowSpec(greatest + 1);
    }

    ghost function RecycledBelow(k: int): set<int>
      reads this`recycled
    {
      set r | r in recycled && r < k
    }

    /** Under WellIssued an ID in range is on the recycle stack exactly when it is inactive. */
    lemma RecycledIffInactive(m: int)
      requires WellIssued() && 0 <= m <= greatest
      ensures m in recycled <==> !ActiveAt(m)
    {
      if m in recycled {
        var i :| 0 <= i < |recycled| && recycled[i] == m;
      }
    }

    lemma {:induction false} CountBelow(k: int)
      requires WellIssued() && 0 <= k <= greatest + 1
      ensures |ActiveBelow(k)| + |RecycledBelow(k)| == k
      decreases k
    {
      if k > 0 {
        CountBelow(k - 1);
        var m := k - 1;
        RecycledIffInactive(m);
        var below := RecycledBelow(m);
        assert m !in below;
        if m in recycled {
          assert RecycledBelow(k) == below + {m};
          assert ActiveBelow(k) == ActiveBelow(m);
        } else {
          assert RecycledBelow(k) == below;
          assert ActiveBelow(k) == ActiveBelow(m) + [m];
        }
      }
    }

    /** GetNumActiveIDs is one less than the number of active IDs, because
        `greatest` counts from -1 rather than 0. */
    lemma NumActiveIsOneShort()
      requires WellIssued()
      ensures GetNumActiveIDs() == |ActiveIDs()| - 1
    {
      CountBelow(greatest + 1);
      assert RecycledBelow(greatest + 1) == set r | r in recycled;
      DistinctCardinality(recycled);
    }
  }

  lemma {:induction false} DistinctCardinality(s: seq<int>)
    requires forall i, j :: 0 <= i < j < |s| ==> s[i] != s[j]
    ensures |set r | r in s| == |s|
  {
    if |s| > 0 {
      var front := s[..|s| - 1];
      DistinctCardinality(front);
      assert (set r | r in s) == (set r | r in front) + {s[|s| - 1]};
    }
  }

  /** After a reset fresh IDs count up from 0, and freed IDs come back last-in first-out. */
  method IssueOrder() returns (first: int, second: int, third: int, again: int, last: int)
    ensures first == 0 && second == 1 && third == 2
    ensures again == 2 && last == 1
  {
    var ids := new IDGenerator();
    first := ids.GetNewID();
    assert ids.greatest == 0 && ids.recycled == [];
    second := ids.GetNewID();
    assert ids.greatest == 1 && ids.recycled == [];
    third := ids.GetNewID();
    assert ids.greatest == 2 && ids.recycled == [];
    ids.FreeID(second);
    ids.FreeID(third);
    assert ids.recycled == [1, 2];
    again := ids.GetNewID();
    assert ids.recycled == [1];
    last := ids.GetNewID();
  }

  /** With one ID issued, GetNumActiveIDs reports 0. */
  method OneIssuedCountsZero() returns (reported: int, activeCount: int)
    ensures reported == 0 && activeCount == 1
  {
    var ids := new IDGenerator();
    var id := ids.GetNewID();
    reported := ids.GetNumActiveIDs();
    var list := ids.GetActiveIDs();
    assert list == [0] by {
      assert ids.ActiveBelow(0) == [];
      assert ids.ActiveBelow(1) == [0];
    }
    activeCount := |list|;
  }
}
