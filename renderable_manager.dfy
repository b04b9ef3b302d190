/** Layered, ordered storage of drawable objects (RenderableManager.js), without the
    drawing: each layer is an array, and a HashMap remembers each object's layer. */
module RenderableManager {
  import opened Wrappers
  import JsArray
  import HashMap

  /** Drawables are identified by object; their only state here is the hash tag. */
  type Renderable = HashMap.Key

  const Background: nat := 0
  const LevelObjects: nat := 1
  const Balls: nat := 2
  const NumLayers: nat := 3

  /** The layers concatenated, lowest first: the order RenderAll visits them in. */
  function Concat<T>(layers: seq<seq<T>>): seq<T>
  {
    if |layers| == 0 then [] else Concat(layers[..|layers| - 1]) + layers[|layers| - 1]
  }

  /** Flattening loses and invents nothing: an object is visited exactly when it is
      in one of the layers. */
  lemma {:induction false} ConcatMembers<T>(layers: seq<seq<T>>, x: T)
    ensures x in Concat(layers) <==> exists i :: 0 <= i < |layers| && x in layers[i]
  {
    if |layers| > 0 {
      var n := |layers| - 1;
      var front := layers[..n];
      ConcatMembers(front, x);
      assert forall i :: 0 <= i < n ==> front[i] == layers[i];
      if x in layers[n] {
        assert Concat(layers) == Concat(front) + layers[n];
      }
    }
  }

  lemma ConcatThree<T>(a: seq<T>, b: seq<T>, c: seq<T>)
    ensures Concat([a, b, c]) == a + b + c
  {
    assert [a, b, c][..2] == [a, b];
    assert [a, b][..1] == [a];
    assert [a][..0] == [];
    assert Concat([a]) == a;
    assert Concat([a, b]) == a + b;
  }

  /** The current tags of a layer's objects, position by position. */
  ghost function Tags(layer: seq<Renderable>): (tags: seq<Option<int>>)
    reads layer
    ensures |tags| == |layer| && forall k :: 0 <= k < |layer| ==> tags[k] == layer[k].hashID
  {
    if |layer| == 0 then [] else Tags(layer[..|layer| - 1]) + [layer[|layer| - 1].hashID]
  }

  /** The tags ClearLayer frees, in order, given the layer's tags before it starts: each
      object's tag the first time the object occurs in the layer (a repeat of it is
      already untagged by then). */
  function FreedTags(layer: seq<Renderable>, tags: seq<Option<int>>): seq<int>
    requires |tags| == |layer|
  {
    if |layer| == 0 then []
    else
      var n := |layer| - 1;
      FreedTags(layer[..n], tags[..n]) +
        if layer[n] !in layer[..n] && tags[n].Some? then [tags[n].value] else []
  }

  /** Freeing one more position adds its tag exactly when the object is new there. */
  lemma FreedTagsStep(layer: seq<Renderable>, tags: seq<Option<int>>, i: nat)
    requires |tags| == |layer| && i < |layer|
    ensures FreedTags(layer[..i + 1], tags[..i + 1]) == FreedTags(layer[..i], tags[..i]) +
      if layer[i] !in layer[..i] && tags[i].Some? then [tags[i].value] else []
  {
    assert layer[..i + 1][..i] == layer[..i] && tags[..i + 1][..i] == tags[..i];
  }

  /** Every tagged object of the layer has its tag among the freed ones. */
  lemma {:induction false} FreedTagsCover(layer: seq<Renderable>, tags: seq<Option<int>>, k: nat)
    requires |tags| == |layer| && k < |layer| && tags[k].Some?
    requires forall j :: 0 <= j < |layer| && layer[j] == layer[k] ==> tags[j] == tags[k]
    ensures tags[k].value in FreedTags(layer, tags)
  {
    var n := |layer| - 1;
    if layer[k] in layer[..n] {
      var j :| 0 <= j < n && layer[..n][j] == layer[k];
      FreedTagsCover(layer[..n], tags[..n], j);
    }
  }

  /** The activity map after freeing the given tags one after another. */
  function Deactivate(active: map<int, bool>, tags: seq<int>): map<int, bool>
  {
    if |tags| == 0 then active else Deactivate(active, tags[..|tags| - 1])[tags[|tags| - 1] := false]
  }

  lemma DeactivateStep(active: map<int, bool>, tags: seq<int>, t: int)
    ensures Deactivate(active, tags + [t]) == Deactivate(active, tags)[t := false]
  {
    assert (tags + [t])[..|tags|] == tags;
  }

  /** Freeing marks exactly the freed tags inactive and leaves every other entry. */
  lemma {:induction false} DeactivateMeaning(active: map<int, bool>, tags: seq<int>, t: int)
    ensures t in tags ==> t in Deactivate(active, tags) && !Deactivate(active, tags)[t]
    ensures t !in tags ==> (t in Deactivate(active, tags) <==> t in active)
    ensures t !in tags && t in active ==> Deactivate(active, tags)[t] == active[t]
  {
    if |tags| > 0 {
      var n := |tags| - 1;
      DeactivateMeaning(active, tags[..n], t);
      assert tags == tags[..n] + [tags[n]];
    }
  }

  /** After ClearLayer every object that had a tag has that tag inactive. */
  lemma FreedInactive(active: map<int, bool>, layer: seq<Renderable>, tags: seq<Option<int>>, k: nat)
    requires |tags| == |layer| && k < |layer| && tags[k].Some?
    requires forall j :: 0 <= j < |layer| && layer[j] == layer[k] ==> tags[j] == tags[k]
    ensures var after := Deactivate(active, FreedTags(layer, tags));
      tags[k].value in after && !after[tags[k].value]
  {
    FreedTagsCover(layer, tags, k);
    DeactivateMeaning(active, FreedTags(layer, tags), tags[k].value);
  }

  class RenderableManager {
    var layers: seq<seq<Renderable>>
    const hash: HashMap.HashMap<nat>

    /** Three layers, and every layer recorded in the hash is one of them. */
    ghost predicate Valid()
      reads this, hash, hash.ids
    {
      |layers| == NumLayers && hash.ids.Coherent() &&
      forall id :: id in hash.entries ==> hash.entries[id] < NumLayers
    }

    lemma RecordedLayer(id: int)
      requires Valid() && id in hash.entries
      ensures hash.entries[id] < NumLayers
    {
    }

    constructor ()
      ensures Valid() && layers == [[], [], []] && hash.entries == map[] && fresh(hash) && fresh(hash.ids)
    {
      var empty: seq<seq<Renderable>> := [];
      var i := 0;
      while i < NumLayers
        invariant 0 <= i <= NumLayers && |empty| == i
        invariant forall k :: 0 <= k < i ==> empty[k] == []
      {
        empty := empty + [[]];
        i := i + 1;
      }
      layers := empty;
      hash := new HashMap.HashMap<nat>();
    }

    /** Appends r to layer l and records l for r: r is tagged with the generator's
        next ID, l is stored under that tag, and the generator takes the ID from its
        recycled list or issues a new greatest one. Every other entry stays. */
    method AddRenderableToLayer(r: Renderable, l: nat)
      requires Valid() && l < NumLayers
      modifies this`layers, hash, hash.ids, r`hashID
      ensures Valid()
      ensures layers == old(layers)[l := old(layers[l]) + [r]]
      ensures hash.Get(r) == Some(l)
      ensures r.hashID == Some(old(hash.ids.NextID()))
      ensures hash.entries == old(hash.entries)[old(hash.ids.NextID()) := l]
      ensures old(|hash.ids.recycled|) > 0 ==>
        hash.ids.recycled == old(hash.ids.recycled[..|hash.ids.recycled| - 1]) && hash.ids.greatest == old(hash.ids.greatest)
      ensures old(|hash.ids.recycled|) == 0 ==>
        hash.ids.recycled == [] && hash.ids.greatest == old(hash.ids.greatest) + 1
      ensures hash.ids.active == old(hash.ids.active)[old(hash.ids.NextID()) := true]
      ensures old(hash.ids.WellIssued()) ==> hash.ids.WellIssued()
    {
      layers := layers[l := layers[l] + [r]];
      hash.Insert(r, l);
    }

    /** Looks up r's layer; if there is none, returns false and changes nothing.
        Otherwise splices out the first occurrence of r in that layer (the last element
        if r is not in it, as `splice(-1, 1)` does), untags r and returns true. */
    method RemoveRenderable(r: Renderable) returns (found: bool)
      requires Valid()
      modifies this`layers, hash.ids, r`hashID
      ensures Valid()
      ensures found <==> old(hash.Get(r)).Some?
      ensures !found ==> layers == old(layers) && unchanged(hash.ids) && unchanged(r)
      ensures found ==> old(hash.Get(r)).value < NumLayers
      ensures found ==> var l := old(hash.Get(r)).value;
        layers == old(layers)[l := JsArray.SpliceOne(old(layers[l]), JsArray.IndexOf(old(layers[l]), r))]
      ensures found ==> r.hashID == None
      ensures found ==> hash.ids.recycled == old(hash.ids.recycled) + [old(r.hashID).value]
      ensures found ==> hash.ids.greatest == old(hash.ids.greatest)
      ensures found ==> hash.ids.active == old(hash.ids.active)[old(r.hashID).value := false]
    {
      var layer := hash.Get(r);
      if layer.None? {
        return false;
      }
      var l := layer.value;
      RecordedLayer(r.hashID.value);
      var index := JsArray.IndexOf(layers[l], r);
      layers := layers[l := JsArray.SpliceOne(layers[l], index)];
      var removed := hash.Remove(r);
      found := true;
    }

    /** The drawing order: layers 0 to 2, each in insertion order. */
    method RenderAll() returns (visited: seq<Renderable>)
      ensures visited == Concat(layers)
      ensures |layers| == NumLayers ==> visited == layers[0] + layers[1] + layers[2]
    {
      visited := [];
      var i := 0;
      while i < |layers|
        invariant 0 <= i <= |layers|
        invariant visited == Concat(layers[..i])
      {
        var j := 0;
        while j < |layers[i]|
          invariant 0 <= j <= |layers[i]|
          invariant visited == Concat(layers[..i]) + layers[i][..j]
        {
          visited := visited + [layers[i][j]];
          j := j + 1;
        }
        assert layers[i][..j] == layers[i];
        assert layers[..i + 1][..i] == layers[..i];
        i := i + 1;
      }
      assert layers[..i] == layers;
      if |layers| == NumLayers {
        assert layers == [layers[0], layers[1], layers[2]];
        ConcatThree(layers[0], layers[1], layers[2]);
      }
    }

    /** Untags every object of layer l and empties that layer; the other layers stay.
        Each object's tag is freed as HashMap.Remove frees it: pushed onto the recycled
        list and marked inactive, in the layer's order. */
    method ClearLayer(l: nat)
      requires Valid() && l < NumLayers
      modifies this`layers, hash.ids, layers[l]
      ensures Valid()
      ensures layers == old(layers)[l := []]
      ensures forall r :: r in old(layers[l]) ==> r.hashID == None
      ensures hash.entries == old(hash.entries)
      ensures hash.ids.greatest == old(hash.ids.greatest)
      ensures hash.ids.recycled == old(hash.ids.recycled) + FreedTags(old(layers[l]), old(Tags(layers[l])))
      ensures hash.ids.active == Deactivate(old(hash.ids.active), FreedTags(old(layers[l]), old(Tags(layers[l]))))
    {
      var layer := layers[l];
      ghost var tags := Tags(layer);
      ghost var entries, greatest, recycled, active := hash.entries, hash.ids.greatest, hash.ids.recycled, hash.ids.active;
      var i := 0;
      while i < |layer|
        invariant 0 <= i <= |layer| && layers == old(layers)
        invariant Cleared(layer, tags, i, entries, greatest, recycled, active)
      {
        ClearNext(layer, tags, i, entries, greatest, recycled, active);
        i := i + 1;
      }
      assert layer[..i] == layer && tags[..i] == tags;
      layers := layers[l := []];
    }

    /** ClearLayer's loop invariant after i objects of the layer, whose tags were
        `tags` and the hash's state `entries`, `greatest`, `recycled` and `active`
        when it started: those objects are untagged, the later ones keep their tags,
        and the generator has freed exactly FreedTags of the first i. */
    ghost predicate Cleared(layer: seq<Renderable>, tags: seq<Option<int>>, i: int, entries: map<int, nat>,
                            greatest: int, recycled: seq<int>, active: map<int, bool>)
      reads this, hash, hash.ids, layer
    {
      |tags| == |layer| && 0 <= i <= |layer| && Valid() && hash.entries == entries &&
      (forall k :: 0 <= k < i ==> layer[k].hashID == None) &&
      (forall k :: i <= k < |layer| && layer[k] !in layer[..i] ==> layer[k].hashID == tags[k]) &&
      hash.ids.greatest == greatest &&
      hash.ids.recycled == recycled + FreedTags(layer[..i], tags[..i]) &&
      hash.ids.active == Deactivate(active, FreedTags(layer[..i], tags[..i]))
    }

    /** One turn of ClearLayer's loop: removes layer[i] from the hash, which frees its
        tag unless an earlier occurrence already did. */
    method ClearNext(layer: seq<Renderable>, ghost tags: seq<Option<int>>, i: nat, ghost entries: map<int, nat>,
                     ghost greatest: int, ghost recycled: seq<int>, ghost active: map<int, bool>)
      requires i < |layer| && Cleared(layer, tags, i, entries, greatest, recycled, active)
      modifies hash.ids, layer[i]
      ensures Cleared(layer, tags, i + 1, entries, greatest, recycled, active)
    {
      ghost var freed := FreedTags(layer[..i], tags[..i]);
      ghost var now := ClearStep(layer, tags, i);
      FreedTagsStep(layer, tags, i);
      if now != [] {
        DeactivateStep(active, freed, now[0]);
      } else {
        assert FreedTags(layer[..i + 1], tags[..i + 1]) == freed;
      }
    }

    /** Removes layer[i] from the hash: its tag, if it still has the one it started
        with, is the one freed; a repeat of an earlier object frees nothing. */
    method ClearStep(layer: seq<Renderable>, ghost tags: seq<Option<int>>, i: nat) returns (ghost now: seq<int>)
      requires Valid() && |tags| == |layer| && i < |layer|
      requires forall k :: 0 <= k < i ==> layer[k].hashID == None
      requires layer[i] !in layer[..i] ==> layer[i].hashID == tags[i]
      modifies hash.ids, layer[i]
      ensures Valid() && hash.entries == old(hash.entries)
      ensures forall k :: 0 <= k <= i ==> layer[k].hashID == None
      ensures now == if layer[i] !in layer[..i] && tags[i].Some? then [tags[i].value] else []
      ensures hash.ids.greatest == old(hash.ids.greatest)
      ensures hash.ids.recycled == old(hash.ids.recycled) + now
      ensures hash.ids.active == if now == [] then old(hash.ids.active) else old(hash.ids.active)[now[0] := false]
    {
      if layer[i] in layer[..i] {
        var j :| 0 <= j < i && layer[..i][j] == layer[i];
        assert layer[i].hashID == layer[j].hashID == None;
      }
      now := if layer[i] !in layer[..i] && tags[i].Some? then [tags[i].value] else [];
      var removed := hash.Remove(layer[i]);
    }

    /** Clears the hash, which resets its ID generator, and empties every layer. */
    method ClearAll()
      requires Valid()
      modifies this`layers, hash, hash.ids
      ensures Valid()
      ensures |layers| == NumLayers && forall k :: 0 <= k < NumLayers ==> layers[k] == []
      ensures hash.entries == map[]
      ensures hash.ids.greatest == -1 && hash.ids.recycled == [] && hash.ids.active == map[]
    {
      hash.Clear();
      var i := 0;
      while i < |layers|
        invariant |layers| == NumLayers && 0 <= i <= NumLayers
        invariant forall k :: 0 <= k < i ==> layers[k] == []
        invariant hash.entries == map[] && hash.ids.Coherent()
        invariant hash.ids.greatest == -1 && hash.ids.recycled == [] && hash.ids.active == map[]
      {
        layers := layers[i := []];
        i := i + 1;
      }
    }
  }
}
