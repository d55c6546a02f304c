/** Entries: the list of blendshapes the user chose to rescale, each with
    the percentage of its old full displacement that becomes the new 100%. */
module Entries {

  /** One row of the list. `newMaxPercent` is "new 100% = old x%". */
  datatype Entry = Entry(blendshapeIndex: int, displayName: string, newMaxPercent: real)

  /** The percentage a freshly added entry starts with. */
  const DefaultPercent: real := 65.0

  /** `Mathf.Clamp01`. */
  function Clamp01(x: real): (r: real)
    ensures 0.0 <= r <= 1.0
    ensures 0.0 <= x <= 1.0 ==> r == x
    ensures x < 0.0 ==> r == 0.0
    ensures x > 1.0 ==> r == 1.0
  {
    if x < 0.0 then 0.0 else if x > 1.0 then 1.0 else x
  }

  /** The scale factor of an entry: its percentage as a fraction, clamped to [0, 1]. */
  function Factor(e: Entry): (r: real)
    ensures 0.0 <= r <= 1.0
    ensures 0.0 <= e.newMaxPercent <= 100.0 ==> r == e.newMaxPercent / 100.0
  {
    Clamp01(e.newMaxPercent / 100.0)
  }

  predicate InRange(index: int, count: int) {
    0 <= index < count
  }

  /** Some entry already refers to blendshape `index`. */
  predicate HasIndex(es: seq<Entry>, index: int) {
    exists j :: 0 <= j < |es| && es[j].blendshapeIndex == index
  }

  function IndexSet(es: seq<Entry>): set<int> {
    set j | 0 <= j < |es| :: es[j].blendshapeIndex
  }

  predicate UniqueIndices(es: seq<Entry>) {
    forall a, b :: 0 <= a < b < |es| ==> es[a].blendshapeIndex != es[b].blendshapeIndex
  }

  /** The invariant the entry list keeps: indices are unique and name a
      blendshape of the current mesh, and every display name is that
      blendshape's name. */
  predicate EntriesWellFormed(es: seq<Entry>, names: seq<string>) {
    && UniqueIndices(es)
    && forall j :: 0 <= j < |es| ==>
         InRange(es[j].blendshapeIndex, |names|) && es[j].displayName == names[es[j].blendshapeIndex]
  }

  lemma IndexSetAppend(es: seq<Entry>, e: Entry)
    ensures IndexSet(es + [e]) == IndexSet(es) + {e.blendshapeIndex}
  {
    var r := es + [e];
    forall x | x in IndexSet(r) ensures x in IndexSet(es) + {e.blendshapeIndex} {
      var j :| 0 <= j < |r| && r[j].blendshapeIndex == x;
      if j < |es| { assert es[j] == r[j]; }
    }
    forall x | x in IndexSet(es) ensures x in IndexSet(r) {
      var j :| 0 <= j < |es| && es[j].blendshapeIndex == x;
      assert r[j] == es[j];
    }
    assert r[|es|] == e;
  }

  lemma HasIndexIsIndexSet(es: seq<Entry>, index: int)
    ensures HasIndex(es, index) <==> index in IndexSet(es)
  {
    if index in IndexSet(es) {
      var j :| 0 <= j < |es| && es[j].blendshapeIndex == index;
    }
  }

  /** The entry list after adding blendshape `index` of a mesh whose
      blendshape names are `names`. */
  function WithEntry(es: seq<Entry>, names: seq<string>, index: int): seq<Entry> {
    if InRange(index, |names|) && !HasIndex(es, index) then
      es + [Entry(index, names[index], DefaultPercent)]
    else
      es
  }

  /** Adding keeps the list well formed, and adds `index` to the indices
      exactly when it names a blendshape. */
  lemma WithEntryKeepsWellFormed(es: seq<Entry>, names: seq<string>, index: int)
    requires EntriesWellFormed(es, names)
    ensures EntriesWellFormed(WithEntry(es, names, index), names)
    ensures IndexSet(WithEntry(es, names, index)) == IndexSet(es) + (if InRange(index, |names|) then {index} else {})
  {
    var r := WithEntry(es, names, index);
    if InRange(index, |names|) && !HasIndex(es, index) {
      IndexSetAppend(es, Entry(index, names[index], DefaultPercent));
      assert forall j :: 0 <= j < |es| ==> r[j] == es[j];
    } else if InRange(index, |names|) {
      HasIndexIsIndexSet(es, index);
    }
  }

  /** Adding the same blendshape twice adds it once. */
  lemma WithEntryIdempotent(es: seq<Entry>, names: seq<string>, index: int)
    ensures WithEntry(WithEntry(es, names, index), names, index) == WithEntry(es, names, index)
  {
    var r := WithEntry(es, names, index);
    if InRange(index, |names|) && !HasIndex(es, index) {
      assert r[|es|].blendshapeIndex == index;
    }
  }

  /** `es` is `es0` followed by entries at the default percentage only:
      what every add operation leaves behind. */
  predicate AppendsDefaults(es0: seq<Entry>, es: seq<Entry>) {
    && |es0| <= |es| && es[..|es0|] == es0
    && forall j :: |es0| <= j < |es| ==> es[j].newMaxPercent == DefaultPercent
  }

  lemma WithEntryAppendsDefaults(es: seq<Entry>, names: seq<string>, index: int)
    ensures AppendsDefaults(es, WithEntry(es, names, index))
  {
  }

  lemma AppendsDefaultsTrans(a: seq<Entry>, b: seq<Entry>, c: seq<Entry>)
    requires AppendsDefaults(a, b) && AppendsDefaults(b, c)
    ensures AppendsDefaults(a, c)
  {
    assert c[..|a|] == c[..|b|][..|a|];
  }

  /** An entry that survives a reload of a mesh with blendshape names `names`. */
  predicate Keeps(e: Entry, names: seq<string>) {
    InRange(e.blendshapeIndex, |names|)
  }

  function Relabel(e: Entry, names: seq<string>): Entry
    requires Keeps(e, names)
  {
    e.(displayName := names[e.blendshapeIndex])
  }

  /** The entry list after a reload: entries whose index is out of range are
      dropped and the rest take the blendshape's current name. */
  function Pruned(es: seq<Entry>, names: seq<string>): seq<Entry>
    decreases |es|
  {
    if es == [] then []
    else (if Keeps(es[0], names) then [Relabel(es[0], names)] else []) + Pruned(es[1..], names)
  }

  /** `ps` with every position moved one further along. */
  function Shift(ps: seq<nat>): (r: seq<nat>)
    ensures |r| == |ps| && forall j :: 0 <= j < |ps| ==> r[j] == ps[j] + 1
  {
    seq(|ps|, j requires 0 <= j < |ps| => ps[j] + 1)
  }

  /** The positions of `es` that survive a reload, in increasing order. */
  function KeptPositions(es: seq<Entry>, names: seq<string>): seq<nat>
    decreases |es|
  {
    if es == [] then []
    else (if Keeps(es[0], names) then [0] else []) + Shift(KeptPositions(es[1..], names))
  }

  /** Every kept position holds an entry that is in range. */
  lemma {:induction false} KeptPositionsSound(es: seq<Entry>, names: seq<string>)
    ensures forall j :: 0 <= j < |KeptPositions(es, names)| ==>
      KeptPositions(es, names)[j] < |es| && Keeps(es[KeptPositions(es, names)[j]], names)
    decreases |es|
  {
    if es != [] {
      var tail := es[1..];
      KeptPositionsSound(tail, names);
      var pt, pos := KeptPositions(tail, names), KeptPositions(es, names);
      var h := if Keeps(es[0], names) then 1 else 0;
      assert pos == (if Keeps(es[0], names) then [0] else []) + Shift(pt);
      forall j | h <= j < |pos| ensures pos[j] < |es| && Keeps(es[pos[j]], names) {
        var k := j - h;
        assert pt[k] < |tail| && Keeps(tail[pt[k]], names);
        assert pos[j] == pt[k] + 1;
        assert es[pos[j]] == tail[pt[k]];
      }
    }
  }

  /** The kept positions are strictly increasing. */
  lemma {:induction false} KeptPositionsIncreasing(es: seq<Entry>, names: seq<string>)
    ensures forall a, b :: 0 <= a < b < |KeptPositions(es, names)| ==> KeptPositions(es, names)[a] < KeptPositions(es, names)[b]
    decreases |es|
  {
    if es != [] {
      var tail := es[1..];
      KeptPositionsIncreasing(tail, names);
      var pt, pos := KeptPositions(tail, names), KeptPositions(es, names);
      var h := if Keeps(es[0], names) then 1 else 0;
      assert pos == (if Keeps(es[0], names) then [0] else []) + Shift(pt);
      forall a, b | 0 <= a < b < |pos| ensures pos[a] < pos[b] {
        assert pos[b] == pt[b - h] + 1;
        if a >= h {
          assert pos[a] == pt[a - h] + 1;
        }
      }
    }
  }

  /** Every position whose entry is in range is kept. */
  lemma {:induction false} KeptPositionsComplete(es: seq<Entry>, names: seq<string>)
    ensures forall p :: 0 <= p < |es| && Keeps(es[p], names) ==> p in KeptPositions(es, names)
    decreases |es|
  {
    if es != [] {
      var tail := es[1..];
      KeptPositionsComplete(tail, names);
      var pt, pos := KeptPositions(tail, names), KeptPositions(es, names);
      var h := if Keeps(es[0], names) then 1 else 0;
      assert pos == (if Keeps(es[0], names) then [0] else []) + Shift(pt);
      forall p | 0 < p < |es| && Keeps(es[p], names) ensures p in pos {
        assert tail[p - 1] == es[p];
        var j :| 0 <= j < |pt| && pt[j] == p - 1;
        assert pos[j + h] == p;
      }
    }
  }

  /** There are as many survivors as kept positions. */
  lemma {:induction false} PrunedLength(es: seq<Entry>, names: seq<string>)
    ensures |Pruned(es, names)| == |KeptPositions(es, names)|
    decreases |es|
  {
    if es != [] {
      PrunedLength(es[1..], names);
    }
  }

  /** The `j`-th survivor is the entry at the `j`-th kept position, relabelled. */
  lemma {:induction false} PrunedAtKept(es: seq<Entry>, names: seq<string>)
    ensures |Pruned(es, names)| == |KeptPositions(es, names)|
    ensures forall j :: 0 <= j < |KeptPositions(es, names)| ==>
      && KeptPositions(es, names)[j] < |es| && Keeps(es[KeptPositions(es, names)[j]], names)
      && Pruned(es, names)[j] == Relabel(es[KeptPositions(es, names)[j]], names)
    decreases |es|
  {
    KeptPositionsSound(es, names);
    PrunedLength(es, names);
    if es != [] {
      var tail := es[1..];
      PrunedAtKept(tail, names);
      var rt, pt := Pruned(tail, names), KeptPositions(tail, names);
      var r, pos := Pruned(es, names), KeptPositions(es, names);
      var h := if Keeps(es[0], names) then 1 else 0;
      assert r == (if Keeps(es[0], names) then [Relabel(es[0], names)] else []) + rt;
      assert pos == (if Keeps(es[0], names) then [0] else []) + Shift(pt);
      forall j | 0 <= j < |pos| ensures r[j] == Relabel(es[pos[j]], names) {
        if j < h {
          assert r[j] == Relabel(es[0], names) && pos[j] == 0;
        } else {
          var k := j - h;
          assert pos[j] == pt[k] + 1 && r[j] == rt[k];
          assert pt[k] < |tail| && rt[k] == Relabel(tail[pt[k]], names);
          assert es[pos[j]] == tail[pt[k]];
        }
      }
    }
  }

  /** Pruning is a filter: the survivors are exactly the entries in range,
      taken in their original relative order, each relabelled. */
  lemma PrunedIsFilter(es: seq<Entry>, names: seq<string>)
    ensures var r, pos := Pruned(es, names), KeptPositions(es, names);
      && |r| == |pos|
      && (forall j :: 0 <= j < |pos| ==> pos[j] < |es| && Keeps(es[pos[j]], names) && r[j] == Relabel(es[pos[j]], names))
      && (forall a, b :: 0 <= a < b < |pos| ==> pos[a] < pos[b])
      && (forall p :: 0 <= p < |es| && Keeps(es[p], names) ==> p in pos)
  {
    KeptPositionsIncreasing(es, names);
    KeptPositionsComplete(es, names);
    PrunedAtKept(es, names);
  }

  /** The indices of the entries that survive a reload. */
  function KeptIndices(es: seq<Entry>, names: seq<string>): set<int> {
    set j | 0 <= j < |es| && Keeps(es[j], names) :: es[j].blendshapeIndex
  }

  lemma KeptIndicesCons(es: seq<Entry>, names: seq<string>)
    requires es != []
    ensures KeptIndices(es, names) == KeptIndices(es[1..], names) + if Keeps(es[0], names) then {es[0].blendshapeIndex} else {}
  {
    var tail := es[1..];
    var S, St := KeptIndices(es, names), KeptIndices(tail, names);
    forall x | x in S ensures x in St + if Keeps(es[0], names) then {es[0].blendshapeIndex} else {} {
      var j :| 0 <= j < |es| && Keeps(es[j], names) && es[j].blendshapeIndex == x;
      if j > 0 { assert tail[j - 1] == es[j]; }
    }
    forall x | x in St ensures x in S {
      var j :| 0 <= j < |tail| && Keeps(tail[j], names) && tail[j].blendshapeIndex == x;
      assert es[j + 1] == tail[j];
    }
  }

  /** Pruning keeps exactly the indices of the entries in range. */
  lemma {:induction false} PrunedIndexSet(es: seq<Entry>, names: seq<string>)
    ensures IndexSet(Pruned(es, names)) == KeptIndices(es, names)
    decreases |es|
  {
    if es != [] {
      var rt := Pruned(es[1..], names);
      PrunedIndexSet(es[1..], names);
      KeptIndicesCons(es, names);
      if Keeps(es[0], names) {
        assert Pruned(es, names) == [Relabel(es[0], names)] + rt;
        IndexSetAppendFront(Relabel(es[0], names), rt);
      } else {
        assert Pruned(es, names) == rt;
      }
    }
  }

  /** Pruning a list with unique indices yields a well-formed list holding
      exactly the indices of the entries in range. */
  lemma {:induction false} PrunedKeepsWellFormed(es: seq<Entry>, names: seq<string>)
    requires UniqueIndices(es)
    ensures EntriesWellFormed(Pruned(es, names), names)
    ensures IndexSet(Pruned(es, names)) == KeptIndices(es, names)
    decreases |es|
  {
    PrunedIndexSet(es, names);
    if es != [] {
      var tail := es[1..];
      PrunedKeepsWellFormed(tail, names);
      var rt, r := Pruned(tail, names), Pruned(es, names);
      if Keeps(es[0], names) {
        assert r == [Relabel(es[0], names)] + rt;
        assert es[0].blendshapeIndex !in IndexSet(rt) by {
          forall j | 0 <= j < |tail| ensures tail[j].blendshapeIndex != es[0].blendshapeIndex {
            assert es[j + 1] == tail[j];
          }
        }
        forall a, b | 0 <= a < b < |r| ensures r[a].blendshapeIndex != r[b].blendshapeIndex {
          if a == 0 {
            assert r[b] == rt[b - 1];
            assert rt[b - 1].blendshapeIndex in IndexSet(rt);
          } else {
            assert r[a] == rt[a - 1] && r[b] == rt[b - 1];
          }
        }
        forall j | 0 <= j < |r|
          ensures InRange(r[j].blendshapeIndex, |names|) && r[j].displayName == names[r[j].blendshapeIndex]
        {
          if j > 0 { assert r[j] == rt[j - 1]; }
        }
      } else {
        assert r == rt;
      }
    }
  }

  lemma IndexSetAppendFront(e: Entry, es: seq<Entry>)
    ensures IndexSet([e] + es) == {e.blendshapeIndex} + IndexSet(es)
  {
    var r := [e] + es;
    forall x | x in IndexSet(r) ensures x in {e.blendshapeIndex} + IndexSet(es) {
      var j :| 0 <= j < |r| && r[j].blendshapeIndex == x;
      if j > 0 { assert r[j] == es[j - 1]; }
    }
    forall x | x in IndexSet(es) ensures x in IndexSet(r) {
      var j :| 0 <= j < |es| && es[j].blendshapeIndex == x;
      assert r[j + 1] == es[j];
    }
    assert r[0] == e;
  }

  /** Reloading twice with the same names is reloading once. */
  lemma {:induction false} PrunedIdempotent(es: seq<Entry>, names: seq<string>)
    ensures Pruned(Pruned(es, names), names) == Pruned(es, names)
    decreases |es|
  {
    if es != [] {
      PrunedIdempotent(es[1..], names);
      var rt := Pruned(es[1..], names);
      if Keeps(es[0], names) {
        var h := Relabel(es[0], names);
        var r := [h] + rt;
        assert Pruned(es, names) == r;
        assert r[0] == h && r[1..] == rt;
        assert Keeps(h, names) && Relabel(h, names) == h;
        assert Pruned(r, names) == [h] + Pruned(rt, names);
      } else {
        assert Pruned(es, names) == rt;
      }
    }
  }

  /** Reloading the mesh the list was built against changes nothing. */
  lemma {:induction false} PrunedWellFormedIsIdentity(es: seq<Entry>, names: seq<string>)
    requires EntriesWellFormed(es, names)
    ensures Pruned(es, names) == es
    decreases |es|
  {
    if es != [] {
      var tail := es[1..];
      assert EntriesWellFormed(tail, names) by {
        forall j | 0 <= j < |tail| ensures tail[j] == es[j + 1] { }
      }
      PrunedWellFormedIsIdentity(tail, names);
      assert Relabel(es[0], names) == es[0];
      assert es == [es[0]] + tail;
    }
  }

  /** A mesh without blendshapes (or no mesh at all) empties the list. */
  lemma {:induction false} PrunedByNoNames(es: seq<Entry>)
    ensures Pruned(es, []) == []
    decreases |es|
  {
    if es != [] {
      PrunedByNoNames(es[1..]);
    }
  }
}
