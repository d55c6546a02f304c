/** Rescaling: what a bake computes, as functions of its inputs. The scale
    map built from the entry list, and the blendshapes of the baked mesh as
    a function of the source blendshapes and that map. The imperative bake
    in module Baking is proved to compute exactly these. */
module Rescaling {
  import opened Meshes
  import opened Entries

  /** The scale map built from `es` for a mesh with `count` blendshapes:
      entries are visited in order, an entry whose index is out of range is
      skipped, and a later entry for the same index overwrites an earlier one. */
  function ScaleMapOf(es: seq<Entry>, count: int): map<int, real>
    decreases |es|
  {
    if es == [] then map[]
    else
      var m := ScaleMapOf(es[..|es| - 1], count);
      var e := es[|es| - 1];
      if InRange(e.blendshapeIndex, count) then m[e.blendshapeIndex := Factor(e)] else m
  }

  /** A key of the scale map is exactly an in-range index some entry names. */
  lemma {:induction false} ScaleMapKeys(es: seq<Entry>, count: int, k: int)
    ensures k in ScaleMapOf(es, count) <==>
              InRange(k, count) && exists j :: 0 <= j < |es| && es[j].blendshapeIndex == k
    decreases |es|
  {
    if es != [] {
      var init := es[..|es| - 1];
      ScaleMapKeys(init, count, k);
      if exists j :: 0 <= j < |init| && init[j].blendshapeIndex == k {
        var j :| 0 <= j < |init| && init[j].blendshapeIndex == k;
        assert es[j] == init[j];
      }
      if exists j :: 0 <= j < |es| && es[j].blendshapeIndex == k {
        var j :| 0 <= j < |es| && es[j].blendshapeIndex == k;
        if j < |init| { assert init[j] == es[j]; }
      }
    }
  }

  /** The value for an index is the factor of the last entry naming it
      ("last one wins"). */
  lemma {:induction false} ScaleMapLastWins(es: seq<Entry>, count: int, j: nat)
    requires j < |es| && InRange(es[j].blendshapeIndex, count)
    requires forall j' :: j < j' < |es| ==> es[j'].blendshapeIndex != es[j].blendshapeIndex
    ensures es[j].blendshapeIndex in ScaleMapOf(es, count)
    ensures ScaleMapOf(es, count)[es[j].blendshapeIndex] == Factor(es[j])
    decreases |es|
  {
    if j < |es| - 1 {
      var init := es[..|es| - 1];
      assert init[j] == es[j];
      ScaleMapLastWins(init, count, j);
    }
  }

  /** Every factor in the scale map lies in [0, 1]. */
  lemma {:induction false} ScaleMapInUnit(es: seq<Entry>, count: int)
    ensures forall k :: k in ScaleMapOf(es, count) ==> 0.0 <= ScaleMapOf(es, count)[k] <= 1.0
    decreases |es|
  {
    if es != [] {
      ScaleMapInUnit(es[..|es| - 1], count);
    }
  }

  /** After the batch setting gave every entry the same percentage, every
      factor of the scale map is that percentage, clamped. */
  lemma {:induction false} ScaleMapUniform(es: seq<Entry>, count: int, percent: real)
    requires forall j :: 0 <= j < |es| ==> es[j].newMaxPercent == percent
    ensures forall k :: k in ScaleMapOf(es, count) ==> ScaleMapOf(es, count)[k] == Clamp01(percent / 100.0)
    decreases |es|
  {
    if es != [] {
      ScaleMapUniform(es[..|es| - 1], count, percent);
    }
  }

  /** The scale map is empty exactly when no entry names a blendshape of the mesh. */
  lemma ScaleMapEmpty(es: seq<Entry>, count: int)
    ensures ScaleMapOf(es, count) == map[] <==> forall j :: 0 <= j < |es| ==> !InRange(es[j].blendshapeIndex, count)
  {
    if ScaleMapOf(es, count) == map[] {
      forall j | 0 <= j < |es| ensures !InRange(es[j].blendshapeIndex, count) {
        ScaleMapKeys(es, count, es[j].blendshapeIndex);
      }
    }
    if forall j :: 0 <= j < |es| ==> !InRange(es[j].blendshapeIndex, count) {
      forall k | true ensures k !in ScaleMapOf(es, count) {
        ScaleMapKeys(es, count, k);
      }
      assert ScaleMapOf(es, count).Keys == {};
    }
  }

  /** A frame with its three delta arrays multiplied by `s`. */
  function ScaleFrame(fr: Frame, s: real): Frame {
    Frame(fr.weight, ScaleAll(fr.deltaVertices, s), ScaleAll(fr.deltaNormals, s), ScaleAll(fr.deltaTangents, s))
  }

  /** Blendshape number `i` after the bake: scaled in every frame when the
      scale map has a factor for `i`, and as it was otherwise. */
  function RescaleTarget(t: Target, i: int, scaleMap: map<int, real>): Target {
    if i in scaleMap then
      Target(t.name, seq(|t.frames|, f requires 0 <= f < |t.frames| => ScaleFrame(t.frames[f], scaleMap[i])))
    else
      t
  }

  /** The blendshapes of the baked mesh: the same shapes with the same names
      and frame weights in the same order, every delta of a selected shape
      multiplied by its factor, and every other shape exactly as it was. */
  function Rescale(ts: seq<Target>, scaleMap: map<int, real>): (r: seq<Target>)
    ensures |r| == |ts|
    ensures forall i :: 0 <= i < |ts| ==> r[i].name == ts[i].name && |r[i].frames| == |ts[i].frames|
    ensures forall i, f :: 0 <= i < |ts| && 0 <= f < |ts[i].frames| ==>
              r[i].frames[f].weight == ts[i].frames[f].weight
              && |r[i].frames[f].deltaVertices| == |ts[i].frames[f].deltaVertices|
              && |r[i].frames[f].deltaNormals| == |ts[i].frames[f].deltaNormals|
              && |r[i].frames[f].deltaTangents| == |ts[i].frames[f].deltaTangents|
    ensures forall i :: 0 <= i < |ts| && i !in scaleMap ==> r[i] == ts[i]
    ensures forall i, f, k ::
              0 <= i < |ts| && i in scaleMap && 0 <= f < |ts[i].frames| && 0 <= k < |ts[i].frames[f].deltaVertices| ==>
              r[i].frames[f].deltaVertices[k] == Scale(ts[i].frames[f].deltaVertices[k], scaleMap[i])
    ensures forall i, f, k ::
              0 <= i < |ts| && i in scaleMap && 0 <= f < |ts[i].frames| && 0 <= k < |ts[i].frames[f].deltaNormals| ==>
              r[i].frames[f].deltaNormals[k] == Scale(ts[i].frames[f].deltaNormals[k], scaleMap[i])
    ensures forall i, f, k ::
              0 <= i < |ts| && i in scaleMap && 0 <= f < |ts[i].frames| && 0 <= k < |ts[i].frames[f].deltaTangents| ==>
              r[i].frames[f].deltaTangents[k] == Scale(ts[i].frames[f].deltaTangents[k], scaleMap[i])
  {
    seq(|ts|, i requires 0 <= i < |ts| => RescaleTarget(ts[i], i, scaleMap))
  }

  /** The baked blendshapes are well formed whenever the source ones are. */
  lemma RescaleKeepsWellFormed(ts: seq<Target>, vertexCount: nat, scaleMap: map<int, real>)
    requires WellFormed(ts, vertexCount)
    ensures WellFormed(Rescale(ts, scaleMap), vertexCount)
  {
    var r := Rescale(ts, scaleMap);
    forall i | 0 <= i < |r| ensures |r[i].frames| > 0 && WeightsIncrease(r[i].frames) {
      assert WeightsIncrease(ts[i].frames);
    }
  }

  /** An empty scale map leaves every blendshape exactly as it was. */
  lemma RescaleEmptyIsIdentity(ts: seq<Target>)
    ensures Rescale(ts, map[]) == ts
  {
  }

  lemma ScaleAllByOne(vs: seq<Vec3>)
    ensures ScaleAll(vs, 1.0) == vs
  {
    forall k | 0 <= k < |vs| ensures ScaleAll(vs, 1.0)[k] == vs[k] {
      var v := vs[k];
      assert Scale(v, 1.0) == Vec3(v.x, v.y, v.z);
    }
  }

  /** A factor of 1.0 has the same effect as no factor at all. */
  lemma RescaleByOne(ts: seq<Target>, scaleMap: map<int, real>, i: int)
    ensures Rescale(ts, scaleMap[i := 1.0]) == Rescale(ts, scaleMap - {i})
  {
    var a, b := Rescale(ts, scaleMap[i := 1.0]), Rescale(ts, scaleMap - {i});
    forall j | 0 <= j < |ts| ensures a[j] == b[j] {
      if j == i {
        var t := ts[j];
        forall f | 0 <= f < |t.frames| ensures a[j].frames[f] == t.frames[f] {
          var fr := t.frames[f];
          ScaleAllByOne(fr.deltaVertices);
          ScaleAllByOne(fr.deltaNormals);
          ScaleAllByOne(fr.deltaTangents);
          assert a[j].frames[f] == ScaleFrame(fr, 1.0);
        }
        assert a[j].frames == t.frames;
      }
    }
  }

  /** A factor of 0.0 zeroes every position, normal and tangent delta of that shape. */
  lemma RescaleByZero(ts: seq<Target>, scaleMap: map<int, real>, i: nat, f: nat, k: nat)
    requires i < |ts| && i in scaleMap && scaleMap[i] == 0.0
    requires f < |ts[i].frames|
    requires k < |ts[i].frames[f].deltaVertices| && k < |ts[i].frames[f].deltaNormals| && k < |ts[i].frames[f].deltaTangents|
    ensures Rescale(ts, scaleMap)[i].frames[f].deltaVertices[k] == Zero
    ensures Rescale(ts, scaleMap)[i].frames[f].deltaNormals[k] == Zero
    ensures Rescale(ts, scaleMap)[i].frames[f].deltaTangents[k] == Zero
  {
  }

  /** The product map: a factor for every index either map scales, the two
      factors multiplied where both do (a missing factor counting as 1). */
  function Compose(m1: map<int, real>, m2: map<int, real>): map<int, real> {
    map i | i in m1.Keys + m2.Keys ::
      (if i in m1 then m1[i] else 1.0) * (if i in m2 then m2[i] else 1.0)
  }

  lemma ScaleTwice(v: Vec3, a: real, b: real)
    ensures Scale(Scale(v, a), b) == Scale(v, a * b)
  {
    assert v.x * a * b == v.x * (a * b);
    assert v.y * a * b == v.y * (a * b);
    assert v.z * a * b == v.z * (a * b);
  }

  lemma ScaleAllTwice(vs: seq<Vec3>, a: real, b: real)
    ensures ScaleAll(ScaleAll(vs, a), b) == ScaleAll(vs, a * b)
  {
    forall k | 0 <= k < |vs| ensures ScaleAll(ScaleAll(vs, a), b)[k] == ScaleAll(vs, a * b)[k] {
      ScaleTwice(vs[k], a, b);
    }
  }

  /** Baking an already baked mesh again multiplies the factors. */
  lemma RescaleTwice(ts: seq<Target>, m1: map<int, real>, m2: map<int, real>)
    ensures Rescale(Rescale(ts, m1), m2) == Rescale(ts, Compose(m1, m2))
  {
    var once, twice, both := Rescale(ts, m1), Rescale(Rescale(ts, m1), m2), Rescale(ts, Compose(m1, m2));
    var c := Compose(m1, m2);
    forall i | 0 <= i < |ts| ensures twice[i] == both[i] {
      if i in m1 || i in m2 {
        var a, b := if i in m1 then m1[i] else 1.0, if i in m2 then m2[i] else 1.0;
        assert c[i] == a * b;
        forall f | 0 <= f < |ts[i].frames| ensures twice[i].frames[f] == both[i].frames[f] {
          var fr := ts[i].frames[f];
          ScaleAllTwice(fr.deltaVertices, a, b);
          ScaleAllTwice(fr.deltaNormals, a, b);
          ScaleAllTwice(fr.deltaTangents, a, b);
          if i !in m1 {
            ScaleAllByOne(fr.deltaVertices);
            ScaleAllByOne(fr.deltaNormals);
            ScaleAllByOne(fr.deltaTangents);
            assert once[i].frames[f] == fr;
            assert both[i].frames[f] == ScaleFrame(fr, 1.0 * b);
          } else if i !in m2 {
            ScaleAllByOne(once[i].frames[f].deltaVertices);
            ScaleAllByOne(once[i].frames[f].deltaNormals);
            ScaleAllByOne(once[i].frames[f].deltaTangents);
            assert once[i].frames[f] == ScaleFrame(fr, a);
            assert both[i].frames[f] == ScaleFrame(fr, a * 1.0);
          } else {
            assert once[i].frames[f] == ScaleFrame(fr, a);
          }
        }
        assert twice[i].frames == both[i].frames;
      }
    }
  }

  /** Two shapes over one vertex, "Smile" and "Blink", with the first at
      factor 0.5: Smile's delta halves, Blink's stays, weights stay 100. */
  lemma SmileBlinkExample()
    ensures var smile := Target("Smile", [Frame(100.0, [Vec3(1.0, 0.0, 0.0)], [Zero], [Zero])]);
            var blink := Target("Blink", [Frame(100.0, [Vec3(0.0, 1.0, 0.0)], [Zero], [Zero])]);
            var r := Rescale([smile, blink], map[0 := 0.5]);
            && r[0].frames[0].deltaVertices == [Vec3(0.5, 0.0, 0.0)]
            && r[1] == blink
            && r[0].frames[0].weight == 100.0 && r[1].frames[0].weight == 100.0
  {
    var smile := Target("Smile", [Frame(100.0, [Vec3(1.0, 0.0, 0.0)], [Zero], [Zero])]);
    var r := Rescale([smile, Target("Blink", [Frame(100.0, [Vec3(0.0, 1.0, 0.0)], [Zero], [Zero])])], map[0 := 0.5]);
    assert r[0].frames[0].deltaVertices[0] == Scale(Vec3(1.0, 0.0, 0.0), 0.5);
  }
}
