/** Baking: the imperative steps of a bake, each proved to compute the
    corresponding function of module Rescaling. */
module Baking {
  import opened Meshes
  import opened Entries
  import opened Rescaling

  /** Aggregates the entries into index -> factor, skipping indices outside
      the mesh's blendshapes and letting a later entry overwrite an earlier one. */
  method BuildScaleMap(entries: seq<Entry>, blendShapeCount: nat) returns (scaleMap: map<int, real>)
    ensures scaleMap == ScaleMapOf(entries, blendShapeCount)
  {
    scaleMap := map[];
    var j := 0;
    while j < |entries|
      invariant j <= |entries|
      invariant scaleMap == ScaleMapOf(entries[..j], blendShapeCount)
    {
      var e := entries[j];
      assert entries[..j + 1][..j] == entries[..j];
      if InRange(e.blendshapeIndex, blendShapeCount) {
        scaleMap := scaleMap[e.blendshapeIndex := Factor(e)];
      }
      j := j + 1;
    }
    assert entries[..j] == entries;
  }

  /** Multiplies every position, normal and tangent delta by `s`, in place. */
  method ScaleDeltas(dv: array<Vec3>, dn: array<Vec3>, dt: array<Vec3>, s: real)
    requires dv.Length == dn.Length == dt.Length
    requires dv != dn && dn != dt && dv != dt
    modifies dv, dn, dt
    ensures dv[..] == ScaleAll(old(dv[..]), s)
    ensures dn[..] == ScaleAll(old(dn[..]), s)
    ensures dt[..] == ScaleAll(old(dt[..]), s)
  {
    var k := 0;
    while k < dv.Length
      invariant k <= dv.Length
      invariant forall m :: 0 <= m < k ==> dv[m] == Scale(old(dv[m]), s) && dn[m] == Scale(old(dn[m]), s) && dt[m] == Scale(old(dt[m]), s)
      invariant forall m :: k <= m < dv.Length ==> dv[m] == old(dv[m]) && dn[m] == old(dn[m]) && dt[m] == old(dt[m])
    {
      dv[k] := Scale(dv[k], s);
      dn[k] := Scale(dn[k], s);
      dt[k] := Scale(dt[k], s);
      k := k + 1;
    }
  }

  /** Reads frame `f` of shape `i` into fresh vertex-count-sized arrays,
      scales them in place when `doScale` holds, and returns the snapshot. */
  method ReadFrame(mesh: Mesh, i: nat, f: nat, doScale: bool, scale: real) returns (fr: Frame)
    requires mesh.Valid() && i < |mesh.targets| && f < |mesh.targets[i].frames|
    ensures fr == if doScale then ScaleFrame(mesh.targets[i].frames[f], scale) else mesh.targets[i].frames[f]
    ensures FrameFits(fr, mesh.VertexCount())
  {
    var vertexCount := mesh.VertexCount();
    var w := mesh.GetBlendShapeFrameWeight(i, f);
    var dv := new Vec3[vertexCount];
    var dn := new Vec3[vertexCount];
    var dt := new Vec3[vertexCount];
    mesh.GetBlendShapeFrameVertices(i, f, dv, dn, dt);
    if doScale {
      ScaleDeltas(dv, dn, dt, scale);
    }
    fr := Frame(w, dv[..], dn[..], dt[..]);
  }

  /** Snapshots every frame of every blendshape of `mesh`, in order, scaling
      the frames of the shapes the scale map selects. */
  method CacheScaledFrames(mesh: Mesh, scaleMap: map<int, real>) returns (cached: seq<Target>)
    requires mesh.Valid()
    ensures cached == Rescale(mesh.targets, scaleMap)
  {
    var bsCount := mesh.BlendShapeCount();
    cached := [];
    var i := 0;
    while i < bsCount
      invariant i <= bsCount == |mesh.targets|
      invariant cached == Rescale(mesh.targets, scaleMap)[..i]
    {
      var name := mesh.GetBlendShapeName(i);
      var frameCount := mesh.GetBlendShapeFrameCount(i);
      var frames: seq<Frame> := [];
      var doScale := i in scaleMap;
      var scale := if doScale then scaleMap[i] else 0.0;
      ghost var want := RescaleTarget(mesh.targets[i], i, scaleMap);
      var f := 0;
      while f < frameCount
        invariant f <= frameCount == |want.frames|
        invariant frames == want.frames[..f]
      {
        var fr := ReadFrame(mesh, i, f, doScale, scale);
        frames := frames + [fr];
        f := f + 1;
      }
      assert Target(name, frames) == want;
      cached := cached + [Target(name, frames)];
      i := i + 1;
    }
  }

  /** Clears the blendshapes of `dst` and re-adds every frame of `cached`, in
      order; every frame is accepted, so `dst` ends up with exactly `cached`. */
  method RebuildBlendShapes(dst: Mesh, cached: seq<Target>)
    requires WellFormed(cached, dst.VertexCount())
    modifies dst`targets
    ensures dst.targets == cached
    ensures dst.Valid()
  {
    dst.ClearBlendShapes();
    var t := 0;
    while t < |cached|
      invariant t <= |cached|
      invariant dst.targets == cached[..t]
    {
      AddShapeFrames(dst, cached[t].name, cached[t].frames);
      assert cached[..t + 1] == cached[..t] + [cached[t]];
      t := t + 1;
    }
    assert cached[..t] == cached;
  }

  /** Adds the frames of one blendshape, in order, under a name the mesh does
      not hold yet; every frame is accepted, so the shape is appended whole. */
  method AddShapeFrames(dst: Mesh, name: string, frames: seq<Frame>)
    requires |frames| > 0 && WeightsIncrease(frames)
    requires forall f :: 0 <= f < |frames| ==> FrameFits(frames[f], dst.VertexCount())
    requires forall i :: 0 <= i < |dst.targets| ==> dst.targets[i].name != name
    modifies dst`targets
    ensures dst.targets == old(dst.targets) + [Target(name, frames)]
  {
    var f := 0;
    while f < |frames|
      invariant f <= |frames|
      invariant dst.targets == old(dst.targets) + if f == 0 then [] else [Target(name, frames[..f])]
    {
      var fr := frames[f];
      ghost var before := dst.targets;
      assert AcceptsFrame(before, dst.VertexCount(), name, fr) by {
        if f > 0 {
          assert before[|before| - 1] == Target(name, frames[..f]);
        }
      }
      var ok := dst.AddBlendShapeFrame(name, fr.weight, fr.deltaVertices, fr.deltaNormals, fr.deltaTangents);
      if f == 0 {
        assert frames[..1] == [fr];
      } else {
        assert frames[..f + 1] == frames[..f] + [fr];
        assert before[..|before| - 1] == old(dst.targets);
      }
      f := f + 1;
    }
    assert frames[..f] == frames;
  }

  /** The body of a bake: a copy of `src` named with the `_Edited` suffix,
      whose blendshapes are snapshotted with the selected ones scaled, then
      cleared and rebuilt from the snapshot. */
  method BakeMesh(src: Mesh, scaleMap: map<int, real>) returns (dst: Mesh)
    requires src.Valid()
    ensures fresh(dst) && dst.Valid()
    ensures dst.name == src.name + "_Edited" && dst.geometry == src.geometry
    ensures dst.targets == Rescale(src.targets, scaleMap)
  {
    dst := new Mesh.Copy(src);
    dst.name := src.name + "_Edited";
    var cached := CacheScaledFrames(dst, scaleMap);
    RescaleKeepsWellFormed(dst.targets, dst.VertexCount(), scaleMap);
    RebuildBlendShapes(dst, cached);
  }
}
