/** Meshes: the morph-target ("blendshape") data of a skinned mesh, and the
    few engine operations on it that the baker uses.

    Vectors are modelled with `real` components; the engine's IEEE single
    precision arithmetic is not modelled. The base geometry is carried as an
    opaque value: the baker never looks into it, it only has to survive the
    copy unchanged. */
module Meshes {

  /** A 3D vector (the engine's Vector3). */
  datatype Vec3 = Vec3(x: real, y: real, z: real)

  const Zero: Vec3 := Vec3(0.0, 0.0, 0.0)

  /** `v * s`: every component multiplied by the scalar. */
  function Scale(v: Vec3, s: real): Vec3 {
    Vec3(v.x * s, v.y * s, v.z * s)
  }

  /** Elementwise `vs[k] * s`. */
  function ScaleAll(vs: seq<Vec3>, s: real): seq<Vec3> {
    seq(|vs|, k requires 0 <= k < |vs| => Scale(vs[k], s))
  }

  /** One frame of a blendshape: the weight at which it is fully applied and
      the per-vertex position, normal and tangent deltas. */
  datatype Frame = Frame(weight: real, deltaVertices: seq<Vec3>, deltaNormals: seq<Vec3>, deltaTangents: seq<Vec3>)

  /** A blendshape: its name and its frames, in order. */
  datatype Target = Target(name: string, frames: seq<Frame>)

  /** The base geometry of a mesh (vertices, normals, tangents, triangles and
      skinning data). Only the vertex count is ever read from it. */
  datatype Geometry = Geometry(vertices: seq<Vec3>, normals: seq<Vec3>, tangents: seq<Vec3>,
                               triangles: seq<nat>, boneWeights: seq<real>)

  /** Every delta array of the frame has one entry per base vertex. */
  predicate FrameFits(fr: Frame, vertexCount: nat) {
    |fr.deltaVertices| == vertexCount && |fr.deltaNormals| == vertexCount && |fr.deltaTangents| == vertexCount
  }

  /** Frame weights strictly increase, as the engine demands when frames are added. */
  predicate WeightsIncrease(frames: seq<Frame>) {
    forall a, b :: 0 <= a < b < |frames| ==> frames[a].weight < frames[b].weight
  }

  /** The engine's invariant on the blendshapes of a mesh: every shape has at
      least one frame, its frames have increasing weights and fit the vertex
      count, and no two shapes share a name. */
  predicate WellFormed(ts: seq<Target>, vertexCount: nat) {
    && (forall i :: 0 <= i < |ts| ==> |ts[i].frames| > 0 && WeightsIncrease(ts[i].frames))
    && (forall i, f :: 0 <= i < |ts| && 0 <= f < |ts[i].frames| ==> FrameFits(ts[i].frames[f], vertexCount))
    && (forall i, j :: 0 <= i < j < |ts| ==> ts[i].name != ts[j].name)
  }

  /** Whether the engine accepts adding frame `fr` to shape `name` of the
      blendshapes `ts`: the deltas must fit the vertex count; a frame for the
      last shape must have a larger weight than that shape's last frame; a
      frame for any other shape must name a shape that does not exist yet. */
  predicate AcceptsFrame(ts: seq<Target>, vertexCount: nat, name: string, fr: Frame) {
    && FrameFits(fr, vertexCount)
    && if ts != [] && ts[|ts| - 1].name == name then
         var last := ts[|ts| - 1].frames;
         last == [] || last[|last| - 1].weight < fr.weight
       else
         forall i :: 0 <= i < |ts| ==> ts[i].name != name
  }

  /** The blendshapes after the engine accepted frame `fr` for shape `name`. */
  function WithFrame(ts: seq<Target>, name: string, fr: Frame): seq<Target> {
    if ts != [] && ts[|ts| - 1].name == name then
      ts[..|ts| - 1] + [Target(name, ts[|ts| - 1].frames + [fr])]
    else
      ts + [Target(name, [fr])]
  }

  /** An accepted frame keeps the blendshapes well formed. */
  lemma WithFrameKeepsWellFormed(ts: seq<Target>, vertexCount: nat, name: string, fr: Frame)
    requires WellFormed(ts, vertexCount) && AcceptsFrame(ts, vertexCount, name, fr)
    ensures WellFormed(WithFrame(ts, name, fr), vertexCount)
  {
    var r := WithFrame(ts, name, fr);
    if ts != [] && ts[|ts| - 1].name == name {
      var n := |ts| - 1;
      assert r[n].frames == ts[n].frames + [fr];
      assert WeightsIncrease(r[n].frames) by {
        forall a, b | 0 <= a < b < |r[n].frames| ensures r[n].frames[a].weight < r[n].frames[b].weight {
          if b < |ts[n].frames| {
          } else {
            assert r[n].frames[a].weight <= ts[n].frames[|ts[n].frames| - 1].weight;
          }
        }
      }
    }
  }

  /** A mesh as the engine holds it. `targets` is the blendshape list that
      `ClearBlendShapes` and `AddBlendShapeFrame` update in place. */
  class Mesh {
    var name: string
    var geometry: Geometry
    var targets: seq<Target>

    ghost predicate Valid()
      reads this
    {
      WellFormed(targets, VertexCount())
    }

    function VertexCount(): nat
      reads this
    {
      |geometry.vertices|
    }

    function BlendShapeCount(): nat
      reads this
    {
      |targets|
    }

    /** The blendshape names in order. */
    function Names(): (r: seq<string>)
      reads this
      ensures |r| == |targets| && forall i :: 0 <= i < |targets| ==> r[i] == targets[i].name
    {
      seq(|targets|, i reads this requires 0 <= i < |targets| => targets[i].name)
    }

    function GetBlendShapeName(i: nat): string
      reads this
      requires i < |targets|
    {
      targets[i].name
    }

    function GetBlendShapeFrameCount(i: nat): nat
      reads this
      requires i < |targets|
    {
      |targets[i].frames|
    }

    function GetBlendShapeFrameWeight(i: nat, f: nat): real
      reads this
      requires i < |targets| && f < |targets[i].frames|
    {
      targets[i].frames[f].weight
    }

    /** `Object.Instantiate`: a new mesh with the same name, geometry and blendshapes. */
    constructor Copy(src: Mesh)
      ensures name == src.name && geometry == src.geometry && targets == src.targets
    {
      name := src.name;
      geometry := src.geometry;
      targets := src.targets;
    }

    /** Copies the deltas of frame `f` of shape `i` into three arrays that
        the caller sized to the vertex count. */
    method GetBlendShapeFrameVertices(i: nat, f: nat, dv: array<Vec3>, dn: array<Vec3>, dt: array<Vec3>)
      requires Valid() && i < |targets| && f < |targets[i].frames|
      requires dv.Length == VertexCount() && dn.Length == VertexCount() && dt.Length == VertexCount()
      requires dv != dn && dn != dt && dv != dt
      modifies dv, dn, dt
      ensures dv[..] == targets[i].frames[f].deltaVertices
      ensures dn[..] == targets[i].frames[f].deltaNormals
      ensures dt[..] == targets[i].frames[f].deltaTangents
    {
      var fr := targets[i].frames[f];
      forall k | 0 <= k < dv.Length { dv[k] := fr.deltaVertices[k]; }
      forall k | 0 <= k < dn.Length { dn[k] := fr.deltaNormals[k]; }
      forall k | 0 <= k < dt.Length { dt[k] := fr.deltaTangents[k]; }
    }

    /** Removes every blendshape; the rest of the mesh is untouched. */
    method ClearBlendShapes()
      modifies this`targets
      ensures targets == []
    {
      targets := [];
    }

    /** Adds one frame to shape `shapeName`, creating the shape when it does
        not exist yet. A frame the engine refuses leaves the mesh unchanged
        and is reported by `ok == false`. */
    method AddBlendShapeFrame(shapeName: string, weight: real, dv: seq<Vec3>, dn: seq<Vec3>, dt: seq<Vec3>)
      returns (ok: bool)
      modifies this`targets
      ensures ok == AcceptsFrame(old(targets), VertexCount(), shapeName, Frame(weight, dv, dn, dt))
      ensures targets == if ok then WithFrame(old(targets), shapeName, Frame(weight, dv, dn, dt)) else old(targets)
    {
      var fr := Frame(weight, dv, dn, dt);
      ok := AcceptsFrame(targets, VertexCount(), shapeName, fr);
      if ok {
        targets := WithFrame(targets, shapeName, fr);
      }
    }
  }
}
