/** The values the tool computes with: C floats, vectors, one face's geometry and its tangent space. */
module Geometry {

  /** A C `float`. Its arithmetic is not part of this model, only where values are read from. */
  type Float(==, !new)

  datatype Vector = Vector(x: Float, y: Float, z: Float)

  /** A texture coordinate: only the x and y components of a `glb::Vector` are ever set or read. */
  datatype TexCoord = TexCoord(u: Float, v: Float)

  /** Positions and texture coordinates of one face, by corner 0..2. */
  datatype Triangle = Triangle(v0: Vector, v1: Vector, v2: Vector, t0: TexCoord, t1: TexCoord, t2: TexCoord)

  /** The tangent and binormal of one face. */
  datatype TangentSpace = TangentSpace(tangent: Vector, binormal: Vector)

  function Component(v: Vector, k: nat): Float
    requires k < 3
  {
    if k == 0 then v.x else if k == 1 then v.y else v.z
  }

  function TexComponent(t: TexCoord, k: nat): Float
    requires k < 2
  {
    if k == 0 then t.u else t.v
  }

  function Position(tri: Triangle, c: nat): Vector
    requires c < 3
  {
    if c == 0 then tri.v0 else if c == 1 then tri.v1 else tri.v2
  }

  function TexPosition(tri: Triangle, c: nat): TexCoord
    requires c < 3
  {
    if c == 0 then tri.t0 else if c == 1 then tri.t1 else tri.t2
  }
}

/** glb_calc_tangent_binormal_coordinates: one tangent space per face, read from flat buffers. */
module TangentBatch {
  import opened Results
  import opened Geometry

  function VectorAt(buf: seq<Float>, base: nat): Vector
    requires base + 3 <= |buf|
  {
    Vector(buf[base], buf[base + 1], buf[base + 2])
  }

  function TexCoordAt(buf: seq<Float>, base: nat): TexCoord
    requires base + 2 <= |buf|
  {
    TexCoord(buf[base], buf[base + 1])
  }

  /** The geometry of one face from its 9 position floats and 6 texture-coordinate floats. */
  function TriangleOf(positions: seq<Float>, texcoords: seq<Float>): Triangle
    requires |positions| == 9 && |texcoords| == 6
  {
    Triangle(VectorAt(positions, 0), VectorAt(positions, 3), VectorAt(positions, 6),
             TexCoordAt(texcoords, 0), TexCoordAt(texcoords, 2), TexCoordAt(texcoords, 4))
  }

  /** The geometry of face i, built from its own slices of the two buffers only: component k
      of corner c comes from offset 9i+3c+k of the position buffer and 6i+2c+k of the
      texture-coordinate buffer. */
  function FaceTriangle(vertexBuf: seq<Float>, texcoordBuf: seq<Float>, i: nat): (tri: Triangle)
    requires 9 * (i + 1) <= |vertexBuf| && 6 * (i + 1) <= |texcoordBuf|
    ensures forall c: nat, k: nat :: c < 3 && k < 3 ==>
      Component(Position(tri, c), k) == vertexBuf[i * 9 + c * 3 + k]
    ensures forall c: nat, k: nat :: c < 3 && k < 2 ==>
      TexComponent(TexPosition(tri, c), k) == texcoordBuf[i * 6 + c * 2 + k]
  {
    TriangleOf(vertexBuf[i * 9 .. i * 9 + 9], texcoordBuf[i * 6 .. i * 6 + 6])
  }

  /** Buffers hold at least faceNum faces; an absent buffer stands for NULL. */
  predicate BuffersCover(faceNum: int, vertexBuf: Option<seq<Float>>, texcoordBuf: Option<seq<Float>>) {
    vertexBuf.Some? && texcoordBuf.Some? ==>
      9 * faceNum <= |vertexBuf.value| && 6 * faceNum <= |texcoordBuf.value|
  }

  /** Appends to `tangents` the tangent space `faceSpace` gives for each face 0..faceNum-1 in order;
      refuses, appending nothing, when either buffer is null. `faceSpace` stands for
      glb_calc_tangent_binormal. */
  method CalcTangentBinormalCoordinates(faceNum: int, vertexBuf: Option<seq<Float>>, texcoordBuf: Option<seq<Float>>,
                                        faceSpace: Triangle -> TangentSpace, tangents: seq<TangentSpace>)
    returns (ok: bool, appended: seq<TangentSpace>)
    requires BuffersCover(faceNum, vertexBuf, texcoordBuf)
    ensures ok <==> vertexBuf.Some? && texcoordBuf.Some?
    ensures !ok ==> appended == tangents
    ensures ok ==> |appended| == |tangents| + (if faceNum < 0 then 0 else faceNum)
    ensures ok ==> appended[..|tangents|] == tangents
    ensures ok ==> forall i: nat :: i < faceNum ==>
      appended[|tangents| + i] == faceSpace(FaceTriangle(vertexBuf.value, texcoordBuf.value, i))
  {
    ok := true;
    appended := tangents;
    if vertexBuf.None? || texcoordBuf.None? {
      ok := false;
      return;
    }
    var vb, tb := vertexBuf.value, texcoordBuf.value;
    var i := 0;
    while i < faceNum
      invariant 0 <= i <= (if faceNum < 0 then 0 else faceNum)
      invariant |appended| == |tangents| + i
      invariant appended[..|tangents|] == tangents
      invariant forall j: nat :: j < i ==> appended[|tangents| + j] == faceSpace(FaceTriangle(vb, tb, j))
    {
      var v0 := Vector(vb[i * 3 * 3 + 0 * 3 + 0], vb[i * 3 * 3 + 0 * 3 + 1], vb[i * 3 * 3 + 0 * 3 + 2]);
      var v1 := Vector(vb[i * 3 * 3 + 1 * 3 + 0], vb[i * 3 * 3 + 1 * 3 + 1], vb[i * 3 * 3 + 1 * 3 + 2]);
      var v2 := Vector(vb[i * 3 * 3 + 2 * 3 + 0], vb[i * 3 * 3 + 2 * 3 + 1], vb[i * 3 * 3 + 2 * 3 + 2]);
      var t0 := TexCoord(tb[i * 3 * 2 + 0 * 2 + 0], tb[i * 3 * 2 + 0 * 2 + 1]);
      var t1 := TexCoord(tb[i * 3 * 2 + 1 * 2 + 0], tb[i * 3 * 2 + 1 * 2 + 1]);
      var t2 := TexCoord(tb[i * 3 * 2 + 2 * 2 + 0], tb[i * 3 * 2 + 2 * 2 + 1]);
      var space := faceSpace(Triangle(v0, v1, v2, t0, t1, t2));
      appended := appended + [space];
      i := i + 1;
    }
  }
}
