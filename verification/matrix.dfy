/**
 * The simd vectors and matrices ARKit hands over, and the reshaping of their
 * column storage into the row-major nested arrays written to the manifest
 * (`arrayFromTransform`, `arrayFromIntrinsics`, `arrayFromAngles`). The
 * element type is left abstract: the reshaping moves values, it never
 * computes with them.
 */
module Matrix {

  datatype Vec3<T> = Vec3(x: T, y: T, z: T) {
    /** Component `i`, counting x, y, z from 0. */
    function At(i: nat): T
      requires i < 3
    {
      if i == 0 then x else if i == 1 then y else z
    }
  }

  datatype Vec4<T> = Vec4(x: T, y: T, z: T, w: T) {
    /** Component `i`, counting x, y, z, w from 0. */
    function At(i: nat): T
      requires i < 4
    {
      if i == 0 then x else if i == 1 then y else if i == 2 then z else w
    }
  }

  /** `simd_float3x3`: three columns, `columns.0` to `columns.2`. */
  datatype Mat3<T> = Mat3(c0: Vec3<T>, c1: Vec3<T>, c2: Vec3<T>) {
    function Column(j: nat): Vec3<T>
      requires j < 3
    {
      if j == 0 then c0 else if j == 1 then c1 else c2
    }
  }

  /** `simd_float4x4`: four columns, `columns.0` to `columns.3`. */
  datatype Mat4<T> = Mat4(c0: Vec4<T>, c1: Vec4<T>, c2: Vec4<T>, c3: Vec4<T>) {
    function Column(j: nat): Vec4<T>
      requires j < 4
    {
      if j == 0 then c0 else if j == 1 then c1 else if j == 2 then c2 else c3
    }
  }

  /** `a` has `rows` rows of `cols` entries each. */
  predicate IsRect<T>(a: seq<seq<T>>, rows: nat, cols: nat) {
    |a| == rows && forall i :: 0 <= i < rows ==> |a[i]| == cols
  }

  /** Turns `a` (`|a|` rows of `cols` entries) into `cols` rows of `|a|` entries. */
  function Transpose<T>(a: seq<seq<T>>, cols: nat): (t: seq<seq<T>>)
    requires IsRect(a, |a|, cols)
    ensures IsRect(t, cols, |a|)
    ensures forall i, j :: 0 <= i < cols && 0 <= j < |a| ==> t[i][j] == a[j][i]
  {
    seq(cols, i requires 0 <= i < cols => seq(|a|, j requires 0 <= j < |a| => a[j][i]))
  }

  lemma TransposeTwice<T>(a: seq<seq<T>>, cols: nat)
    requires IsRect(a, |a|, cols)
    ensures Transpose(Transpose(a, cols), |a|) == a
  {
    var t := Transpose(Transpose(a, cols), |a|);
    assert forall i :: 0 <= i < |a| ==> t[i] == a[i];
  }

  /** The column storage of a 4x4 matrix, one inner sequence per column. */
  function Columns4<T>(m: Mat4<T>): (cs: seq<seq<T>>)
    ensures IsRect(cs, 4, 4)
  {
    [[m.c0.x, m.c0.y, m.c0.z, m.c0.w], [m.c1.x, m.c1.y, m.c1.z, m.c1.w],
     [m.c2.x, m.c2.y, m.c2.z, m.c2.w], [m.c3.x, m.c3.y, m.c3.z, m.c3.w]]
  }

  /** The column storage of a 3x3 matrix, one inner sequence per column. */
  function Columns3<T>(m: Mat3<T>): (cs: seq<seq<T>>)
    ensures IsRect(cs, 3, 3)
  {
    [[m.c0.x, m.c0.y, m.c0.z], [m.c1.x, m.c1.y, m.c1.z], [m.c2.x, m.c2.y, m.c2.z]]
  }

  /** The pose transform as four rows of four: entry [r][c] is component r of column c. */
  function ArrayFromTransform<T>(m: Mat4<T>): (a: seq<seq<T>>)
    ensures IsRect(a, 4, 4)
    ensures forall r, c :: 0 <= r < 4 && 0 <= c < 4 ==> a[r][c] == m.Column(c).At(r)
  {
    [[m.c0.x, m.c1.x, m.c2.x, m.c3.x],
     [m.c0.y, m.c1.y, m.c2.y, m.c3.y],
     [m.c0.z, m.c1.z, m.c2.z, m.c3.z],
     [m.c0.w, m.c1.w, m.c2.w, m.c3.w]]
  }

  /** The camera intrinsics as three rows of three: entry [r][c] is component r of column c. */
  function ArrayFromIntrinsics<T>(m: Mat3<T>): (a: seq<seq<T>>)
    ensures IsRect(a, 3, 3)
    ensures forall r, c :: 0 <= r < 3 && 0 <= c < 3 ==> a[r][c] == m.Column(c).At(r)
  {
    [[m.c0.x, m.c1.x, m.c2.x],
     [m.c0.y, m.c1.y, m.c2.y],
     [m.c0.z, m.c1.z, m.c2.z]]
  }

  /**
   * The Euler angles as three entries in x, y, z order, each passed through
   * the radians-to-degrees conversion `toDegrees`, whose float arithmetic is
   * not modelled.
   */
  function ArrayFromAngles<T>(angles: Vec3<T>, toDegrees: T -> T): (a: seq<T>)
    ensures |a| == 3
    ensures forall i :: 0 <= i < 3 ==> a[i] == toDegrees(angles.At(i))
  {
    [toDegrees(angles.x), toDegrees(angles.y), toDegrees(angles.z)]
  }

  /** Both reshapings are the transpose of column storage. */
  lemma ArraysAreTransposes<T>(m4: Mat4<T>, m3: Mat3<T>)
    ensures ArrayFromTransform(m4) == Transpose(Columns4(m4), 4)
    ensures ArrayFromIntrinsics(m3) == Transpose(Columns3(m3), 3)
  {
    var a, t := ArrayFromTransform(m4), Transpose(Columns4(m4), 4);
    assert forall r :: 0 <= r < 4 ==> a[r] == t[r];
    var b, u := ArrayFromIntrinsics(m3), Transpose(Columns3(m3), 3);
    assert forall r :: 0 <= r < 3 ==> b[r] == u[r];
  }

  /** Rebuilds a 4x4 matrix from its row-major array. */
  function TransformFromArray<T>(a: seq<seq<T>>): Mat4<T>
    requires IsRect(a, 4, 4)
  {
    Mat4(Vec4(a[0][0], a[1][0], a[2][0], a[3][0]), Vec4(a[0][1], a[1][1], a[2][1], a[3][1]),
         Vec4(a[0][2], a[1][2], a[2][2], a[3][2]), Vec4(a[0][3], a[1][3], a[2][3], a[3][3]))
  }

  /** Rebuilds a 3x3 matrix from its row-major array. */
  function IntrinsicsFromArray<T>(a: seq<seq<T>>): Mat3<T>
    requires IsRect(a, 3, 3)
  {
    Mat3(Vec3(a[0][0], a[1][0], a[2][0]), Vec3(a[0][1], a[1][1], a[2][1]), Vec3(a[0][2], a[1][2], a[2][2]))
  }

  /** The manifest's matrix arrays lose nothing: each reads back into the matrix it came from. */
  lemma ArrayFromTransformRoundTrip<T>(m: Mat4<T>, a: seq<seq<T>>)
    requires IsRect(a, 4, 4)
    ensures TransformFromArray(ArrayFromTransform(m)) == m
    ensures ArrayFromTransform(TransformFromArray(a)) == a
  {
    var b := ArrayFromTransform(TransformFromArray(a));
    assert forall r :: 0 <= r < 4 ==> b[r] == a[r];
  }

  lemma ArrayFromIntrinsicsRoundTrip<T>(m: Mat3<T>, a: seq<seq<T>>)
    requires IsRect(a, 3, 3)
    ensures IntrinsicsFromArray(ArrayFromIntrinsics(m)) == m
    ensures ArrayFromIntrinsics(IntrinsicsFromArray(a)) == a
  {
    var b := ArrayFromIntrinsics(IntrinsicsFromArray(a));
    assert forall r :: 0 <= r < 3 ==> b[r] == a[r];
  }

}
