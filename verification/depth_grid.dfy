/**
 * `DepthData`: a depth map held as `h` rows of `w` cells, every cell starting
 * at the sentinel -1 until a measured distance is stored in it. Cells are
 * addressed as (x, y), column first, and stored as `data[y][x]`.
 */
module DepthGrid {
  import opened Matrix

  /** The value of a cell no distance has been stored in: `Float(-1)`. */
  const NoDepth: real := -1.0

  datatype DepthData<T> = DepthData(data: seq<seq<T>>)

  /** `d` holds `h` rows of `w` cells. */
  predicate HasSize<T>(d: DepthData<T>, w: nat, h: nat) {
    IsRect(d.data, h, w)
  }

  /** (x, y) addresses a cell of `d`; anything else traps in Swift. */
  predicate InBounds<T>(d: DepthData<T>, x: int, y: int) {
    0 <= y < |d.data| && 0 <= x < |d.data[y]|
  }

  /** A fresh map for a `w` by `h` pixel buffer: every cell reads -1. */
  function Init(w: nat, h: nat): (d: DepthData<real>)
    ensures HasSize(d, w, h)
    ensures forall x, y :: 0 <= x < w && 0 <= y < h ==> InBounds(d, x, y) && Get(d, x, y) == NoDepth
  {
    DepthData(seq(h, _ => seq(w, _ => NoDepth)))
  }

  function Get<T>(d: DepthData<T>, x: int, y: int): T
    requires InBounds(d, x, y)
  {
    d.data[y][x]
  }

  /** Stores `v` at (x, y): that cell now reads `v`, every other cell and the size are as before. */
  function Set<T>(d: DepthData<T>, x: int, y: int, v: T): (r: DepthData<T>)
    requires InBounds(d, x, y)
    ensures forall w: nat, h: nat :: HasSize(d, w, h) ==> HasSize(r, w, h)
    ensures InBounds(r, x, y) && Get(r, x, y) == v
    ensures forall x', y' :: InBounds(d, x', y') ==>
      InBounds(r, x', y') && ((x', y') != (x, y) ==> Get(r, x', y') == Get(d, x', y'))
  {
    DepthData(d.data[y := d.data[y][x := v]])
  }

  /** Setting a cell twice keeps only the second value; setting two different cells commutes. */
  lemma SetSet<T>(d: DepthData<T>, x: int, y: int, x': int, y': int, v: T, v': T)
    requires InBounds(d, x, y) && InBounds(d, x', y')
    ensures (x, y) == (x', y') ==> Set(Set(d, x, y, v), x', y', v') == Set(d, x', y', v')
    ensures (x, y) != (x', y') ==> Set(Set(d, x, y, v), x', y', v') == Set(Set(d, x', y', v'), x, y, v)
  {
    var a, b := Set(Set(d, x, y, v), x', y', v'), Set(Set(d, x', y', v'), x, y, v);
    if (x, y) == (x', y') {
      var c := Set(d, x', y', v');
      assert a.data[y] == c.data[y];
      assert a.data == c.data;
    } else if y == y' {
      assert a.data[y] == b.data[y];
      assert a.data == b.data;
    } else {
      assert a.data == b.data;
    }
  }

}
