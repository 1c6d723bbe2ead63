/**
 * Shared vocabulary of the model: the failure kinds a descrambler can raise,
 * row-major matrices of pixels, and the handful of array reshapes that the
 * viewer's numpy code performs (zeros, reshape, flips, concatenation and
 * Python's clipped slices).
 */
module Common {

  datatype Option<T> = None | Some(value: T)

  /** Exceptions raised by the source, by kind. */
  datatype Fault =
    | ReshapeError     // numpy reshape / frombuffer / broadcast on arrays of the wrong shape
    | IndexError       // list or array index out of range, pop from an empty bytearray
    | DescrambleError  // the explicit "*****Descramble error*****" exception
    | EmptyReduction   // min()/max() of an empty array
    | NotANumber       // int() of the NaN that mean()/std() give for an empty array
    | TypeError        // a plain list indexed by a row-and-column pair

  datatype Result<T> = Ok(value: T) | Err(fault: Fault)

  /** An element of a Python `bytearray`. */
  type Byte = b: int | 0 <= b < 256

  /** A row-major 2-D array. */
  type Matrix<T> = seq<seq<T>>

  ghost predicate IsMatrix<T>(m: Matrix<T>, rows: nat, cols: nat)
  {
    |m| == rows && forall r :: 0 <= r < rows ==> |m[r]| == cols
  }

  /** `np.zeros((rows, cols))`. */
  function Zeros(rows: nat, cols: nat): (m: Matrix<int>)
    ensures IsMatrix(m, rows, cols)
    ensures forall r, c :: 0 <= r < rows && 0 <= c < cols ==> m[r][c] == 0
  {
    seq(rows, _ => seq(cols, _ => 0))
  }

  /** Python's `s[lo:hi]` for 0 <= lo: both ends are clipped to the length. */
  function Slice<T>(s: seq<T>, lo: nat, hi: nat): (t: seq<T>)
    ensures |t| == if hi <= lo || |s| <= lo then 0 else (if hi < |s| then hi else |s|) - lo
    ensures forall i :: 0 <= i < |t| ==> t[i] == s[lo + i]
  {
    var a := if lo < |s| then lo else |s|;
    var b := if hi < |s| then hi else |s|;
    if b <= a then [] else s[a..b]
  }

  lemma {:induction false} RowStart(r: nat, rows: nat, cols: nat)
    requires r < rows
    ensures r * cols + cols <= rows * cols
    decreases rows - r
  {
    assert (r + 1) * cols == r * cols + cols;
    if r + 1 < rows {
      RowStart(r + 1, rows, cols);
    }
  }

  lemma CellIndex(r: nat, c: nat, rows: nat, cols: nat)
    requires r < rows && c < cols
    ensures r * cols + c < rows * cols
  {
    RowStart(r, rows, cols);
  }

  lemma {:induction false} MulAtLeast(d: nat, x: int)
    requires x >= 1
    ensures d * x >= d
  {
    if x > 1 {
      MulAtLeast(d, x - 1);
      assert d * x == d * (x - 1) + d;
    }
  }

  /** Quotient and remainder are unique: the fact behind every index decomposition in the lane maps. */
  lemma DivModUnique(a: int, d: int, q: int, r: int)
    requires d > 0 && 0 <= r < d && a == d * q + r
    ensures a / d == q && a % d == r
  {
    var q', r' := a / d, a % d;
    assert a == d * q' + r';
    assert d * (q - q') == r' - r;
    if q > q' {
      MulAtLeast(d, q - q');
    } else if q < q' {
      MulAtLeast(d, q' - q);
    }
  }

  /** An index below `d s` has quotient below `s`. */
  lemma QuotientBelow(p: nat, d: nat, s: nat)
    requires d > 0 && p < d * s
    ensures p / d < s
  {
    DivBounds(p, d);
    if p / d >= s {
      MulAtLeast(d, p / d - s + 1);
    }
  }

  /** Euclidean division of a non-negative number by a positive one. */
  lemma DivBounds(a: nat, d: nat)
    requires d > 0
    ensures 0 <= d * (a / d) <= a < d * (a / d) + d
  {
    var q := a / d;
    assert a == d * q + a % d;
    if q >= 1 {
      MulAtLeast(d, q);
    }
  }

  /** `m` is `s` cut into rows of `cols` cells (the right-hand sides are guarded by the bound). */
  ghost predicate Reshaped<T>(m: Matrix<T>, s: seq<T>, cols: nat)
  {
    forall r, c :: 0 <= r < |m| && 0 <= c < cols && r * cols + c < |s| ==> c < |m[r]| && m[r][c] == s[r * cols + c]
  }

  /** Row `r` of `s` cut into rows of `cols` cells. */
  function RowOf<T>(s: seq<T>, rows: nat, cols: nat, r: nat): (row: seq<T>)
    requires |s| == rows * cols && r < rows
    ensures |row| == cols
    ensures forall c :: 0 <= c < cols ==> r * cols + c < |s| && row[c] == s[r * cols + c]
  {
    RowStart(r, rows, cols);
    s[r * cols .. r * cols + cols]
  }

  /** `np.reshape(s, (rows, cols))`, defined only when the sizes agree. */
  function Reshape<T>(s: seq<T>, rows: nat, cols: nat): (m: Matrix<T>)
    requires |s| == rows * cols
    ensures IsMatrix(m, rows, cols)
    ensures Reshaped(m, s, cols)
  {
    var m := seq(rows, r requires 0 <= r < rows => RowOf(s, rows, cols, r));
    RowsReshaped(s, rows, cols, m);
    m
  }

  /** Cell (r, c) of the reshape is element r cols + c of `s`. */
  lemma ReshapeAt<T>(s: seq<T>, rows: nat, cols: nat, r: nat, c: nat)
    requires |s| == rows * cols && r < rows && c < cols
    ensures r * cols + c < |s| && Reshape(s, rows, cols)[r][c] == s[r * cols + c]
  {
    CellIndex(r, c, rows, cols);
  }

  /** Two matrices of the same shape that agree cell by cell are equal. */
  lemma MatrixEqual<T>(a: Matrix<T>, b: Matrix<T>, rows: nat, cols: nat)
    requires IsMatrix(a, rows, cols) && IsMatrix(b, rows, cols)
    requires forall r, c :: 0 <= r < rows && 0 <= c < cols ==> a[r][c] == b[r][c]
    ensures a == b
  {
    assert forall r :: 0 <= r < rows ==> a[r] == b[r];
  }

  /** Rows cut from `s` one by one form its reshape. */
  lemma RowsReshaped<T>(s: seq<T>, rows: nat, cols: nat, m: Matrix<T>)
    requires |s| == rows * cols && |m| == rows
    requires forall r :: 0 <= r < rows ==> m[r] == RowOf(s, rows, cols, r)
    ensures Reshaped(m, s, cols)
  {
    forall r, c | 0 <= r < rows && 0 <= c < cols && r * cols + c < |s|
      ensures c < |m[r]| && m[r][c] == s[r * cols + c]
    {
      RowCell(s, rows, cols, m[r], r, c);
    }
  }

  /** Cell c of row r of `s` cut into rows of `cols` cells. */
  lemma RowCell<T>(s: seq<T>, rows: nat, cols: nat, row: seq<T>, r: nat, c: nat)
    requires |s| == rows * cols && r < rows && c < cols
    requires row == RowOf(s, rows, cols, r)
    ensures r * cols + c < |s| && c < |row| && row[c] == s[r * cols + c]
  {
    CellIndex(r, c, rows, cols);
  }

  /** `np.flip(m, 0)`: the rows in reverse order. */
  function FlipRows<T>(m: Matrix<T>): (f: Matrix<T>)
    ensures |f| == |m|
    ensures forall r :: 0 <= r < |m| ==> f[r] == m[|m| - 1 - r]
  {
    seq(|m|, r requires 0 <= r < |m| => m[|m| - 1 - r])
  }

  function Reverse<T>(s: seq<T>): (t: seq<T>)
    ensures |t| == |s|
    ensures forall i :: 0 <= i < |s| ==> t[i] == s[|s| - 1 - i]
  {
    seq(|s|, i requires 0 <= i < |s| => s[|s| - 1 - i])
  }

  /** `np.flip(m, 1)`: every row reversed. */
  function FlipCols<T>(m: Matrix<T>): (f: Matrix<T>)
    ensures |f| == |m|
    ensures forall r :: 0 <= r < |m| ==> f[r] == Reverse(m[r])
  {
    seq(|m|, r requires 0 <= r < |m| => Reverse(m[r]))
  }

  /** Every cell passed through `f` (numpy's element-wise operators). */
  function MapCells(m: Matrix<int>, f: int -> int): (g: Matrix<int>)
    ensures |g| == |m|
    ensures forall r :: 0 <= r < |m| ==> |g[r]| == |m[r]|
    ensures forall r, c :: 0 <= r < |m| && 0 <= c < |m[r]| ==> g[r][c] == f(m[r][c])
  {
    seq(|m|, r requires 0 <= r < |m| => seq(|m[r]|, c requires 0 <= c < |m[r]| => f(m[r][c])))
  }

  /** `np.concatenate((a, b), 1)`: `b` placed to the right of `a`. */
  function SideBySide<T>(a: Matrix<T>, b: Matrix<T>): (m: Matrix<T>)
    requires |a| == |b|
    ensures |m| == |a|
    ensures forall r :: 0 <= r < |a| ==> m[r] == a[r] + b[r]
  {
    seq(|a|, r requires 0 <= r < |a| => a[r] + b[r])
  }

  /** Row-major flattening, the order in which numpy lays a C-contiguous matrix out. */
  function Flatten<T>(m: Matrix<T>): (s: seq<T>)
  {
    if m == [] then [] else m[0] + Flatten(m[1..])
  }

  lemma {:induction false} FlattenAt<T>(m: Matrix<T>, rows: nat, cols: nat, r: nat, c: nat)
    requires IsMatrix(m, rows, cols)
    requires r < rows && c < cols
    ensures |Flatten(m)| == rows * cols
    ensures r * cols + c < rows * cols && Flatten(m)[r * cols + c] == m[r][c]
  {
    CellIndex(r, c, rows, cols);
    FlattenLength(m, rows, cols);
    var tail := m[1..];
    assert Flatten(m) == m[0] + Flatten(tail);
    assert |m[0]| == cols;
    if r > 0 {
      assert IsMatrix(tail, rows - 1, cols);
      FlattenAt(tail, rows - 1, cols, r - 1, c);
      NextRow(r - 1, cols, c);
      assert tail[r - 1] == m[r];
    }
  }

  /** One row further on is `cols` cells further on. */
  lemma NextRow(r: nat, cols: nat, c: nat)
    ensures (r + 1) * cols + c == cols + (r * cols + c)
  {
  }

  lemma {:induction false} FlattenLength<T>(m: Matrix<T>, rows: nat, cols: nat)
    requires IsMatrix(m, rows, cols)
    ensures |Flatten(m)| == rows * cols
  {
    if rows > 0 {
      FlattenLength(m[1..], rows - 1, cols);
    }
  }
}
