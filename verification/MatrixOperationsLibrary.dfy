/**
 Products and transposes of MatrixOperationsLibrary.ts over exact reals; the rounding of each entry is an
 arbitrary function. Rows may differ in length: the source reads what is missing as no number, and so does this.
 */
module MatrixOperations {

  import opened Options

  /** `None` stands for what is not a number. */
  type Cell = Option<real>

  type Matrix = seq<seq<Cell>>

  /** A row may end before column `c`. */
  function At(m: Matrix, r: nat, c: nat): Cell
    requires r < |m|
  {
    if c < |m[r]| then m[r][c] else None
  }

  function Times(x: Cell, y: Cell): Cell {
    if x.Some? && y.Some? then Some(x.value * y.value) else None
  }

  function Plus(x: Cell, y: Cell): Cell {
    if x.Some? && y.Some? then Some(x.value + y.value) else None
  }

  function Apply(round: real -> real, x: Cell): Cell {
    if x.Some? then Some(round(x.value)) else None
  }

  /** The sum of the first `k` products of row `r` of `a` with column `c` of `b`. */
  function Dot(a: Matrix, b: Matrix, r: nat, c: nat, k: nat): Cell
    requires r < |a| && k <= |b|
  {
    if k == 0 then Some(0.0) else Plus(Dot(a, b, r, c, k - 1), Times(At(a, r, k - 1), At(b, k - 1, c)))
  }

  function Entry(a: Matrix, b: Matrix, round: real -> real, r: nat, c: nat): Cell
    requires r < |a|
  {
    Apply(round, Dot(a, b, r, c, |b|))
  }

  /** The first row alone tells the width. */
  predicate Compatible(a: Matrix, b: Matrix) {
    a != [] && b != [] && |a[0]| == |b|
  }

  function Product(a: Matrix, b: Matrix, round: real -> real): (p: Matrix)
    requires Compatible(a, b)
    ensures |p| == |a| && forall r | 0 <= r < |p| :: |p[r]| == |b[0]|
  {
    seq(|a|, r requires 0 <= r < |a| => seq(|b[0]|, c requires 0 <= c < |b[0]| => Entry(a, b, round, r, c)))
  }

  function Transposed(m: Matrix): (t: Matrix)
    requires m != []
    ensures |t| == |m[0]| && forall c | 0 <= c < |t| :: |t[c]| == |m|
  {
    seq(|m[0]|, c requires 0 <= c < |m[0]| => seq(|m|, r requires 0 <= r < |m| => At(m, r, c)))
  }

  /** The inner loop of the multiplication. */
  method MultiplyCell(a: Matrix, b: Matrix, round: real -> real, r: nat, c: nat) returns (cell: Cell)
    requires Compatible(a, b) && r < |a|
    ensures cell == Entry(a, b, round, r, c)
  {
    var sum := Some(0.0);
    for k := 0 to |a[0]|
      invariant sum == Dot(a, b, r, c, k)
    {
      sum := Plus(sum, Times(At(a, r, k), At(b, k, c)));
    }
    cell := Apply(round, sum);
  }

  /** The result is absent where the source throws. */
  method Multiply(a: Matrix, b: Matrix, round: real -> real) returns (result: Option<array2<Cell>>)
    ensures result.Some? <==> Compatible(a, b)
    ensures result.Some? ==>
              && fresh(result.value) && result.value.Length0 == |a| && result.value.Length1 == |b[0]|
              && forall r, c | 0 <= r < |a| && 0 <= c < |b[0]| :: result.value[r, c] == Product(a, b, round)[r][c]
  {
    if a == [] || b == [] || |a[0]| != |b| {
      return None;
    }
    var rowsA, colsB := |a|, |b[0]|;
    var cells := new Cell[rowsA, colsB]((_, _) => Some(0.0));
    for r := 0 to rowsA
      invariant forall i, j | 0 <= i < r && 0 <= j < colsB :: cells[i, j] == Entry(a, b, round, i, j)
    {
      for c := 0 to colsB
        invariant forall i, j | 0 <= i < r && 0 <= j < colsB :: cells[i, j] == Entry(a, b, round, i, j)
        invariant forall j | 0 <= j < c :: cells[r, j] == Entry(a, b, round, r, j)
      {
        var cell := MultiplyCell(a, b, round, r, c);
        cells[r, c] := cell;
      }
    }
    return Some(cells);
  }

  /** The result is absent where the source throws. */
  method Transpose(matrix: Matrix) returns (result: Option<array2<Cell>>)
    ensures result.Some? <==> matrix != []
    ensures result.Some? ==>
              && fresh(result.value) && result.value.Length0 == |matrix[0]| && result.value.Length1 == |matrix|
              && forall r, c | 0 <= r < |matrix| && 0 <= c < |matrix[0]| :: result.value[c, r] == Transposed(matrix)[c][r]
  {
    if matrix == [] {
      return None;
    }
    var rows, cols := |matrix|, |matrix[0]|;
    var cells := new Cell[cols, rows]((_, _) => Some(0.0));
    for r := 0 to rows
      invariant forall i, j | 0 <= i < r && 0 <= j < cols :: cells[j, i] == At(matrix, i, j)
    {
      for c := 0 to cols
        invariant forall i, j | 0 <= i < r && 0 <= j < cols :: cells[j, i] == At(matrix, i, j)
        invariant forall j | 0 <= j < c :: cells[j, r] == At(matrix, r, j)
      {
        cells[c, r] := At(matrix, r, c);
      }
    }
    return Some(cells);
  }

  /** Transposing a matrix that has a column is undone by transposing again exactly when all rows are equally long. */
  lemma TransposeTwice(m: Matrix)
    requires m != [] && m[0] != []
    ensures Transposed(Transposed(m)) == m <==> forall r | 0 <= r < |m| :: |m[r]| == |m[0]|
  {
    var t := Transposed(Transposed(m));
    if forall r | 0 <= r < |m| :: |m[r]| == |m[0]| {
      forall r | 0 <= r < |m| ensures t[r] == m[r] {
        forall c | 0 <= c < |m[0]| ensures t[r][c] == m[r][c] {
          TransposedAt(m, r, c);
        }
      }
      assert t == m;
    } else {
      var r :| 0 <= r < |m| && |m[r]| != |m[0]|;
      assert |t[r]| == |m[0]|;
    }
  }

  lemma TransposedAt(m: Matrix, r: nat, c: nat)
    requires r < |m| && c < |m[0]|
    ensures At(Transposed(m), c, r) == At(m, r, c)
  {
  }

  lemma TimesCommutes(x: Cell, y: Cell)
    ensures Times(x, y) == Times(y, x)
  {
  }

  lemma {:induction false} DotOfTransposes(a: Matrix, b: Matrix, r: nat, c: nat, k: nat)
    requires Compatible(a, b) && r < |a| && c < |b[0]| && k <= |b|
    ensures Dot(a, b, r, c, k) == Dot(Transposed(b), Transposed(a), c, r, k)
    decreases k
  {
    if k > 0 {
      DotOfTransposes(a, b, r, c, k - 1);
      TransposedAt(a, r, k - 1);
      TransposedAt(b, k - 1, c);
      TimesCommutes(At(a, r, k - 1), At(b, k - 1, c));
    }
  }

  /**
   The transposes can be multiplied in the other order exactly when `b` has a column, and their product is then the
   transpose of the product, however entries are rounded and whatever entries are missing.
   */
  lemma TransposeOfProduct(a: Matrix, b: Matrix, round: real -> real)
    requires Compatible(a, b)
    ensures Compatible(Transposed(b), Transposed(a)) <==> b[0] != []
    ensures b[0] != [] ==> Transposed(Product(a, b, round)) == Product(Transposed(b), Transposed(a), round)
  {
    if b[0] != [] {
      var left, right := Transposed(Product(a, b, round)), Product(Transposed(b), Transposed(a), round);
      forall c | 0 <= c < |b[0]| ensures left[c] == right[c] {
        forall r | 0 <= r < |a| ensures left[c][r] == right[c][r] {
          DotOfTransposes(a, b, r, c, |b|);
        }
      }
    }
  }

  // ---------- rounding ----------

  const EXACT: real -> real := x => x

  /** Each entry of a product is that of the exact product, rounded once. */
  lemma ProductIsRoundedOnce(a: Matrix, b: Matrix, round: real -> real, r: nat, c: nat)
    requires Compatible(a, b) && r < |a| && c < |b[0]|
    ensures var exact, rounded := Product(a, b, EXACT)[r][c], Product(a, b, round)[r][c];
            rounded == if exact.Some? then Some(round(exact.value)) else None
  {
  }

  lemma {:induction false} DotIsMissing(a: Matrix, b: Matrix, r: nat, c: nat, k: nat)
    requires r < |a| && k <= |b|
    ensures Dot(a, b, r, c, k) == None <==> exists l :: 0 <= l < k && (At(a, r, l) == None || At(b, l, c) == None)
    decreases k
  {
    if k > 0 {
      DotIsMissing(a, b, r, c, k - 1);
    }
  }

  /** An entry is no number exactly if one of the entries that it is made of is none. */
  lemma EntryIsMissingIff(a: Matrix, b: Matrix, round: real -> real, r: nat, c: nat)
    requires Compatible(a, b) && r < |a| && c < |b[0]|
    ensures Product(a, b, round)[r][c] == None <==>
            exists l :: 0 <= l < |b| && (At(a, r, l) == None || At(b, l, c) == None)
  {
    DotIsMissing(a, b, r, c, |b|);
  }

  // ---------- the laws of the exact product ----------

  ghost predicate IsNumeric(m: Matrix, rows: nat, cols: nat) {
    |m| == rows && forall r | 0 <= r < rows :: |m[r]| == cols && forall c | 0 <= c < cols :: m[r][c].Some?
  }

  /** The number at a place of a matrix; 0 stands for what is missing. */
  function Num(m: Matrix, r: nat, c: nat): real {
    if r < |m| && At(m, r, c).Some? then At(m, r, c).value else 0.0
  }

  function Identity(n: nat): (m: Matrix)
    ensures IsNumeric(m, n, n)
  {
    seq(n, r => seq(n, c => Some(if r == c then 1.0 else 0.0)))
  }

  /** The matrix of the given numbers. */
  function Built(rows: nat, cols: nat, f: (nat, nat) -> real): (m: Matrix)
    ensures IsNumeric(m, rows, cols) && forall r, c | 0 <= r < rows && 0 <= c < cols :: m[r][c] == Some(f(r, c))
  {
    seq(rows, r requires r >= 0 => seq(cols, c requires c >= 0 => Some(f(r, c))))
  }

  function Sum(a: Matrix, b: Matrix, rows: nat, cols: nat): Matrix {
    Built(rows, cols, (r: nat, c: nat) => Num(a, r, c) + Num(b, r, c))
  }

  function Scaled(x: real, a: Matrix, rows: nat, cols: nat): Matrix {
    Built(rows, cols, (r: nat, c: nat) => x * Num(a, r, c))
  }

  /** The sum of products, in numbers. */
  function NumDot(a: Matrix, b: Matrix, r: nat, c: nat, k: nat): real {
    if k == 0 then 0.0 else NumDot(a, b, r, c, k - 1) + Num(a, r, k - 1) * Num(b, k - 1, c)
  }

  lemma TimesNumbers(x: Cell, y: Cell, u: real, v: real)
    requires x == Some(u) && y == Some(v)
    ensures Times(x, y).Some? && Times(x, y).value == u * v
  {
  }

  lemma {:induction false} DotIsNumeric(a: Matrix, b: Matrix, rows: nat, n: nat, cols: nat, r: nat, c: nat, k: nat)
    requires IsNumeric(a, rows, n) && IsNumeric(b, n, cols) && r < rows && c < cols && k <= n
    ensures Dot(a, b, r, c, k).Some? && Dot(a, b, r, c, k).value == NumDot(a, b, r, c, k)
    decreases k
  {
    if k > 0 {
      DotIsNumeric(a, b, rows, n, cols, r, c, k - 1);
      TimesNumbers(At(a, r, k - 1), At(b, k - 1, c), Num(a, r, k - 1), Num(b, k - 1, c));
    }
  }

  /** The product of matrices of numbers is one. */
  lemma ProductIsNumeric(a: Matrix, b: Matrix, rows: nat, n: nat, cols: nat)
    requires IsNumeric(a, rows, n) && IsNumeric(b, n, cols) && rows > 0 && n > 0
    ensures Compatible(a, b) && IsNumeric(Product(a, b, EXACT), rows, cols)
    ensures forall r, c | 0 <= r < rows && 0 <= c < cols :: Num(Product(a, b, EXACT), r, c) == NumDot(a, b, r, c, n)
  {
    forall r, c | 0 <= r < rows && 0 <= c < cols ensures Product(a, b, EXACT)[r][c] == Some(NumDot(a, b, r, c, n)) {
      DotIsNumeric(a, b, rows, n, cols, r, c, n);
    }
  }

  lemma SameNumbers(a: Matrix, b: Matrix, rows: nat, cols: nat)
    requires IsNumeric(a, rows, cols) && IsNumeric(b, rows, cols)
    requires forall r, c | 0 <= r < rows && 0 <= c < cols :: Num(a, r, c) == Num(b, r, c)
    ensures a == b
  {
    forall r | 0 <= r < rows ensures a[r] == b[r] {
      forall c | 0 <= c < cols ensures a[r][c] == b[r][c] {
        assert Num(a, r, c) == Num(b, r, c);
      }
    }
  }

  lemma {:induction false} DotWithUnit(m: Matrix, n: nat, r: nat, c: nat, k: nat)
    requires r < n && k <= n
    ensures NumDot(Identity(n), m, r, c, k) == if r < k then Num(m, r, c) else 0.0
    decreases k
  {
    if k > 0 {
      DotWithUnit(m, n, r, c, k - 1);
    }
  }

  lemma {:induction false} DotWithUnitBehind(m: Matrix, n: nat, r: nat, c: nat, k: nat)
    requires c < n && k <= n
    ensures NumDot(m, Identity(n), r, c, k) == if c < k then Num(m, r, c) else 0.0
    decreases k
  {
    if k > 0 {
      DotWithUnitBehind(m, n, r, c, k - 1);
    }
  }

  /** The identity matrix changes nothing, on either side. */
  lemma IdentityIsNeutral(m: Matrix, rows: nat, cols: nat)
    requires IsNumeric(m, rows, cols) && rows > 0 && cols > 0
    ensures Compatible(Identity(rows), m) && Product(Identity(rows), m, EXACT) == m
    ensures Compatible(m, Identity(cols)) && Product(m, Identity(cols), EXACT) == m
  {
    ProductIsNumeric(Identity(rows), m, rows, rows, cols);
    ProductIsNumeric(m, Identity(cols), rows, cols, cols);
    forall r, c | 0 <= r < rows && 0 <= c < cols
      ensures NumDot(Identity(rows), m, r, c, rows) == Num(m, r, c) == NumDot(m, Identity(cols), r, c, cols)
    {
      DotWithUnit(m, rows, r, c, rows);
      DotWithUnitBehind(m, cols, r, c, cols);
    }
    SameNumbers(Product(Identity(rows), m, EXACT), m, rows, cols);
    SameNumbers(Product(m, Identity(cols), EXACT), m, rows, cols);
  }

  lemma {:induction false} DotDistributes(a: Matrix, a': Matrix, b: Matrix, rows: nat, n: nat, r: nat, c: nat, k: nat)
    requires r < rows && k <= n
    ensures NumDot(Sum(a, a', rows, n), b, r, c, k) == NumDot(a, b, r, c, k) + NumDot(a', b, r, c, k)
    decreases k
  {
    if k > 0 {
      DotDistributes(a, a', b, rows, n, r, c, k - 1);
      assert Num(Sum(a, a', rows, n), r, k - 1) == Num(a, r, k - 1) + Num(a', r, k - 1);
    }
  }

  lemma {:induction false} DotScales(x: real, a: Matrix, b: Matrix, rows: nat, n: nat, r: nat, c: nat, k: nat)
    requires r < rows && k <= n
    ensures NumDot(Scaled(x, a, rows, n), b, r, c, k) == x * NumDot(a, b, r, c, k)
    decreases k
  {
    if k > 0 {
      DotScales(x, a, b, rows, n, r, c, k - 1);
      assert Num(Scaled(x, a, rows, n), r, k - 1) == x * Num(a, r, k - 1);
    }
  }

  /** The product is additive in its first argument. */
  lemma ProductIsAdditive(a: Matrix, a': Matrix, b: Matrix, rows: nat, n: nat, cols: nat)
    requires IsNumeric(a, rows, n) && IsNumeric(a', rows, n) && IsNumeric(b, n, cols) && rows > 0 && n > 0
    ensures Compatible(a, b) && Compatible(a', b) && Compatible(Sum(a, a', rows, n), b)
    ensures Product(Sum(a, a', rows, n), b, EXACT) == Sum(Product(a, b, EXACT), Product(a', b, EXACT), rows, cols)
  {
    ProductIsNumeric(a, b, rows, n, cols);
    ProductIsNumeric(a', b, rows, n, cols);
    ProductIsNumeric(Sum(a, a', rows, n), b, rows, n, cols);
    forall r: nat, c: nat | r < rows && c < cols
      ensures NumDot(Sum(a, a', rows, n), b, r, c, n) == NumDot(a, b, r, c, n) + NumDot(a', b, r, c, n)
    {
      DotDistributes(a, a', b, rows, n, r, c, n);
    }
    SameNumbers(Product(Sum(a, a', rows, n), b, EXACT), Sum(Product(a, b, EXACT), Product(a', b, EXACT), rows, cols), rows, cols);
  }

  /** And homogeneous. */
  lemma ProductIsHomogeneous(x: real, a: Matrix, b: Matrix, rows: nat, n: nat, cols: nat)
    requires IsNumeric(a, rows, n) && IsNumeric(b, n, cols) && rows > 0 && n > 0
    ensures Compatible(a, b) && Compatible(Scaled(x, a, rows, n), b)
    ensures Product(Scaled(x, a, rows, n), b, EXACT) == Scaled(x, Product(a, b, EXACT), rows, cols)
  {
    ProductIsNumeric(a, b, rows, n, cols);
    ProductIsNumeric(Scaled(x, a, rows, n), b, rows, n, cols);
    forall r: nat, c: nat | r < rows && c < cols
      ensures NumDot(Scaled(x, a, rows, n), b, r, c, n) == x * NumDot(a, b, r, c, n)
    {
      DotScales(x, a, b, rows, n, r, c, n);
    }
    SameNumbers(Product(Scaled(x, a, rows, n), b, EXACT), Scaled(x, Product(a, b, EXACT), rows, cols), rows, cols);
  }

  lemma {:induction false} DotDistributesBehind(a: Matrix, b: Matrix, b': Matrix, n: nat, cols: nat, r: nat, c: nat, k: nat)
    requires c < cols && k <= n
    ensures NumDot(a, Sum(b, b', n, cols), r, c, k) == NumDot(a, b, r, c, k) + NumDot(a, b', r, c, k)
    decreases k
  {
    if k > 0 {
      DotDistributesBehind(a, b, b', n, cols, r, c, k - 1);
      assert Num(Sum(b, b', n, cols), k - 1, c) == Num(b, k - 1, c) + Num(b', k - 1, c);
    }
  }

  lemma {:induction false} DotScalesBehind(x: real, a: Matrix, b: Matrix, n: nat, cols: nat, r: nat, c: nat, k: nat)
    requires c < cols && k <= n
    ensures NumDot(a, Scaled(x, b, n, cols), r, c, k) == x * NumDot(a, b, r, c, k)
    decreases k
  {
    if k > 0 {
      DotScalesBehind(x, a, b, n, cols, r, c, k - 1);
      assert Num(Scaled(x, b, n, cols), k - 1, c) == x * Num(b, k - 1, c);
    }
  }

  /** It is additive in its second argument, too. */
  lemma ProductIsAdditiveBehind(a: Matrix, b: Matrix, b': Matrix, rows: nat, n: nat, cols: nat)
    requires IsNumeric(a, rows, n) && IsNumeric(b, n, cols) && IsNumeric(b', n, cols) && rows > 0 && n > 0
    ensures Compatible(a, b) && Compatible(a, b') && Compatible(a, Sum(b, b', n, cols))
    ensures Product(a, Sum(b, b', n, cols), EXACT) == Sum(Product(a, b, EXACT), Product(a, b', EXACT), rows, cols)
  {
    ProductIsNumeric(a, b, rows, n, cols);
    ProductIsNumeric(a, b', rows, n, cols);
    ProductIsNumeric(a, Sum(b, b', n, cols), rows, n, cols);
    forall r: nat, c: nat | r < rows && c < cols
      ensures NumDot(a, Sum(b, b', n, cols), r, c, n) == NumDot(a, b, r, c, n) + NumDot(a, b', r, c, n)
    {
      DotDistributesBehind(a, b, b', n, cols, r, c, n);
    }
    SameNumbers(Product(a, Sum(b, b', n, cols), EXACT), Sum(Product(a, b, EXACT), Product(a, b', EXACT), rows, cols), rows, cols);
  }

  lemma ProductIsHomogeneousBehind(x: real, a: Matrix, b: Matrix, rows: nat, n: nat, cols: nat)
    requires IsNumeric(a, rows, n) && IsNumeric(b, n, cols) && rows > 0 && n > 0
    ensures Compatible(a, b) && Compatible(a, Scaled(x, b, n, cols))
    ensures Product(a, Scaled(x, b, n, cols), EXACT) == Scaled(x, Product(a, b, EXACT), rows, cols)
  {
    ProductIsNumeric(a, b, rows, n, cols);
    ProductIsNumeric(a, Scaled(x, b, n, cols), rows, n, cols);
    forall r: nat, c: nat | r < rows && c < cols
      ensures NumDot(a, Scaled(x, b, n, cols), r, c, n) == x * NumDot(a, b, r, c, n)
    {
      DotScalesBehind(x, a, b, n, cols, r, c, n);
    }
    SameNumbers(Product(a, Scaled(x, b, n, cols), EXACT), Scaled(x, Product(a, b, EXACT), rows, cols), rows, cols);
  }

  /** The first `n` entries of row `r` of `a`, each times what column `s` of `b` and `c` make of its row. */
  function Left(a: Matrix, b: Matrix, c: Matrix, r: nat, s: nat, n: nat, m: nat): real {
    if n == 0 then 0.0 else Left(a, b, c, r, s, n - 1, m) + Num(a, r, n - 1) * NumDot(b, c, n - 1, s, m)
  }

  /** Entry `k` of column `s` of `c`, times what row `r` of `a` and `b` make of its column. */
  function Cross(a: Matrix, b: Matrix, c: Matrix, r: nat, s: nat, n: nat, k: nat): real {
    NumDot(a, b, r, k, n) * Num(c, k, s)
  }

  function Right(a: Matrix, b: Matrix, c: Matrix, r: nat, s: nat, n: nat, m: nat): real {
    if m == 0 then 0.0 else Right(a, b, c, r, s, n, m - 1) + Cross(a, b, c, r, s, n, m - 1)
  }

  lemma SameFactors(x: real, u: real, y: real, v: real)
    requires x == u && y == v
    ensures x * y == u * v
  {
  }

  lemma Distribute(x: real, y: real, z: real, above: real, beside: real)
    ensures x * (above + y * z) + beside * z == x * above + (beside + x * y) * z
  {
  }

  lemma {:induction false} LeftGrows(a: Matrix, b: Matrix, c: Matrix, r: nat, s: nat, n: nat, m: nat)
    requires m > 0
    ensures Left(a, b, c, r, s, n, m) == Left(a, b, c, r, s, n, m - 1) + Cross(a, b, c, r, s, n, m - 1)
    decreases n
  {
    if n > 0 {
      LeftGrows(a, b, c, r, s, n - 1, m);
      var x, y, z := Num(a, r, n - 1), Num(b, n - 1, m - 1), Num(c, m - 1, s);
      var above, beside := NumDot(b, c, n - 1, s, m - 1), NumDot(a, b, r, m - 1, n - 1);
      SameFactors(x, x, NumDot(b, c, n - 1, s, m), above + y * z);
      SameFactors(NumDot(a, b, r, m - 1, n), beside + x * y, z, z);
      Distribute(x, y, z, above, beside);
    }
  }

  lemma {:induction false} NoColumns(a: Matrix, b: Matrix, c: Matrix, r: nat, s: nat, n: nat)
    ensures Left(a, b, c, r, s, n, 0) == 0.0
    decreases n
  {
    if n > 0 {
      NoColumns(a, b, c, r, s, n - 1);
    }
  }

  lemma {:induction false} LeftIsRight(a: Matrix, b: Matrix, c: Matrix, r: nat, s: nat, n: nat, m: nat)
    ensures Left(a, b, c, r, s, n, m) == Right(a, b, c, r, s, n, m)
    decreases m
  {
    if m > 0 {
      LeftIsRight(a, b, c, r, s, n, m - 1);
      LeftGrows(a, b, c, r, s, n, m);
    } else {
      NoColumns(a, b, c, r, s, n);
    }
  }

  lemma {:induction false} DotWithProduct(a: Matrix, b: Matrix, c: Matrix, n: nat, m: nat, cols: nat, r: nat, s: nat, k: nat)
    requires IsNumeric(b, n, m) && IsNumeric(c, m, cols) && n > 0 && m > 0 && s < cols && k <= n
    ensures Compatible(b, c) && NumDot(a, Product(b, c, EXACT), r, s, k) == Left(a, b, c, r, s, k, m)
    decreases k
  {
    ProductIsNumeric(b, c, n, m, cols);
    if k > 0 {
      DotWithProduct(a, b, c, n, m, cols, r, s, k - 1);
      SameFactors(Num(a, r, k - 1), Num(a, r, k - 1), Num(Product(b, c, EXACT), k - 1, s), NumDot(b, c, k - 1, s, m));
    }
  }

  lemma {:induction false} DotOfProduct(a: Matrix, b: Matrix, c: Matrix, rows: nat, n: nat, m: nat, r: nat, s: nat, k: nat)
    requires IsNumeric(a, rows, n) && IsNumeric(b, n, m) && rows > 0 && n > 0 && r < rows && k <= m
    ensures Compatible(a, b) && NumDot(Product(a, b, EXACT), c, r, s, k) == Right(a, b, c, r, s, n, k)
    decreases k
  {
    ProductIsNumeric(a, b, rows, n, m);
    if k > 0 {
      DotOfProduct(a, b, c, rows, n, m, r, s, k - 1);
      SameFactors(Num(Product(a, b, EXACT), r, k - 1), NumDot(a, b, r, k - 1, n), Num(c, k - 1, s), Num(c, k - 1, s));
    }
  }

  lemma ProductIsAssociative(a: Matrix, b: Matrix, c: Matrix, rows: nat, n: nat, m: nat, cols: nat)
    requires IsNumeric(a, rows, n) && IsNumeric(b, n, m) && IsNumeric(c, m, cols) && rows > 0 && n > 0 && m > 0
    ensures Compatible(a, b) && Compatible(b, c)
    ensures Compatible(Product(a, b, EXACT), c) && Compatible(a, Product(b, c, EXACT))
    ensures Product(Product(a, b, EXACT), c, EXACT) == Product(a, Product(b, c, EXACT), EXACT)
  {
    ProductIsNumeric(a, b, rows, n, m);
    ProductIsNumeric(b, c, n, m, cols);
    var ab, bc := Product(a, b, EXACT), Product(b, c, EXACT);
    ProductIsNumeric(ab, c, rows, m, cols);
    ProductIsNumeric(a, bc, rows, n, cols);
    forall r, s | 0 <= r < rows && 0 <= s < cols ensures NumDot(ab, c, r, s, m) == NumDot(a, bc, r, s, n) {
      DotOfProduct(a, b, c, rows, n, m, r, s, m);
      DotWithProduct(a, b, c, n, m, cols, r, s, n);
      LeftIsRight(a, b, c, r, s, n, m);
    }
    SameNumbers(Product(ab, c, EXACT), Product(a, bc, EXACT), rows, cols);
  }
}
