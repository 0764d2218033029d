/** The `Just`/`Nil` algebra and 2-by-2 matrices of rust/matrix_mul/src/main.rs.

    In the source `Just` and `Nil` are distinct types and the operator
    implementations are chosen by type; here they are the two constructors
    of `Cell` and each operator is one function with a case per
    implementation.  `Nil` stands for an absent term: it is the identity of
    addition and the zero of multiplication.  `Weight` reads a cell as the
    number it contributes to a sum (0 for `Nil`); the operations are proved
    to be integer addition and multiplication on weights, together with
    exact rules for when a result is `Nil`. */
module MatrixMul {

  datatype Cell = Just(n: int) | Nil

  /** The number a cell contributes to a sum. */
  function Weight(c: Cell): int
  {
    match c
    case Just(x) => x
    case Nil => 0
  }

  /** `+`: `Just` values add; `Nil` on either side gives back the other operand. */
  function Add(a: Cell, b: Cell): (r: Cell)
    ensures r.Nil? <==> a.Nil? && b.Nil?
    ensures Weight(r) == Weight(a) + Weight(b)
  {
    match (a, b)
    case (Just(x), Just(y)) => Just(x + y)
    case (Just(_), Nil) => a
    case (Nil, Nil) => Nil
    case (Nil, Just(_)) => b
  }

  /** `*`: `Just` values multiply; any product with `Nil` is `Nil`. */
  function Mul(a: Cell, b: Cell): (r: Cell)
    ensures r.Nil? <==> a.Nil? || b.Nil?
    ensures Weight(r) == Weight(a) * Weight(b)
  {
    match (a, b)
    case (Just(x), Just(y)) => Just(x * y)
    case (Just(_), Nil) => Nil
    case (Nil, Nil) => Nil
    case (Nil, Just(_)) => Nil
  }

  /** `Nil` is a two-sided identity of addition. */
  lemma AddNilIdentity(a: Cell)
    ensures Add(a, Nil) == a && Add(Nil, a) == a
  {
  }

  /** `Nil` is a two-sided zero of multiplication, and `Just(1)` a
      two-sided identity. */
  lemma MulNilZero(a: Cell)
    ensures Mul(a, Nil) == Nil && Mul(Nil, a) == Nil
    ensures Mul(a, Just(1)) == a && Mul(Just(1), a) == a
  {
  }

  /** The dot product of a row pair with a column pair. */
  function Dot2(r: (Cell, Cell), c: (Cell, Cell)): (d: Cell)
    ensures d.Nil? <==> Mul(r.0, c.0).Nil? && Mul(r.1, c.1).Nil?
    ensures Weight(d) == Weight(r.0) * Weight(c.0) + Weight(r.1) * Weight(c.1)
  {
    Add(Mul(r.0, c.0), Mul(r.1, c.1))
  }

  /** The dot product of a row triple with a column triple: the pair
      product of the first two entries plus the product of the third. */
  function Dot3(r: (Cell, Cell, Cell), c: (Cell, Cell, Cell)): (d: Cell)
    ensures d.Nil? <==> Mul(r.0, c.0).Nil? && Mul(r.1, c.1).Nil? && Mul(r.2, c.2).Nil?
    ensures Weight(d) == Weight(r.0) * Weight(c.0) + Weight(r.1) * Weight(c.1)
                         + Weight(r.2) * Weight(c.2)
  {
    Add(Dot2((r.0, r.1), (c.0, c.1)), Mul(r.2, c.2))
  }

  /** A triple whose third entries are `Nil` has the pair's dot product. */
  lemma Dot3OfNilThird(r1: Cell, r2: Cell, c1: Cell, c2: Cell, r3: Cell, c3: Cell)
    requires r3.Nil? || c3.Nil?
    ensures Dot3((r1, r2, r3), (c1, c2, c3)) == Dot2((r1, r2), (c1, c2))
  {
  }

  datatype Matrix22 = Matrix22(ul: Cell, ur: Cell, ll: Cell, lr: Cell)

  /** `&a * &b`: each entry is the dot product of a row of `a` with a
      column of `b`. */
  function MatMul(a: Matrix22, b: Matrix22): (r: Matrix22)
    ensures forall i: nat, j: nat :: i < 2 && j < 2 ==> Entry(r, i, j) == Dot2(Row(a, i), Col(b, j))
  {
    Matrix22(Dot2((a.ul, a.ur), (b.ul, b.ll)), Dot2((a.ul, a.ur), (b.ur, b.lr)),
             Dot2((a.ll, a.lr), (b.ul, b.ll)), Dot2((a.ll, a.lr), (b.ur, b.lr)))
  }

  /** `&a + &b`: entrywise sums. */
  function MatAdd(a: Matrix22, b: Matrix22): (r: Matrix22)
    ensures forall i: nat, j: nat :: i < 2 && j < 2 ==> Entry(r, i, j) == Add(Entry(a, i, j), Entry(b, i, j))
  {
    Matrix22(Add(a.ul, b.ul), Add(a.ur, b.ur), Add(a.ll, b.ll), Add(a.lr, b.lr))
  }

  /** The entry in row `i` and column `j`, counting from 0. */
  function Entry(m: Matrix22, i: nat, j: nat): Cell
    requires i < 2 && j < 2
  {
    if i == 0 then (if j == 0 then m.ul else m.ur)
    else (if j == 0 then m.ll else m.lr)
  }

  function Row(m: Matrix22, i: nat): (Cell, Cell)
    requires i < 2
  {
    (Entry(m, i, 0), Entry(m, i, 1))
  }

  function Col(m: Matrix22, j: nat): (Cell, Cell)
    requires j < 2
  {
    (Entry(m, 0, j), Entry(m, 1, j))
  }

  /** Entry `(i, j)` of a product is row `i` of the left factor times
      column `j` of the right one; on weights this is the ordinary matrix
      product, and the entry is `Nil` exactly when every term is. */
  lemma MatMulEntry(a: Matrix22, b: Matrix22, i: nat, j: nat)
    requires i < 2 && j < 2
    ensures Entry(MatMul(a, b), i, j) == Dot2(Row(a, i), Col(b, j))
    ensures Weight(Entry(MatMul(a, b), i, j)) ==
            Weight(Entry(a, i, 0)) * Weight(Entry(b, 0, j)) + Weight(Entry(a, i, 1)) * Weight(Entry(b, 1, j))
    ensures Entry(MatMul(a, b), i, j).Nil? <==>
            Mul(Entry(a, i, 0), Entry(b, 0, j)).Nil? && Mul(Entry(a, i, 1), Entry(b, 1, j)).Nil?
  {
  }

  /** The identity matrix of the demonstration: `Just(1)` on the diagonal,
      `Nil` elsewhere. */
  function Identity(): (r: Matrix22)
    ensures forall i: nat, j: nat :: i < 2 && j < 2 ==> Entry(r, i, j) == if i == j then Just(1) else Nil
  {
    Matrix22(Just(1), Nil, Nil, Just(1))
  }

  /** The identity is a left identity, for every matrix. */
  lemma MatMulIdentityLeft(m: Matrix22)
    ensures MatMul(Identity(), m) == m
  {
    MulNilZero(m.ul); MulNilZero(m.ur); MulNilZero(m.ll); MulNilZero(m.lr);
    AddNilIdentity(m.ul); AddNilIdentity(m.ur); AddNilIdentity(m.ll); AddNilIdentity(m.lr);
  }

  /** The identity is a right identity, for every matrix. */
  lemma MatMulIdentityRight(m: Matrix22)
    ensures MatMul(m, Identity()) == m
  {
    MulNilZero(m.ul); MulNilZero(m.ur); MulNilZero(m.ll); MulNilZero(m.lr);
    AddNilIdentity(m.ul); AddNilIdentity(m.ur); AddNilIdentity(m.ll); AddNilIdentity(m.lr);
  }

  /** The identity squared is the identity, with its `Nil` entries kept. */
  lemma IdentitySquare()
    ensures MatMul(Identity(), Identity()) == Identity()
    ensures MatMul(Identity(), Identity()).ur.Nil? && MatMul(Identity(), Identity()).ll.Nil?
  {
    MatMulIdentityLeft(Identity());
  }

  /** The chain of products the demonstration computes from its input
      matrix; the matrix it prints is that input again. */
  function DemoChain(full: Matrix22): (r: Matrix22)
    ensures r == full
  {
    MatMulIdentityLeft(full);
    MatMulIdentityRight(full);
    var i := Identity();
    var r := MatMul(i, full);
    var r := MatMul(i, r);
    var r := MatMul(r, i);
    var r := MatMul(i, r);
    var r := MatMul(r, i);
    var r := MatMul(i, r);
    var r := MatMul(r, i);
    var r := MatMul(i, r);
    var r := MatMul(r, i);
    var r := MatMul(i, r);
    MatMul(r, i)
  }

  /** The all-`Nil` matrix is the identity of matrix addition. */
  lemma MatAddNilIdentity(m: Matrix22)
    ensures MatAdd(Matrix22(Nil, Nil, Nil, Nil), m) == m
    ensures MatAdd(m, Matrix22(Nil, Nil, Nil, Nil)) == m
  {
  }
}
