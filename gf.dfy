/**
 * Arithmetic in GF(2^8) with the AES polynomial x^8 + x^4 + x^3 + x + 1
 * (FIPS-197 section 4.2), as mixColumns and invMixColumns do it, and the two
 * column transformations built on it.
 *
 * Every byte function here is linear over xor. The proofs keep each step in
 * a lemma of its own and assemble results through the named sums below,
 * rather than let the solver bit-blast a whole column at once.
 */
module Gf {
  import opened Bytes

  /** xtime: multiplication by x, reduced by 0x1b when the top bit falls off. */
  function XTime(b: Byte): Byte
  {
    (b << 1) ^ (if b & 0x80 != 0 then 0x1b else 0)
  }

  /**
   * The product a * b as the loop of invMixColumns computes it: while both
   * are non-zero, add a when the low bit of b is set, halve b, double a.
   */
  function GfMul(a: Byte, b: Byte): Byte
    decreases b
  {
    if a == 0 || b == 0 then 0
    else (if b & 1 == 1 then a else 0) ^ GfMul(XTime(a), b >> 1)
  }

  /** Sums of two, three and four bytes: the boundaries the linearity proofs go through. */
  function Sum2(p: Byte, q: Byte): Byte
  {
    p ^ q
  }

  function Sum3(p: Byte, q: Byte, r: Byte): Byte
  {
    p ^ q ^ r
  }

  function Sum(p: Byte, q: Byte, r: Byte, s: Byte): Byte
  {
    p ^ q ^ r ^ s
  }

  /** Multiplication by 03, 09, 0b, 0d and 0e as sums of doublings. */
  function Mul3(b: Byte): Byte
  {
    Sum2(XTime(b), b)
  }

  function X2(b: Byte): Byte
  {
    XTime(XTime(b))
  }

  function X3(b: Byte): Byte
  {
    XTime(X2(b))
  }

  function Mul9(b: Byte): Byte
  {
    Sum2(X3(b), b)
  }

  function MulB(b: Byte): Byte
  {
    Sum3(X3(b), XTime(b), b)
  }

  function MulD(b: Byte): Byte
  {
    Sum3(X3(b), X2(b), b)
  }

  function MulE(b: Byte): Byte
  {
    Sum3(X3(b), X2(b), XTime(b))
  }

  // ---------------------------------------------------------------------------
  // The loop's product against the closed forms
  // ---------------------------------------------------------------------------

  /** One turn of the loop, valid even when a or b is already zero. */
  lemma GfMulStep(a: Byte, b: Byte)
    ensures GfMul(a, b) == (if b & 1 == 1 then a else 0) ^ GfMul(XTime(a), b >> 1)
  {
    if a == 0 {
      assert XTime(0) == 0;
      if b >> 1 != 0 {
        assert GfMul(0, b >> 1) == 0;
      }
    }
  }

  lemma GfMul9(x: Byte)
    ensures GfMul(0x09, x) == Mul9(x)
  {
    GfMulStep(0x09, x);
    GfMulStep(0x12, x >> 1);
    GfMulStep(0x24, x >> 1 >> 1);
    GfMulStep(0x48, x >> 1 >> 1 >> 1);
    GfMulStep(0x90, x >> 1 >> 1 >> 1 >> 1);
    GfMulStep(0x3b, x >> 1 >> 1 >> 1 >> 1 >> 1);
    GfMulStep(0x76, x >> 1 >> 1 >> 1 >> 1 >> 1 >> 1);
    GfMulStep(0xec, x >> 1 >> 1 >> 1 >> 1 >> 1 >> 1 >> 1);
    assert x >> 1 >> 1 >> 1 >> 1 >> 1 >> 1 >> 1 >> 1 == 0;
  }

  lemma GfMulB(x: Byte)
    ensures GfMul(0x0b, x) == MulB(x)
  {
    GfMulStep(0x0b, x);
    GfMulStep(0x16, x >> 1);
    GfMulStep(0x2c, x >> 1 >> 1);
    GfMulStep(0x58, x >> 1 >> 1 >> 1);
    GfMulStep(0xb0, x >> 1 >> 1 >> 1 >> 1);
    GfMulStep(0x7b, x >> 1 >> 1 >> 1 >> 1 >> 1);
    GfMulStep(0xf6, x >> 1 >> 1 >> 1 >> 1 >> 1 >> 1);
    GfMulStep(0xf7, x >> 1 >> 1 >> 1 >> 1 >> 1 >> 1 >> 1);
    assert x >> 1 >> 1 >> 1 >> 1 >> 1 >> 1 >> 1 >> 1 == 0;
  }

  lemma GfMulD(x: Byte)
    ensures GfMul(0x0d, x) == MulD(x)
  {
    GfMulStep(0x0d, x);
    GfMulStep(0x1a, x >> 1);
    GfMulStep(0x34, x >> 1 >> 1);
    GfMulStep(0x68, x >> 1 >> 1 >> 1);
    GfMulStep(0xd0, x >> 1 >> 1 >> 1 >> 1);
    GfMulStep(0xbb, x >> 1 >> 1 >> 1 >> 1 >> 1);
    GfMulStep(0x6d, x >> 1 >> 1 >> 1 >> 1 >> 1 >> 1);
    GfMulStep(0xda, x >> 1 >> 1 >> 1 >> 1 >> 1 >> 1 >> 1);
    assert x >> 1 >> 1 >> 1 >> 1 >> 1 >> 1 >> 1 >> 1 == 0;
  }

  lemma GfMulE(x: Byte)
    ensures GfMul(0x0e, x) == MulE(x)
  {
    GfMulStep(0x0e, x);
    GfMulStep(0x1c, x >> 1);
    GfMulStep(0x38, x >> 1 >> 1);
    GfMulStep(0x70, x >> 1 >> 1 >> 1);
    GfMulStep(0xe0, x >> 1 >> 1 >> 1 >> 1);
    GfMulStep(0xdb, x >> 1 >> 1 >> 1 >> 1 >> 1);
    GfMulStep(0xad, x >> 1 >> 1 >> 1 >> 1 >> 1 >> 1);
    GfMulStep(0x41, x >> 1 >> 1 >> 1 >> 1 >> 1 >> 1 >> 1);
    assert x >> 1 >> 1 >> 1 >> 1 >> 1 >> 1 >> 1 >> 1 == 0;
  }

  // ---------------------------------------------------------------------------
  // Linearity
  //
  // Each map F has F(x ^ y) == F(x) ^ F(y). The "Of" lemmas state the same
  // for a byte a equal to a1 ^ a2, as an implication: the proofs of the
  // composite maps hand them the facts they already have, and the solver
  // only has to match them.
  // ---------------------------------------------------------------------------

  lemma Sum2Of(a: Byte, b: Byte, a1: Byte, b1: Byte, a2: Byte, b2: Byte, r: Byte, r1: Byte, r2: Byte)
    ensures a == a1 ^ a2 && b == b1 ^ b2 && r == Sum2(a, b) && r1 == Sum2(a1, b1) && r2 == Sum2(a2, b2) ==>
              r == r1 ^ r2
  {
  }

  lemma Sum3Of(a: Byte, b: Byte, c: Byte, a1: Byte, b1: Byte, c1: Byte, a2: Byte, b2: Byte, c2: Byte,
               r: Byte, r1: Byte, r2: Byte)
    ensures (a == a1 ^ a2 && b == b1 ^ b2 && c == c1 ^ c2 &&
             r == Sum3(a, b, c) && r1 == Sum3(a1, b1, c1) && r2 == Sum3(a2, b2, c2)) ==> r == r1 ^ r2
  {
  }

  lemma SumOf(a: Byte, b: Byte, c: Byte, d: Byte, a1: Byte, b1: Byte, c1: Byte, d1: Byte,
              a2: Byte, b2: Byte, c2: Byte, d2: Byte, r: Byte, r1: Byte, r2: Byte)
    ensures (a == a1 ^ a2 && b == b1 ^ b2 && c == c1 ^ c2 && d == d1 ^ d2 &&
             r == Sum(a, b, c, d) && r1 == Sum(a1, b1, c1, d1) && r2 == Sum(a2, b2, c2, d2)) ==> r == r1 ^ r2
  {
  }

  lemma ShiftXor(x: Byte, y: Byte)
    ensures (x ^ y) << 1 == (x << 1) ^ (y << 1)
  {
  }

  /** Multiplication by x distributes over addition. */
  lemma XTimeLinear(x: Byte, y: Byte)
    ensures XTime(x ^ y) == XTime(x) ^ XTime(y)
  {
    ShiftXor(x, y);
    if x & 0x80 != 0 {
      if y & 0x80 != 0 {
        assert (x ^ y) & 0x80 == 0;
      } else {
        assert (x ^ y) & 0x80 != 0;
      }
    } else {
      if y & 0x80 != 0 {
        assert (x ^ y) & 0x80 != 0;
      } else {
        assert (x ^ y) & 0x80 == 0;
      }
    }
  }

  lemma XTimeOf(a: Byte, a1: Byte, a2: Byte, r: Byte, r1: Byte, r2: Byte)
    ensures a == a1 ^ a2 && r == XTime(a) && r1 == XTime(a1) && r2 == XTime(a2) ==> r == r1 ^ r2
  {
    XTimeLinear(a1, a2);
  }

  lemma X2Linear(x: Byte, y: Byte)
    ensures X2(x ^ y) == X2(x) ^ X2(y)
  {
    XTimeLinear(x, y);
    XTimeOf(XTime(x ^ y), XTime(x), XTime(y), X2(x ^ y), X2(x), X2(y));
  }

  lemma X3Linear(x: Byte, y: Byte)
    ensures X3(x ^ y) == X3(x) ^ X3(y)
  {
    X2Linear(x, y);
    XTimeOf(X2(x ^ y), X2(x), X2(y), X3(x ^ y), X3(x), X3(y));
  }

  lemma Mul3Linear(x: Byte, y: Byte)
    ensures Mul3(x ^ y) == Mul3(x) ^ Mul3(y)
  {
    XTimeLinear(x, y);
    Sum2Of(XTime(x ^ y), x ^ y, XTime(x), x, XTime(y), y, Mul3(x ^ y), Mul3(x), Mul3(y));
  }

  lemma Mul9Linear(x: Byte, y: Byte)
    ensures Mul9(x ^ y) == Mul9(x) ^ Mul9(y)
  {
    X3Linear(x, y);
    Sum2Of(X3(x ^ y), x ^ y, X3(x), x, X3(y), y, Mul9(x ^ y), Mul9(x), Mul9(y));
  }

  lemma MulBLinear(x: Byte, y: Byte)
    ensures MulB(x ^ y) == MulB(x) ^ MulB(y)
  {
    X3Linear(x, y);
    XTimeLinear(x, y);
    Sum3Of(X3(x ^ y), XTime(x ^ y), x ^ y, X3(x), XTime(x), x, X3(y), XTime(y), y, MulB(x ^ y), MulB(x), MulB(y));
  }

  lemma MulDLinear(x: Byte, y: Byte)
    ensures MulD(x ^ y) == MulD(x) ^ MulD(y)
  {
    X3Linear(x, y);
    X2Linear(x, y);
    Sum3Of(X3(x ^ y), X2(x ^ y), x ^ y, X3(x), X2(x), x, X3(y), X2(y), y, MulD(x ^ y), MulD(x), MulD(y));
  }

  lemma MulELinear(x: Byte, y: Byte)
    ensures MulE(x ^ y) == MulE(x) ^ MulE(y)
  {
    X3Linear(x, y);
    X2Linear(x, y);
    XTimeLinear(x, y);
    Sum3Of(X3(x ^ y), X2(x ^ y), XTime(x ^ y), X3(x), X2(x), XTime(x), X3(y), X2(y), XTime(y),
           MulE(x ^ y), MulE(x), MulE(y));
  }

  // ---------------------------------------------------------------------------
  // Columns
  // ---------------------------------------------------------------------------

  /** One column of the state, top to bottom. */
  datatype Column = Column(a0: Byte, a1: Byte, a2: Byte, a3: Byte)

  /**
   * Row 0 of the MixColumns matrix [02 03 01 01] (FIPS-197 equation 5.6);
   * row r is the same sum over the column rotated up by r.
   */
  function Row(p: Byte, q: Byte, r: Byte, s: Byte): Byte
  {
    Sum(XTime(p), Mul3(q), r, s)
  }

  /** Row 0 of the InvMixColumns matrix [0e 0b 0d 09] (FIPS-197 equation 5.10). */
  function InvRow(p: Byte, q: Byte, r: Byte, s: Byte): Byte
  {
    Sum(MulE(p), MulB(q), MulD(r), Mul9(s))
  }

  function Mix(c: Column): Column
  {
    Column(Row(c.a0, c.a1, c.a2, c.a3), Row(c.a1, c.a2, c.a3, c.a0),
           Row(c.a2, c.a3, c.a0, c.a1), Row(c.a3, c.a0, c.a1, c.a2))
  }

  function InvMix(c: Column): Column
  {
    Column(InvRow(c.a0, c.a1, c.a2, c.a3), InvRow(c.a1, c.a2, c.a3, c.a0),
           InvRow(c.a2, c.a3, c.a0, c.a1), InvRow(c.a3, c.a0, c.a1, c.a2))
  }

  lemma SumCongruent(a: Byte, b: Byte, c: Byte, d: Byte, a': Byte, b': Byte, c': Byte, d': Byte, t: Byte)
    ensures a == a' && b == b' && c == c' && d == d' && t == Sum(a', b', c', d') ==> Sum(a, b, c, d) == t
  {
  }

  /** A row of InvMixColumns computed with the loop's products is the closed form. */
  lemma InvRowByGfMul(p: Byte, q: Byte, r: Byte, s: Byte)
    ensures Sum(GfMul(0x0e, p), GfMul(0x0b, q), GfMul(0x0d, r), GfMul(0x09, s)) == InvRow(p, q, r, s)
  {
    GfMulE(p);
    GfMulB(q);
    GfMulD(r);
    GfMul9(s);
    SumCongruent(GfMul(0x0e, p), GfMul(0x0b, q), GfMul(0x0d, r), GfMul(0x09, s), MulE(p), MulB(q), MulD(r), Mul9(s),
                 InvRow(p, q, r, s));
  }

  lemma RowLinear(p: Byte, q: Byte, r: Byte, s: Byte, p': Byte, q': Byte, r': Byte, s': Byte)
    ensures Row(p ^ p', q ^ q', r ^ r', s ^ s') == Row(p, q, r, s) ^ Row(p', q', r', s')
  {
    XTimeLinear(p, p');
    Mul3Linear(q, q');
    SumOf(XTime(p ^ p'), Mul3(q ^ q'), r ^ r', s ^ s', XTime(p), Mul3(q), r, s, XTime(p'), Mul3(q'), r', s',
          Row(p ^ p', q ^ q', r ^ r', s ^ s'), Row(p, q, r, s), Row(p', q', r', s'));
  }

  lemma InvRowLinear(p: Byte, q: Byte, r: Byte, s: Byte, p': Byte, q': Byte, r': Byte, s': Byte)
    ensures InvRow(p ^ p', q ^ q', r ^ r', s ^ s') == InvRow(p, q, r, s) ^ InvRow(p', q', r', s')
  {
    MulELinear(p, p');
    MulBLinear(q, q');
    MulDLinear(r, r');
    Mul9Linear(s, s');
    SumOf(MulE(p ^ p'), MulB(q ^ q'), MulD(r ^ r'), Mul9(s ^ s'), MulE(p), MulB(q), MulD(r), Mul9(s),
          MulE(p'), MulB(q'), MulD(r'), Mul9(s'),
          InvRow(p ^ p', q ^ q', r ^ r', s ^ s'), InvRow(p, q, r, s), InvRow(p', q', r', s'));
  }

  lemma InvRowOf(p: Byte, q: Byte, r: Byte, s: Byte, p1: Byte, q1: Byte, r1: Byte, s1: Byte,
                 p2: Byte, q2: Byte, r2: Byte, s2: Byte, t: Byte, t1: Byte, t2: Byte)
    ensures (p == p1 ^ p2 && q == q1 ^ q2 && r == r1 ^ r2 && s == s1 ^ s2 &&
             t == InvRow(p, q, r, s) && t1 == InvRow(p1, q1, r1, s1) && t2 == InvRow(p2, q2, r2, s2)) ==> t == t1 ^ t2
  {
    InvRowLinear(p1, q1, r1, s1, p2, q2, r2, s2);
  }

  /** Row 0 of InvMix after Mix, as a function of the column. */
  function InvMixRow(a0: Byte, a1: Byte, a2: Byte, a3: Byte): Byte
  {
    InvRow(Row(a0, a1, a2, a3), Row(a1, a2, a3, a0), Row(a2, a3, a0, a1), Row(a3, a0, a1, a2))
  }

  lemma InvMixRowLinear(a0: Byte, a1: Byte, a2: Byte, a3: Byte, b0: Byte, b1: Byte, b2: Byte, b3: Byte)
    ensures InvMixRow(a0 ^ b0, a1 ^ b1, a2 ^ b2, a3 ^ b3) == InvMixRow(a0, a1, a2, a3) ^ InvMixRow(b0, b1, b2, b3)
  {
    RowLinear(a0, a1, a2, a3, b0, b1, b2, b3);
    RowLinear(a1, a2, a3, a0, b1, b2, b3, b0);
    RowLinear(a2, a3, a0, a1, b2, b3, b0, b1);
    RowLinear(a3, a0, a1, a2, b3, b0, b1, b2);
    InvRowOf(Row(a0 ^ b0, a1 ^ b1, a2 ^ b2, a3 ^ b3), Row(a1 ^ b1, a2 ^ b2, a3 ^ b3, a0 ^ b0),
             Row(a2 ^ b2, a3 ^ b3, a0 ^ b0, a1 ^ b1), Row(a3 ^ b3, a0 ^ b0, a1 ^ b1, a2 ^ b2),
             Row(a0, a1, a2, a3), Row(a1, a2, a3, a0), Row(a2, a3, a0, a1), Row(a3, a0, a1, a2),
             Row(b0, b1, b2, b3), Row(b1, b2, b3, b0), Row(b2, b3, b0, b1), Row(b3, b0, b1, b2),
             InvMixRow(a0 ^ b0, a1 ^ b1, a2 ^ b2, a3 ^ b3), InvMixRow(a0, a1, a2, a3), InvMixRow(b0, b1, b2, b3));
  }

  /** Mix applied to a column with a single non-zero byte x. */
  lemma RowOfUnit(x: Byte)
    ensures Row(x, 0, 0, 0) == XTime(x) && Row(0, x, 0, 0) == Mul3(x)
    ensures Row(0, 0, x, 0) == x && Row(0, 0, 0, x) == x
  {
    assert XTime(0) == 0 && Mul3(0) == 0;
  }

  /** The four identities in the field that make InvMixColumns the inverse of MixColumns. */
  lemma FieldIdentity0(x: Byte)
    ensures Sum(MulE(XTime(x)), MulB(x), MulD(x), Mul9(Mul3(x))) == x
  {
    var hi := x >> 4;
    assert hi == 0 || hi == 1 || hi == 2 || hi == 3 || hi == 4 || hi == 5 || hi == 6 || hi == 7
      || hi == 8 || hi == 9 || hi == 10 || hi == 11 || hi == 12 || hi == 13 || hi == 14 || hi == 15;
  }

  lemma FieldIdentity1(x: Byte)
    ensures Sum(MulE(Mul3(x)), MulB(XTime(x)), MulD(x), Mul9(x)) == 0
  {
    var hi := x >> 4;
    assert hi == 0 || hi == 1 || hi == 2 || hi == 3 || hi == 4 || hi == 5 || hi == 6 || hi == 7
      || hi == 8 || hi == 9 || hi == 10 || hi == 11 || hi == 12 || hi == 13 || hi == 14 || hi == 15;
  }

  lemma FieldIdentity2(x: Byte)
    ensures Sum(MulE(x), MulB(Mul3(x)), MulD(XTime(x)), Mul9(x)) == 0
  {
    var hi := x >> 4;
    assert hi == 0 || hi == 1 || hi == 2 || hi == 3 || hi == 4 || hi == 5 || hi == 6 || hi == 7
      || hi == 8 || hi == 9 || hi == 10 || hi == 11 || hi == 12 || hi == 13 || hi == 14 || hi == 15;
  }

  lemma FieldIdentity3(x: Byte)
    ensures Sum(MulE(x), MulB(x), MulD(Mul3(x)), Mul9(XTime(x))) == 0
  {
    var hi := x >> 4;
    assert hi == 0 || hi == 1 || hi == 2 || hi == 3 || hi == 4 || hi == 5 || hi == 6 || hi == 7
      || hi == 8 || hi == 9 || hi == 10 || hi == 11 || hi == 12 || hi == 13 || hi == 14 || hi == 15;
  }

  lemma InvMixRowUnit0(x: Byte)
    ensures InvMixRow(x, 0, 0, 0) == x
  {
    RowOfUnit(x);
    FieldIdentity0(x);
  }

  lemma InvMixRowUnit1(x: Byte)
    ensures InvMixRow(0, x, 0, 0) == 0
  {
    RowOfUnit(x);
    FieldIdentity1(x);
  }

  lemma InvMixRowUnit2(x: Byte)
    ensures InvMixRow(0, 0, x, 0) == 0
  {
    RowOfUnit(x);
    FieldIdentity2(x);
  }

  lemma InvMixRowUnit3(x: Byte)
    ensures InvMixRow(0, 0, 0, x) == 0
  {
    RowOfUnit(x);
    FieldIdentity3(x);
  }

  lemma InvMixRowOf(a0: Byte, a1: Byte, a2: Byte, a3: Byte, b0: Byte, b1: Byte, b2: Byte, b3: Byte,
                    c0: Byte, c1: Byte, c2: Byte, c3: Byte, t: Byte, t1: Byte, t2: Byte)
    ensures (a0 == b0 ^ c0 && a1 == b1 ^ c1 && a2 == b2 ^ c2 && a3 == b3 ^ c3 &&
             t == InvMixRow(a0, a1, a2, a3) && t1 == InvMixRow(b0, b1, b2, b3) && t2 == InvMixRow(c0, c1, c2, c3)) ==>
              t == t1 ^ t2
  {
    InvMixRowLinear(b0, b1, b2, b3, c0, c1, c2, c3);
  }

  /** The last step of InvMixRowIdentity: the three contributions other than a0's vanish. */
  lemma Collect(t: Byte, a0: Byte, r1: Byte, t1: Byte, r2: Byte, t2: Byte, t3: Byte)
    ensures t == a0 ^ r1 && r1 == t1 ^ r2 && r2 == t2 ^ t3 && t1 == 0 && t2 == 0 && t3 == 0 ==> t == a0
  {
  }

  /** Row 0 of InvMix(Mix(c)) is c.a0, for every column. */
  lemma InvMixRowIdentity(a0: Byte, a1: Byte, a2: Byte, a3: Byte)
    ensures InvMixRow(a0, a1, a2, a3) == a0
  {
    var t, u0, r1 := InvMixRow(a0, a1, a2, a3), InvMixRow(a0, 0, 0, 0), InvMixRow(0, a1, a2, a3);
    var u1, r2 := InvMixRow(0, a1, 0, 0), InvMixRow(0, 0, a2, a3);
    var u2, u3 := InvMixRow(0, 0, a2, 0), InvMixRow(0, 0, 0, a3);
    InvMixRowOf(a0, a1, a2, a3, a0, 0, 0, 0, 0, a1, a2, a3, t, u0, r1);
    InvMixRowOf(0, a1, a2, a3, 0, a1, 0, 0, 0, 0, a2, a3, r1, u1, r2);
    InvMixRowOf(0, 0, a2, a3, 0, 0, a2, 0, 0, 0, 0, a3, r2, u2, u3);
    InvMixRowUnit0(a0);
    InvMixRowUnit1(a1);
    InvMixRowUnit2(a2);
    InvMixRowUnit3(a3);
    Collect(t, a0, r1, u1, r2, u2, u3);
  }

  /** InvMixColumns undoes MixColumns on every column. */
  lemma InvMixMix(c: Column)
    ensures InvMix(Mix(c)) == c
  {
    InvMixRowIdentity(c.a0, c.a1, c.a2, c.a3);
    InvMixRowIdentity(c.a1, c.a2, c.a3, c.a0);
    InvMixRowIdentity(c.a2, c.a3, c.a0, c.a1);
    InvMixRowIdentity(c.a3, c.a0, c.a1, c.a2);
  }

  // ---------------------------------------------------------------------------
  // The other order: MixColumns undoes InvMixColumns
  // ---------------------------------------------------------------------------

  lemma RowOf(p: Byte, q: Byte, r: Byte, s: Byte, p1: Byte, q1: Byte, r1: Byte, s1: Byte,
              p2: Byte, q2: Byte, r2: Byte, s2: Byte, t: Byte, t1: Byte, t2: Byte)
    ensures (p == p1 ^ p2 && q == q1 ^ q2 && r == r1 ^ r2 && s == s1 ^ s2 &&
             t == Row(p, q, r, s) && t1 == Row(p1, q1, r1, s1) && t2 == Row(p2, q2, r2, s2)) ==> t == t1 ^ t2
  {
    RowLinear(p1, q1, r1, s1, p2, q2, r2, s2);
  }

  /** Row 0 of Mix after InvMix, as a function of the column. */
  function MixRow(a0: Byte, a1: Byte, a2: Byte, a3: Byte): Byte
  {
    Row(InvRow(a0, a1, a2, a3), InvRow(a1, a2, a3, a0), InvRow(a2, a3, a0, a1), InvRow(a3, a0, a1, a2))
  }

  lemma MixRowLinear(a0: Byte, a1: Byte, a2: Byte, a3: Byte, b0: Byte, b1: Byte, b2: Byte, b3: Byte)
    ensures MixRow(a0 ^ b0, a1 ^ b1, a2 ^ b2, a3 ^ b3) == MixRow(a0, a1, a2, a3) ^ MixRow(b0, b1, b2, b3)
  {
    InvRowLinear(a0, a1, a2, a3, b0, b1, b2, b3);
    InvRowLinear(a1, a2, a3, a0, b1, b2, b3, b0);
    InvRowLinear(a2, a3, a0, a1, b2, b3, b0, b1);
    InvRowLinear(a3, a0, a1, a2, b3, b0, b1, b2);
    RowOf(InvRow(a0 ^ b0, a1 ^ b1, a2 ^ b2, a3 ^ b3), InvRow(a1 ^ b1, a2 ^ b2, a3 ^ b3, a0 ^ b0),
          InvRow(a2 ^ b2, a3 ^ b3, a0 ^ b0, a1 ^ b1), InvRow(a3 ^ b3, a0 ^ b0, a1 ^ b1, a2 ^ b2),
          InvRow(a0, a1, a2, a3), InvRow(a1, a2, a3, a0), InvRow(a2, a3, a0, a1), InvRow(a3, a0, a1, a2),
          InvRow(b0, b1, b2, b3), InvRow(b1, b2, b3, b0), InvRow(b2, b3, b0, b1), InvRow(b3, b0, b1, b2),
          MixRow(a0 ^ b0, a1 ^ b1, a2 ^ b2, a3 ^ b3), MixRow(a0, a1, a2, a3), MixRow(b0, b1, b2, b3));
  }

  /** InvMix applied to a column with a single non-zero byte x. */
  lemma InvRowOfUnit(x: Byte)
    ensures InvRow(x, 0, 0, 0) == MulE(x) && InvRow(0, x, 0, 0) == MulB(x)
    ensures InvRow(0, 0, x, 0) == MulD(x) && InvRow(0, 0, 0, x) == Mul9(x)
  {
    assert XTime(0) == 0 && X2(0) == 0 && X3(0) == 0;
    assert MulE(0) == 0 && MulB(0) == 0 && MulD(0) == 0 && Mul9(0) == 0;
  }

  /** The four identities in the field that make MixColumns the inverse of InvMixColumns. */
  lemma InvFieldIdentity0(x: Byte)
    ensures Sum(XTime(MulE(x)), Mul3(Mul9(x)), MulD(x), MulB(x)) == x
  {
    var hi := x >> 4;
    assert hi == 0 || hi == 1 || hi == 2 || hi == 3 || hi == 4 || hi == 5 || hi == 6 || hi == 7
      || hi == 8 || hi == 9 || hi == 10 || hi == 11 || hi == 12 || hi == 13 || hi == 14 || hi == 15;
  }

  lemma InvFieldIdentity1(x: Byte)
    ensures Sum(XTime(MulB(x)), Mul3(MulE(x)), Mul9(x), MulD(x)) == 0
  {
    var hi := x >> 4;
    assert hi == 0 || hi == 1 || hi == 2 || hi == 3 || hi == 4 || hi == 5 || hi == 6 || hi == 7
      || hi == 8 || hi == 9 || hi == 10 || hi == 11 || hi == 12 || hi == 13 || hi == 14 || hi == 15;
  }

  lemma InvFieldIdentity2(x: Byte)
    ensures Sum(XTime(MulD(x)), Mul3(MulB(x)), MulE(x), Mul9(x)) == 0
  {
    var hi := x >> 4;
    assert hi == 0 || hi == 1 || hi == 2 || hi == 3 || hi == 4 || hi == 5 || hi == 6 || hi == 7
      || hi == 8 || hi == 9 || hi == 10 || hi == 11 || hi == 12 || hi == 13 || hi == 14 || hi == 15;
  }

  lemma InvFieldIdentity3(x: Byte)
    ensures Sum(XTime(Mul9(x)), Mul3(MulD(x)), MulB(x), MulE(x)) == 0
  {
    var hi := x >> 4;
    assert hi == 0 || hi == 1 || hi == 2 || hi == 3 || hi == 4 || hi == 5 || hi == 6 || hi == 7
      || hi == 8 || hi == 9 || hi == 10 || hi == 11 || hi == 12 || hi == 13 || hi == 14 || hi == 15;
  }

  lemma MixRowUnit0(x: Byte)
    ensures MixRow(x, 0, 0, 0) == x
  {
    InvRowOfUnit(x);
    InvFieldIdentity0(x);
  }

  lemma MixRowUnit1(x: Byte)
    ensures MixRow(0, x, 0, 0) == 0
  {
    InvRowOfUnit(x);
    InvFieldIdentity1(x);
  }

  lemma MixRowUnit2(x: Byte)
    ensures MixRow(0, 0, x, 0) == 0
  {
    InvRowOfUnit(x);
    InvFieldIdentity2(x);
  }

  lemma MixRowUnit3(x: Byte)
    ensures MixRow(0, 0, 0, x) == 0
  {
    InvRowOfUnit(x);
    InvFieldIdentity3(x);
  }

  lemma MixRowOf(a0: Byte, a1: Byte, a2: Byte, a3: Byte, b0: Byte, b1: Byte, b2: Byte, b3: Byte,
                 c0: Byte, c1: Byte, c2: Byte, c3: Byte, t: Byte, t1: Byte, t2: Byte)
    ensures (a0 == b0 ^ c0 && a1 == b1 ^ c1 && a2 == b2 ^ c2 && a3 == b3 ^ c3 &&
             t == MixRow(a0, a1, a2, a3) && t1 == MixRow(b0, b1, b2, b3) && t2 == MixRow(c0, c1, c2, c3)) ==>
              t == t1 ^ t2
  {
    MixRowLinear(b0, b1, b2, b3, c0, c1, c2, c3);
  }

  /** Row 0 of Mix(InvMix(c)) is c.a0, for every column. */
  lemma MixRowIdentity(a0: Byte, a1: Byte, a2: Byte, a3: Byte)
    ensures MixRow(a0, a1, a2, a3) == a0
  {
    var t, u0, r1 := MixRow(a0, a1, a2, a3), MixRow(a0, 0, 0, 0), MixRow(0, a1, a2, a3);
    var u1, r2 := MixRow(0, a1, 0, 0), MixRow(0, 0, a2, a3);
    var u2, u3 := MixRow(0, 0, a2, 0), MixRow(0, 0, 0, a3);
    MixRowOf(a0, a1, a2, a3, a0, 0, 0, 0, 0, a1, a2, a3, t, u0, r1);
    MixRowOf(0, a1, a2, a3, 0, a1, 0, 0, 0, 0, a2, a3, r1, u1, r2);
    MixRowOf(0, 0, a2, a3, 0, 0, a2, 0, 0, 0, 0, a3, r2, u2, u3);
    MixRowUnit0(a0);
    MixRowUnit1(a1);
    MixRowUnit2(a2);
    MixRowUnit3(a3);
    Collect(t, a0, r1, u1, r2, u2, u3);
  }

  /** MixColumns undoes InvMixColumns on every column: the two matrices are inverse both ways. */
  lemma MixInvMix(c: Column)
    ensures Mix(InvMix(c)) == c
  {
    MixRowIdentity(c.a0, c.a1, c.a2, c.a3);
    MixRowIdentity(c.a1, c.a2, c.a3, c.a0);
    MixRowIdentity(c.a2, c.a3, c.a0, c.a1);
    MixRowIdentity(c.a3, c.a0, c.a1, c.a2);
  }
}
