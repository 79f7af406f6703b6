/**
 * The block cipher of aes_cipher.cpp as it runs: every step works in place
 * on the 16-byte state array, and the key schedule is an array of words.
 * Each procedure is proved to compute the function of CipherSpec that
 * FIPS-197 defines for it.
 */
module AesCipher {
  import opened Bytes
  import opened Gf
  import opened Lookups
  import CS = CipherSpec
  import TypesHelper

  // ---------------------------------------------------------------------------
  // SubBytes and InvSubBytes
  // ---------------------------------------------------------------------------

  /** f applied to each byte of s. */
  function MapBytes(f: Byte -> Byte, s: seq<Byte>): (r: seq<Byte>)
    ensures |r| == |s|
    ensures forall j | 0 <= j < |s| :: r[j] == f(s[j])
  {
    if |s| == 0 then [] else MapBytes(f, s[..|s| - 1]) + [f(s[|s| - 1])]
  }

  /** MapBytes over one more byte. */
  lemma MapBytesStep(f: Byte -> Byte, s: seq<Byte>, i: nat)
    requires i < |s|
    ensures MapBytes(f, s[..i + 1]) == MapBytes(f, s[..i]) + [f(s[i])]
  {
    assert s[..i + 1][..i] == s[..i];
  }

  /** Sixteen bytes through the S-box, one by one, hold the state through SubBytes. */
  lemma SubBytesCells(a: Block, b: Block)
    requires b == MapBytes(SubByte, a)
    ensures CS.FromCells(b) == CS.SubBytes(CS.FromCells(a))
  {
  }

  /** Likewise for the inverse S-box and InvSubBytes. */
  lemma InvSubBytesCells(a: Block, b: Block)
    requires b == MapBytes(InvSubByte, a)
    ensures CS.FromCells(b) == CS.InvSubBytes(CS.FromCells(a))
  {
  }

  /** subBytes: each byte through the S-box. */
  method SubBytes(state: array<Byte>)
    requires state.Length == 16
    modifies state
    ensures CS.FromCells(state[..]) == CS.SubBytes(CS.FromCells(old(state[..])))
  {
    ghost var a := state[..];
    for i := 0 to 16
      invariant state[..i] == MapBytes(SubByte, a[..i])
      invariant state[i..] == a[i..]
    {
      ghost var done := state[..i];
      state[i] := SubByte(state[i]);
      assert state[..i + 1] == done + [SubByte(a[i])];
      MapBytesStep(SubByte, a, i);
    }
    assert state[..] == state[..16] && a == a[..16];
    SubBytesCells(a, state[..]);
  }

  /** invSubBytes: each byte through the inverse S-box. */
  method InvSubBytes(state: array<Byte>)
    requires state.Length == 16
    modifies state
    ensures CS.FromCells(state[..]) == CS.InvSubBytes(CS.FromCells(old(state[..])))
  {
    ghost var a := state[..];
    for i := 0 to 16
      invariant state[..i] == MapBytes(InvSubByte, a[..i])
      invariant state[i..] == a[i..]
    {
      ghost var done := state[..i];
      state[i] := InvSubByte(state[i]);
      assert state[..i + 1] == done + [InvSubByte(a[i])];
      MapBytesStep(InvSubByte, a, i);
    }
    assert state[..] == state[..16] && a == a[..16];
    InvSubBytesCells(a, state[..]);
  }

  // ---------------------------------------------------------------------------
  // ShiftRows and InvShiftRows: rotations written as chains of moves
  // ---------------------------------------------------------------------------

  /** Bytes moved as ShiftRows moves them (row r rotated left by r) hold the shifted state. */
  lemma ShiftRowsCells(a: Block, b: array<Byte>)
    requires b.Length == 16
    requires b[0] == a[0] && b[1] == a[5] && b[2] == a[10] && b[3] == a[15]
    requires b[4] == a[4] && b[5] == a[9] && b[6] == a[14] && b[7] == a[3]
    requires b[8] == a[8] && b[9] == a[13] && b[10] == a[2] && b[11] == a[7]
    requires b[12] == a[12] && b[13] == a[1] && b[14] == a[6] && b[15] == a[11]
    ensures CS.FromCells(b[..]) == CS.ShiftRows(CS.FromCells(a))
  {
  }

  /** Likewise, row r rotated right by r, for InvShiftRows. */
  lemma InvShiftRowsCells(a: Block, b: array<Byte>)
    requires b.Length == 16
    requires b[0] == a[0] && b[1] == a[13] && b[2] == a[10] && b[3] == a[7]
    requires b[4] == a[4] && b[5] == a[1] && b[6] == a[14] && b[7] == a[11]
    requires b[8] == a[8] && b[9] == a[5] && b[10] == a[2] && b[11] == a[15]
    requires b[12] == a[12] && b[13] == a[9] && b[14] == a[6] && b[15] == a[3]
    ensures CS.FromCells(b[..]) == CS.InvShiftRows(CS.FromCells(a))
  {
  }

  /** Row r rotated left by one: `tmp = c0; c0 = c1; c1 = c2; c2 = c3; c3 = tmp`. */
  method RotateRowLeft(state: array<Byte>, r: nat)
    requires state.Length == 16 && r < 4
    modifies state
    ensures state[r] == old(state[r + 4]) && state[r + 4] == old(state[r + 8])
    ensures state[r + 8] == old(state[r + 12]) && state[r + 12] == old(state[r])
    ensures forall j | 0 <= j < 16 && j != r && j != r + 4 && j != r + 8 && j != r + 12 :: state[j] == old(state[j])
  {
    var tmp := state[r + 4 * 0];
    state[r + 4 * 0] := state[r + 4 * 1];
    state[r + 4 * 1] := state[r + 4 * 2];
    state[r + 4 * 2] := state[r + 4 * 3];
    state[r + 4 * 3] := tmp;
  }

  /** Row r rotated right by one: `tmp = c3; c3 = c2; c2 = c1; c1 = c0; c0 = tmp`. */
  method RotateRowRight(state: array<Byte>, r: nat)
    requires state.Length == 16 && r < 4
    modifies state
    ensures state[r] == old(state[r + 12]) && state[r + 4] == old(state[r])
    ensures state[r + 8] == old(state[r + 4]) && state[r + 12] == old(state[r + 8])
    ensures forall j | 0 <= j < 16 && j != r && j != r + 4 && j != r + 8 && j != r + 12 :: state[j] == old(state[j])
  {
    var tmp := state[r + 4 * 3];
    state[r + 4 * 3] := state[r + 4 * 2];
    state[r + 4 * 2] := state[r + 4 * 1];
    state[r + 4 * 1] := state[r + 4 * 0];
    state[r + 4 * 0] := tmp;
  }

  /** Row r rotated by two: columns 0 and 2 swapped, then columns 1 and 3. */
  method SwapRowHalves(state: array<Byte>, r: nat)
    requires state.Length == 16 && r < 4
    modifies state
    ensures state[r] == old(state[r + 8]) && state[r + 4] == old(state[r + 12])
    ensures state[r + 8] == old(state[r]) && state[r + 12] == old(state[r + 4])
    ensures forall j | 0 <= j < 16 && j != r && j != r + 4 && j != r + 8 && j != r + 12 :: state[j] == old(state[j])
  {
    var tmp := state[r + 4 * 0];
    state[r + 4 * 0] := state[r + 4 * 2];
    state[r + 4 * 2] := tmp;
    tmp := state[r + 4 * 1];
    state[r + 4 * 1] := state[r + 4 * 3];
    state[r + 4 * 3] := tmp;
  }

  /** shiftRows: row 1 rotated left by one, row 2 by two, row 3 right by one (left by three). */
  method ShiftRows(state: array<Byte>)
    requires state.Length == 16
    modifies state
    ensures CS.FromCells(state[..]) == CS.ShiftRows(CS.FromCells(old(state[..])))
  {
    ghost var a := state[..];
    RotateRowLeft(state, 1);
    SwapRowHalves(state, 2);
    RotateRowRight(state, 3);
    ShiftRowsCells(a, state);
  }

  /** invShiftRows: row 1 rotated right by one, row 2 by two, row 3 left by one (right by three). */
  method InvShiftRows(state: array<Byte>)
    requires state.Length == 16
    modifies state
    ensures CS.FromCells(state[..]) == CS.InvShiftRows(CS.FromCells(old(state[..])))
  {
    ghost var a := state[..];
    RotateRowRight(state, 1);
    SwapRowHalves(state, 2);
    RotateRowLeft(state, 3);
    InvShiftRowsCells(a, state);
  }

  // ---------------------------------------------------------------------------
  // MixColumns
  // ---------------------------------------------------------------------------

  /**
   * `(byte_t)((signed char)b >> 7)`: b read as a two's-complement signed
   * char, shifted right arithmetically (the quotient rounds down), and cast
   * back to a byte; the sign bit ends up in every bit.
   */
  function SignMask(b: Byte): (m: Byte)
    ensures m == if b & 0x80 != 0 then 0xff else 0x00
  {
    var signed: int := if b < 0x80 then b as int else b as int - 0x100;
    var shifted := signed / 0x80;
    assert shifted == if b < 0x80 then 0 else -1;
    (shifted % 0x100) as Byte
  }

  /** mixColumns' doubling: shift left, and xor 0x1b through the sign mask. */
  lemma XTimeBySignMask(b: Byte)
    ensures (b << 1) ^ (0x1b & SignMask(b)) == XTime(b)
  {
  }

  /** The first xor formula of mixColumns, given the doubled bytes, is row 0 of the MixColumns matrix. */
  lemma MixRowByXTime(a0: Byte, a1: Byte, a2: Byte, a3: Byte, x0: Byte, x1: Byte)
    requires x0 == XTime(a0) && x1 == XTime(a1)
    ensures x0 ^ (x1 ^ a1) ^ a2 ^ a3 == Row(a0, a1, a2, a3)
  {
  }

  /** Rotating the terms of a four-term xor leaves it unchanged. */
  lemma XorRotations(a: Byte, b: Byte, c: Byte, d: Byte)
    ensures a ^ b ^ c ^ d == b ^ c ^ d ^ a
    ensures a ^ b ^ c ^ d == c ^ d ^ a ^ b
    ensures a ^ b ^ c ^ d == d ^ a ^ b ^ c
  {
  }

  /**
   * The four xor formulas of mixColumns, given the doubled bytes x0 .. x3 of
   * the column a0 .. a3, compute the column times the MixColumns matrix.
   */
  lemma MixByFormulas(a0: Byte, a1: Byte, a2: Byte, a3: Byte, x0: Byte, x1: Byte, x2: Byte, x3: Byte)
    requires x0 == XTime(a0) && x1 == XTime(a1) && x2 == XTime(a2) && x3 == XTime(a3)
    ensures Mix(Column(a0, a1, a2, a3))
         == Column(x0 ^ (x1 ^ a1) ^ a2 ^ a3, a0 ^ x1 ^ (x2 ^ a2) ^ a3,
                   a0 ^ a1 ^ x2 ^ (x3 ^ a3), (x0 ^ a0) ^ a1 ^ a2 ^ x3)
  {
    MixRowByXTime(a0, a1, a2, a3, x0, x1);
    MixRowByXTime(a1, a2, a3, a0, x1, x2);
    MixRowByXTime(a2, a3, a0, a1, x2, x3);
    MixRowByXTime(a3, a0, a1, a2, x3, x0);
    XorRotations(a0, x1, x2 ^ a2, a3);
    XorRotations(a0, a1, x2, x3 ^ a3);
    XorRotations(x0 ^ a0, a1, a2, x3);
  }

  /**
   * One turn of mixColumns' outer loop: column r is read into col, doubled
   * into colCalc, and overwritten with the four formulas.
   */
  method MixColumn(state: array<Byte>, r: nat)
    requires state.Length == 16 && r < 4
    modifies state
    ensures Column(state[4 * r], state[4 * r + 1], state[4 * r + 2], state[4 * r + 3])
         == Mix(Column(old(state[4 * r]), old(state[4 * r + 1]), old(state[4 * r + 2]), old(state[4 * r + 3])))
    ensures forall j | 0 <= j < 16 && (j < 4 * r || 4 * r + 4 <= j) :: state[j] == old(state[j])
  {
    var col: seq<Byte> := [0, 0, 0, 0];
    var colCalc: seq<Byte> := [0, 0, 0, 0];
    for c := 0 to 4
      modifies {}
      invariant |col| == 4 && |colCalc| == 4
      invariant forall k | 0 <= k < c :: col[k] == state[4 * r + k] && colCalc[k] == XTime(col[k])
    {
      col := col[c := state[c + 4 * r]];
      var shouldXor := SignMask(col[c]);
      colCalc := colCalc[c := (col[c] << 1) ^ (0x1b & shouldXor)];
      XTimeBySignMask(col[c]);
    }
    var a0, a1, a2, a3 := col[0], col[1], col[2], col[3];
    var x0, x1, x2, x3 := colCalc[0], colCalc[1], colCalc[2], colCalc[3];
    assert x0 == XTime(a0) && x1 == XTime(a1) && x2 == XTime(a2) && x3 == XTime(a3);
    assert Column(a0, a1, a2, a3) == Column(state[4 * r], state[4 * r + 1], state[4 * r + 2], state[4 * r + 3]);
    MixByFormulas(a0, a1, a2, a3, x0, x1, x2, x3);
    WriteColumn(state, r, x0 ^ (x1 ^ a1) ^ a2 ^ a3, a0 ^ x1 ^ (x2 ^ a2) ^ a3,
                a0 ^ a1 ^ x2 ^ (x3 ^ a3), (x0 ^ a0) ^ a1 ^ a2 ^ x3);
  }

  /** The four stores `state[CELL(k, r)] = ...` that end a turn of mixColumns' outer loop. */
  method WriteColumn(state: array<Byte>, r: nat, b0: Byte, b1: Byte, b2: Byte, b3: Byte)
    requires state.Length == 16 && r < 4
    modifies state
    ensures state[4 * r] == b0 && state[4 * r + 1] == b1 && state[4 * r + 2] == b2 && state[4 * r + 3] == b3
    ensures forall j | 0 <= j < 16 && (j < 4 * r || 4 * r + 4 <= j) :: state[j] == old(state[j])
  {
    state[0 + 4 * r] := b0;
    state[1 + 4 * r] := b1;
    state[2 + 4 * r] := b2;
    state[3 + 4 * r] := b3;
  }

  /** Sixteen bytes whose every column is the MixColumns product of the same column of a hold MixColumns of a's state. */
  lemma MixColumnsByColumns(a: Block, b: Block)
    requires forall c | 0 <= c < 4 ::
      Column(b[4 * c], b[4 * c + 1], b[4 * c + 2], b[4 * c + 3]) == Mix(Column(a[4 * c], a[4 * c + 1], a[4 * c + 2], a[4 * c + 3]))
    ensures CS.FromCells(b) == CS.MixColumns(CS.FromCells(a))
  {
    assert CS.ColumnOf(b, 0) == Mix(CS.ColumnOf(a, 0));
    assert CS.ColumnOf(b, 1) == Mix(CS.ColumnOf(a, 1));
    assert CS.ColumnOf(b, 2) == Mix(CS.ColumnOf(a, 2));
    assert CS.ColumnOf(b, 3) == Mix(CS.ColumnOf(a, 3));
  }

  /** mixColumns: each column multiplied by the MixColumns matrix. */
  method MixColumns(state: array<Byte>)
    requires state.Length == 16
    modifies state
    ensures CS.FromCells(state[..]) == CS.MixColumns(CS.FromCells(old(state[..])))
  {
    ghost var a := state[..];
    for r := 0 to 4
      invariant forall c | 0 <= c < r ::
        Column(state[4 * c], state[4 * c + 1], state[4 * c + 2], state[4 * c + 3])
        == Mix(Column(a[4 * c], a[4 * c + 1], a[4 * c + 2], a[4 * c + 3]))
      invariant forall j | 4 * r <= j < 16 :: state[j] == a[j]
    {
      MixColumn(state, r);
    }
    MixColumnsByColumns(a, state[..]);
  }

  // ---------------------------------------------------------------------------
  // InvMixColumns
  // ---------------------------------------------------------------------------

  /** The first n bytes of ps xor-ed together, in order: what `cell ^= p` accumulates. */
  function XorPrefix(ps: seq<Byte>, n: nat): Byte
    requires n <= |ps|
  {
    if n == 0 then 0 else XorPrefix(ps, n - 1) ^ ps[n - 1]
  }

  lemma XorPrefixStep(ps: seq<Byte>, n: nat)
    requires 0 < n <= |ps|
    ensures XorPrefix(ps, n) == XorPrefix(ps, n - 1) ^ ps[n - 1]
  {
  }

  /** All four bytes xor-ed in order are their sum. */
  lemma XorPrefixFour(ps: seq<Byte>)
    requires |ps| == 4
    ensures XorPrefix(ps, 4) == Sum(ps[0], ps[1], ps[2], ps[3])
  {
    XorPrefixStep(ps, 4);
    XorPrefixStep(ps, 3);
    XorPrefixStep(ps, 2);
    XorPrefixStep(ps, 1);
  }

  /** The products invMixColumns' innermost loop takes for matrix row r: MAT[CELL(c, r)] times col[c]. */
  function RowProducts(mat: seq<Byte>, col: seq<Byte>, r: nat): (ps: seq<Byte>)
    requires |mat| == 16 && |col| == 4 && r < 4
    ensures |ps| == 4
  {
    seq(4, c requires 0 <= c < 4 => GfMul(mat[CS.Cell(c, r)], col[c]))
  }

  /** Row r of a matrix stored row by row, times a column, written out. */
  lemma MatrixRow(mat: seq<Byte>, col: seq<Byte>, r: nat)
    requires |mat| == 16 && |col| == 4 && r < 4
    ensures XorPrefix(RowProducts(mat, col, r), 4)
         == Sum(GfMul(mat[4 * r], col[0]), GfMul(mat[4 * r + 1], col[1]),
                GfMul(mat[4 * r + 2], col[2]), GfMul(mat[4 * r + 3], col[3]))
  {
    XorPrefixFour(RowProducts(mat, col, r));
  }

  /** InvMixColumns on one column, as the sixteen products of the matrix entries with the column. */
  lemma InvMixByProducts(a0: Byte, a1: Byte, a2: Byte, a3: Byte)
    ensures InvMix(Column(a0, a1, a2, a3))
         == Column(Sum(GfMul(0x0e, a0), GfMul(0x0b, a1), GfMul(0x0d, a2), GfMul(0x09, a3)),
                   Sum(GfMul(0x09, a0), GfMul(0x0e, a1), GfMul(0x0b, a2), GfMul(0x0d, a3)),
                   Sum(GfMul(0x0d, a0), GfMul(0x09, a1), GfMul(0x0e, a2), GfMul(0x0b, a3)),
                   Sum(GfMul(0x0b, a0), GfMul(0x0d, a1), GfMul(0x09, a2), GfMul(0x0e, a3)))
  {
    InvRowByGfMul(a0, a1, a2, a3);
    InvRowByGfMul(a1, a2, a3, a0);
    InvRowByGfMul(a2, a3, a0, a1);
    InvRowByGfMul(a3, a0, a1, a2);
  }

  /** The four rows of INV_MIX_COLUMNS_MATRIX times a column are the InvMixColumns column. */
  lemma InvMixByMatrix(col: seq<Byte>)
    requires |col| == 4
    ensures var m := INV_MIX_COLUMNS_MATRIX;
      InvMix(Column(col[0], col[1], col[2], col[3]))
      == Column(XorPrefix(RowProducts(m, col, 0), 4), XorPrefix(RowProducts(m, col, 1), 4),
                XorPrefix(RowProducts(m, col, 2), 4), XorPrefix(RowProducts(m, col, 3), 4))
  {
    var m := INV_MIX_COLUMNS_MATRIX;
    MatrixRow(m, col, 0);
    MatrixRow(m, col, 1);
    MatrixRow(m, col, 2);
    MatrixRow(m, col, 3);
    InvMixByProducts(col[0], col[1], col[2], col[3]);
  }

  /** Row r of INV_MIX_COLUMNS_MATRIX times col is cell r of the InvMixColumns column of col. */
  lemma InvMixCellOf(col: seq<Byte>, r: nat, cell: Byte)
    requires |col| == 4 && r < 4
    requires cell == XorPrefix(RowProducts(INV_MIX_COLUMNS_MATRIX, col, r), 4)
    ensures cell == CS.ColumnCell(InvMix(Column(col[0], col[1], col[2], col[3])), r)
  {
    InvMixByMatrix(col);
  }

  /** `a <<= 1; if (carry) a ^= 0x1b;` with carry the old top bit: the doubling in GF(2^8). */
  lemma ShiftReduce(a: Byte, carry: bool)
    requires carry == (a & 0x80 != 0)
    ensures (if carry then (a << 1) ^ 0x1b else a << 1) == XTime(a)
  {
  }

  /** One turn of the shift-and-add loop keeps p ^ a * b unchanged. */
  lemma GfMulLoopStep(a: Byte, b: Byte, p: Byte, a': Byte, b': Byte, p': Byte)
    requires a' == XTime(a) && b' == b >> 1 && p' == p ^ (if b & 1 == 1 then a else 0)
    ensures p' ^ GfMul(a', b') == p ^ GfMul(a, b)
  {
    GfMulStep(a, b);
  }

  /**
   * The shift-and-add loop of invMixColumns' innermost loop: the product of
   * a and b in GF(2^8), one bit of b per turn.
   */
  method GfMultiply(a0: Byte, b0: Byte) returns (p: Byte)
    ensures p == GfMul(a0, b0)
  {
    var a, b := a0, b0;
    p := 0;
    while a != 0 && b != 0
      invariant p ^ GfMul(a, b) == GfMul(a0, b0)
      decreases b
    {
      ghost var a1, b1, p1 := a, b, p;
      if b & 0x01 != 0 {
        p := p ^ a;
      }
      b := b >> 1;
      var carry := a & 0x80 != 0;
      a := a << 1;
      if carry {
        a := a ^ 0x1b;
      }
      ShiftReduce(a1, carry);
      GfMulLoopStep(a1, b1, p1, a, b, p);
    }
  }

  /**
   * One turn of invMixColumns' middle loop: cell r of the new column, row r
   * of the matrix times the cached column.
   */
  method InvMixCell(col: seq<Byte>, r: nat) returns (cell: Byte)
    requires |col| == 4 && r < 4
    ensures cell == CS.ColumnCell(InvMix(Column(col[0], col[1], col[2], col[3])), r)
  {
    cell := 0;
    for c := 0 to 4
      invariant cell == XorPrefix(RowProducts(INV_MIX_COLUMNS_MATRIX, col, r), c)
    {
      var p := GfMultiply(INV_MIX_COLUMNS_MATRIX[CS.Cell(c, r)], col[c]);
      XorPrefixStep(RowProducts(INV_MIX_COLUMNS_MATRIX, col, r), c + 1);
      cell := cell ^ p;
    }
    InvMixCellOf(col, r, cell);
  }

  /** One turn of invMixColumns' outer loop: column sCol is cached in col and rewritten cell by cell. */
  method InvMixColumn(state: array<Byte>, sCol: nat)
    requires state.Length == 16 && sCol < 4
    modifies state
    ensures Column(state[4 * sCol], state[4 * sCol + 1], state[4 * sCol + 2], state[4 * sCol + 3])
         == InvMix(Column(old(state[4 * sCol]), old(state[4 * sCol + 1]), old(state[4 * sCol + 2]), old(state[4 * sCol + 3])))
    ensures forall j | 0 <= j < 16 && (j < 4 * sCol || 4 * sCol + 4 <= j) :: state[j] == old(state[j])
  {
    var col := [state[4 * sCol], state[1 + 4 * sCol], state[2 + 4 * sCol], state[3 + 4 * sCol]];
    ghost var target := InvMix(Column(col[0], col[1], col[2], col[3]));
    for r := 0 to 4
      invariant 0 < r ==> state[4 * sCol] == target.a0
      invariant 1 < r ==> state[4 * sCol + 1] == target.a1
      invariant 2 < r ==> state[4 * sCol + 2] == target.a2
      invariant 3 < r ==> state[4 * sCol + 3] == target.a3
      invariant forall j | 0 <= j < 16 && (j < 4 * sCol || 4 * sCol + 4 <= j) :: state[j] == old(state[j])
    {
      var cell := InvMixCell(col, r);
      state[r + 4 * sCol] := cell;
    }
  }

  /** Sixteen bytes whose every column is the InvMixColumns product of a column of a hold InvMixColumns of a's state. */
  lemma InvMixColumnsByColumns(a: Block, b: Block)
    requires forall c | 0 <= c < 4 ::
      Column(b[4 * c], b[4 * c + 1], b[4 * c + 2], b[4 * c + 3]) == InvMix(Column(a[4 * c], a[4 * c + 1], a[4 * c + 2], a[4 * c + 3]))
    ensures CS.FromCells(b) == CS.InvMixColumns(CS.FromCells(a))
  {
    assert CS.ColumnOf(b, 0) == InvMix(CS.ColumnOf(a, 0));
    assert CS.ColumnOf(b, 1) == InvMix(CS.ColumnOf(a, 1));
    assert CS.ColumnOf(b, 2) == InvMix(CS.ColumnOf(a, 2));
    assert CS.ColumnOf(b, 3) == InvMix(CS.ColumnOf(a, 3));
  }

  /** invMixColumns: each column multiplied by INV_MIX_COLUMNS_MATRIX. */
  method InvMixColumns(state: array<Byte>)
    requires state.Length == 16
    modifies state
    ensures CS.FromCells(state[..]) == CS.InvMixColumns(CS.FromCells(old(state[..])))
  {
    ghost var a := state[..];
    for sCol := 0 to 4
      invariant forall c | 0 <= c < sCol ::
        Column(state[4 * c], state[4 * c + 1], state[4 * c + 2], state[4 * c + 3])
        == InvMix(Column(a[4 * c], a[4 * c + 1], a[4 * c + 2], a[4 * c + 3]))
      invariant forall j | 4 * sCol <= j < 16 :: state[j] == a[j]
    {
      InvMixColumn(state, sCol);
    }
    InvMixColumnsByColumns(a, state[..]);
  }

  /** Xor-ing a packed word with a key word and splitting it again is AddKey on the four bytes. */
  lemma XorPackedWord(b0: Byte, b1: Byte, b2: Byte, b3: Byte, w: Word, t: Word, n0: Byte, n1: Byte, n2: Byte, n3: Byte)
    requires t == TypesHelper.BytesToWord(b0, b1, b2, b3) ^ w
    requires n0 == (t >> 24) as Byte && n1 == ((t >> 16) & 0xff) as Byte
    requires n2 == ((t >> 8) & 0xff) as Byte && n3 == (t & 0xff) as Byte
    ensures Column(n0, n1, n2, n3) == CS.AddKey(Column(b0, b1, b2, b3), w)
  {
    TypesHelper.SplitBytesToWord(b0, b1, b2, b3);
  }

  /** One turn of addRoundKey's loop: column i packed into a word, xor-ed with the key word w, and unpacked. */
  method AddKeyColumn(state: array<Byte>, i: nat, w: Word)
    requires state.Length == 16 && i < 4
    modifies state
    ensures Column(state[4 * i], state[4 * i + 1], state[4 * i + 2], state[4 * i + 3])
         == CS.AddKey(Column(old(state[4 * i]), old(state[4 * i + 1]), old(state[4 * i + 2]), old(state[4 * i + 3])), w)
    ensures forall j | 0 <= j < 16 && (j < 4 * i || 4 * i + 4 <= j) :: state[j] == old(state[j])
  {
    var b0, b1, b2, b3 := state[0 + 4 * i], state[1 + 4 * i], state[2 + 4 * i], state[3 + 4 * i];
    var tmp := TypesHelper.BytesToWord(b0, b1, b2, b3);
    tmp := tmp ^ w;
    var n0, n1, n2, n3 := (tmp >> 24) as Byte, ((tmp >> 16) & 0xff) as Byte, ((tmp >> 8) & 0xff) as Byte, (tmp & 0xff) as Byte;
    XorPackedWord(b0, b1, b2, b3, w, tmp, n0, n1, n2, n3);
    WriteColumn(state, i, n0, n1, n2, n3);
  }

  /** Sixteen bytes whose every column is a column of a xor-ed with its round key word hold AddRoundKey of a's state. */
  lemma AddRoundKeyByColumns(a: Block, b: Block, ks: seq<Word>, round: nat)
    requires CS.HasRoundKey(ks, round)
    requires forall c | 0 <= c < 4 ::
      Column(b[4 * c], b[4 * c + 1], b[4 * c + 2], b[4 * c + 3])
      == CS.AddKey(Column(a[4 * c], a[4 * c + 1], a[4 * c + 2], a[4 * c + 3]), ks[4 * round + c])
    ensures CS.FromCells(b) == CS.AddRoundKey(CS.FromCells(a), ks, round)
  {
    assert CS.ColumnOf(b, 0) == CS.AddKey(CS.ColumnOf(a, 0), ks[4 * round]);
    assert CS.ColumnOf(b, 1) == CS.AddKey(CS.ColumnOf(a, 1), ks[4 * round + 1]);
    assert CS.ColumnOf(b, 2) == CS.AddKey(CS.ColumnOf(a, 2), ks[4 * round + 2]);
    assert CS.ColumnOf(b, 3) == CS.AddKey(CS.ColumnOf(a, 3), ks[4 * round + 3]);
  }

  /** addRoundKey: column i xor-ed with word 4 round + i of the key schedule. */
  method AddRoundKey(state: array<Byte>, keySchedule: seq<Word>, round: nat)
    requires state.Length == 16 && CS.HasRoundKey(keySchedule, round)
    modifies state
    ensures CS.FromCells(state[..]) == CS.AddRoundKey(CS.FromCells(old(state[..])), keySchedule, round)
  {
    ghost var a := state[..];
    for i := 0 to 4
      invariant forall c | 0 <= c < i ::
        Column(state[4 * c], state[4 * c + 1], state[4 * c + 2], state[4 * c + 3])
        == CS.AddKey(Column(a[4 * c], a[4 * c + 1], a[4 * c + 2], a[4 * c + 3]), keySchedule[4 * round + c])
      invariant forall j | 4 * i <= j < 16 :: state[j] == a[j]
    {
      AddKeyColumn(state, i, keySchedule[4 * round + i]);
    }
    AddRoundKeyByColumns(a, state[..], keySchedule, round);
  }

  /** subWord: each byte of the word through the S-box, in place. */
  lemma SubWordBytes(w: Word)
    ensures var b := TypesHelper.WordToBytes(w);
      TypesHelper.WordToBytes(CS.SubWord(w)) == [SubByte(b[0]), SubByte(b[1]), SubByte(b[2]), SubByte(b[3])]
  {
    var b := TypesHelper.WordToBytes(w);
    TypesHelper.SplitBytesToWord(SubByte(b[0]), SubByte(b[1]), SubByte(b[2]), SubByte(b[3]));
  }

  /** ROTWORD: the bytes of the word rotated left by one place. */
  lemma RotWordBytes(w: Word)
    ensures var b := TypesHelper.WordToBytes(w);
      TypesHelper.WordToBytes(CS.RotWord(w)) == [b[1], b[2], b[3], b[0]]
  {
  }

  /** The index `(i + kschSize - Nk) % kschSize` keyExpansion reads is i - Nk. */
  method WrappedIndex(i: nat, n: nat, nk: nat) returns (back: nat)
    requires nk <= i < n
    ensures back == i - nk
  {
    back := (i + n - nk) % n;
    assert i + n - nk == (i - nk) + n;
  }

  /** The round constant keyExpansion picks at word i, RCON[i / Nk - 1], is one of the ten. */
  lemma RconIndex(i: nat, nk: nat)
    requires 0 < nk <= i < 11 * nk
    ensures 1 <= i / nk <= 10
  {
    var q, r := i / nk, i % nk;
    assert i == nk * q + r && 0 <= r < nk;
    assert 0 < nk * q < nk * 11;
  }

  /** The body of keyExpansion's second loop up to the store: the word to xor onto word i - Nk. */
  method ExpandWord(prev: Word, i: nat, nk: nat) returns (tmp: Word)
    requires 0 < nk <= i < 11 * nk
    ensures tmp == CS.ExpandTemp(prev, i, nk)
  {
    tmp := prev;
    if i % nk == 0 {
      RconIndex(i, nk);
      tmp := CS.SubWord(CS.RotWord(tmp)) ^ RCON[i / nk - 1];
    } else if nk > 6 && i % nk == 4 {
      tmp := CS.SubWord(tmp);
    }
  }

  /** keyExpansion's first loop: words 0 .. Nk - 1 of the schedule are the key's words. */
  method CopyKeyWords(key: seq<Byte>, ksch: array<Word>, kschSize: nat, nk: nat)
    requires ksch.Length == kschSize && nk <= kschSize && CS.CanExpand(key, nk, kschSize)
    modifies ksch
    ensures forall k | 0 <= k < nk :: ksch[k] == CS.ScheduleWord(key, nk, k)
  {
    var i := 0;
    while i < nk
      invariant i <= nk
      invariant forall k | 0 <= k < i :: ksch[k] == CS.ScheduleWord(key, nk, k)
    {
      ksch[i] := TypesHelper.BytesToWord(key[4 * i], key[4 * i + 1], key[4 * i + 2], key[4 * i + 3]);
      i := i + 1;
    }
  }

  /** One turn of keyExpansion's second loop: word i from words i - 1 and i - Nk. */
  method ExpandKeyWord(key: seq<Byte>, ksch: array<Word>, kschSize: nat, nk: nat, i: nat)
    requires ksch.Length == kschSize && nk <= i < kschSize && CS.CanExpand(key, nk, kschSize)
    requires forall k | 0 <= k < i :: ksch[k] == CS.ScheduleWord(key, nk, k)
    modifies ksch
    ensures forall k | 0 <= k <= i :: ksch[k] == CS.ScheduleWord(key, nk, k)
  {
    var tmp := ExpandWord(ksch[i - 1], i, nk);
    var back := WrappedIndex(i, kschSize, nk);
    ksch[i] := ksch[back] ^ tmp;
  }

  /** keyExpansion's second loop: words Nk .. kschSize - 1 by the recurrence. */
  method ExpandKeyWords(key: seq<Byte>, ksch: array<Word>, kschSize: nat, nk: nat)
    requires ksch.Length == kschSize && nk <= kschSize && CS.CanExpand(key, nk, kschSize)
    requires forall k | 0 <= k < nk :: ksch[k] == CS.ScheduleWord(key, nk, k)
    modifies ksch
    ensures ksch[..] == CS.KeySchedule(key, nk, kschSize)
  {
    var i := nk;
    while i < kschSize
      invariant nk <= i <= kschSize
      invariant forall k | 0 <= k < i :: ksch[k] == CS.ScheduleWord(key, nk, k)
    {
      ExpandKeyWord(key, ksch, kschSize, nk, i);
      i := i + 1;
    }
  }

  /**
   * keyExpansion: the Nk words of the key, then each word the word Nk places
   * back xor-ed with the previous word, rotated, substituted and mixed with a
   * round constant every Nk words (and substituted at i % Nk == 4 for Nk > 6).
   */
  method KeyExpansion(key: seq<Byte>, ksch: array<Word>, kschSize: nat, nk: nat)
    requires ksch.Length == kschSize && nk <= kschSize && CS.CanExpand(key, nk, kschSize)
    modifies ksch
    ensures ksch[..] == CS.KeySchedule(key, nk, kschSize)
  {
    CopyKeyWords(key, ksch, kschSize, nk);
    ExpandKeyWords(key, ksch, kschSize, nk);
  }

  // ---------------------------------------------------------------------------
  // The cipher and the inverse cipher
  // ---------------------------------------------------------------------------

  /** One turn of cipherBlock's loop: SubBytes, ShiftRows, MixColumns, AddRoundKey(round). */
  method CipherRound(state: array<Byte>, keySchedule: seq<Word>, round: nat)
    requires state.Length == 16 && CS.HasRoundKey(keySchedule, round)
    modifies state
    ensures CS.FromCells(state[..]) == CS.Round(CS.FromCells(old(state[..])), keySchedule, round)
  {
    SubBytes(state);
    ShiftRows(state);
    MixColumns(state);
    AddRoundKey(state, keySchedule, round);
  }

  /** The last round of cipherBlock, after its loop: SubBytes, ShiftRows, AddRoundKey(Nr), without MixColumns. */
  method FinalRound(state: array<Byte>, keySchedule: seq<Word>, nr: nat)
    requires state.Length == 16 && CS.HasRoundKey(keySchedule, nr)
    modifies state
    ensures CS.FromCells(state[..]) == CS.AddRoundKey(CS.SubShift(CS.FromCells(old(state[..]))), keySchedule, nr)
  {
    SubBytes(state);
    ShiftRows(state);
    AddRoundKey(state, keySchedule, nr);
  }

  /** The steps of cipherBlock, taken one after another, compute Cipher. */
  lemma CipherBySteps(s: CS.State, x: CS.State, y: CS.State, z: CS.State, ks: seq<Word>, nr: nat)
    requires CS.HasRoundKey(ks, nr)
    requires x == CS.AddRoundKey(s, ks, 0) && y == CS.Rounds(x, ks, CS.FullRounds(nr))
    requires z == CS.AddRoundKey(CS.SubShift(y), ks, nr)
    ensures z == CS.Cipher(s, ks, nr)
  {
  }

  /** cipherBlock: FIPS-197 Cipher() on the state, in place. */
  method CipherBlock(state: array<Byte>, keySchedule: seq<Word>, nr: nat)
    requires state.Length == 16 && CS.HasRoundKey(keySchedule, nr)
    modifies state
    ensures CS.FromCells(state[..]) == CS.Cipher(CS.FromCells(old(state[..])), keySchedule, nr)
  {
    ghost var s := CS.FromCells(state[..]);
    AddRoundKey(state, keySchedule, 0);
    ghost var x := CS.FromCells(state[..]);
    var round: nat := 1;
    while round < nr
      invariant 1 <= round && (round <= nr || round == 1)
      invariant CS.FromCells(state[..]) == CS.Rounds(x, keySchedule, round - 1)
    {
      CipherRound(state, keySchedule, round);
      CS.RoundsStep(x, keySchedule, round);
      round := round + 1;
    }
    ghost var y := CS.FromCells(state[..]);
    FinalRound(state, keySchedule, nr);
    CipherBySteps(s, x, y, CS.FromCells(state[..]), keySchedule, nr);
  }

  /** One turn of decipherBlock's loop: InvShiftRows, InvSubBytes, AddRoundKey(round), InvMixColumns. */
  method DecipherRound(state: array<Byte>, keySchedule: seq<Word>, round: nat)
    requires state.Length == 16 && CS.HasRoundKey(keySchedule, round)
    modifies state
    ensures CS.FromCells(state[..]) == CS.InvRound(CS.FromCells(old(state[..])), keySchedule, round)
  {
    InvShiftRows(state);
    InvSubBytes(state);
    AddRoundKey(state, keySchedule, round);
    InvMixColumns(state);
  }

  /** The last steps of decipherBlock, after its loop: InvShiftRows, InvSubBytes, AddRoundKey(0). */
  method FinalInvRound(state: array<Byte>, keySchedule: seq<Word>)
    requires state.Length == 16 && CS.HasRoundKey(keySchedule, 0)
    modifies state
    ensures CS.FromCells(state[..]) == CS.AddRoundKey(CS.InvSubBytes(CS.InvShiftRows(CS.FromCells(old(state[..])))), keySchedule, 0)
  {
    InvShiftRows(state);
    InvSubBytes(state);
    AddRoundKey(state, keySchedule, 0);
  }

  /** The steps of decipherBlock, taken one after another, compute Decipher. */
  lemma DecipherBySteps(s: CS.State, x: CS.State, y: CS.State, z: CS.State, ks: seq<Word>, nr: nat)
    requires CS.HasRoundKey(ks, nr)
    requires x == CS.AddRoundKey(s, ks, nr) && y == CS.InvRounds(x, ks, CS.FullRounds(nr))
    requires z == CS.AddRoundKey(CS.InvSubBytes(CS.InvShiftRows(y)), ks, 0)
    ensures z == CS.Decipher(s, ks, nr)
  {
  }

  /** decipherBlock: FIPS-197 InvCipher() on the state, in place. */
  method DecipherBlock(state: array<Byte>, keySchedule: seq<Word>, nr: nat)
    requires state.Length == 16 && CS.HasRoundKey(keySchedule, nr)
    modifies state
    ensures CS.FromCells(state[..]) == CS.Decipher(CS.FromCells(old(state[..])), keySchedule, nr)
  {
    ghost var s := CS.FromCells(state[..]);
    AddRoundKey(state, keySchedule, nr);
    ghost var x := CS.FromCells(state[..]);
    ghost var y := CS.InvRounds(x, keySchedule, CS.FullRounds(nr));
    var round: int := nr - 1;
    ghost var left: nat := CS.FullRounds(nr);
    while round > 0
      invariant left <= nr && (left == round || (round == -1 && left == 0))
      invariant CS.InvRounds(CS.FromCells(state[..]), keySchedule, left) == y
    {
      CS.InvRoundsStep(CS.FromCells(state[..]), keySchedule, left);
      DecipherRound(state, keySchedule, round);
      round := round - 1;
      left := left - 1;
    }
    assert CS.FromCells(state[..]) == y;
    FinalInvRound(state, keySchedule);
    DecipherBySteps(s, x, y, CS.FromCells(state[..]), keySchedule, nr);
  }
}
