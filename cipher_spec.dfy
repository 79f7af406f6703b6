/**
 * The AES block cipher of FIPS-197 as functions on the state. The state is
 * kept as its four columns; aes_cipher.cpp keeps the same sixteen bytes in
 * an array, column by column, the byte of row r and column c at index
 * CELL(r, c) = r + 4 c (FromCells and ToCells convert).
 *
 * The in-place procedures of aes_cipher.cpp are proved against these
 * functions; the inverse steps and the round trip of the whole cipher are
 * proved here.
 */
module CipherSpec {
  import opened Bytes
  import opened Gf
  import opened Lookups
  import TypesHelper

  /** The state: four columns, left to right. */
  datatype State = State(c0: Column, c1: Column, c2: Column, c3: Column)

  /** CELL(r, c) */
  function Cell(r: nat, c: nat): nat
  {
    r + 4 * c
  }

  /** Column c of sixteen bytes laid out column by column. */
  function ColumnOf(a: Block, c: nat): Column
    requires c < 4
  {
    Column(a[Cell(0, c)], a[Cell(1, c)], a[Cell(2, c)], a[Cell(3, c)])
  }

  /** The state held in sixteen bytes laid out column by column. */
  function FromCells(a: Block): State
  {
    State(ColumnOf(a, 0), ColumnOf(a, 1), ColumnOf(a, 2), ColumnOf(a, 3))
  }

  /** The sixteen bytes of the state, column by column. */
  function ToCells(s: State): Block
  {
    [s.c0.a0, s.c0.a1, s.c0.a2, s.c0.a3, s.c1.a0, s.c1.a1, s.c1.a2, s.c1.a3,
     s.c2.a0, s.c2.a1, s.c2.a2, s.c2.a3, s.c3.a0, s.c3.a1, s.c3.a2, s.c3.a3]
  }

  /** The two layouts hold the same state. */
  lemma FromCellsToCells(s: State)
    ensures FromCells(ToCells(s)) == s
  {
  }

  lemma ToCellsFromCells(a: Block)
    ensures ToCells(FromCells(a)) == a
  {
  }

  /** Column c of the state. */
  function ColumnAt(s: State, c: nat): Column
    requires c < 4
  {
    if c == 0 then s.c0 else if c == 1 then s.c1 else if c == 2 then s.c2 else s.c3
  }

  /** Cell k of a column, top to bottom. */
  function ColumnCell(c: Column, k: nat): Byte
    requires k < 4
  {
    if k == 0 then c.a0 else if k == 1 then c.a1 else if k == 2 then c.a2 else c.a3
  }

  /** The byte at CELL(r, c) is row r of column c. */
  lemma CellOf(a: Block, r: nat, c: nat)
    requires r < 4 && c < 4
    ensures a[Cell(r, c)] == ColumnCell(ColumnAt(FromCells(a), c), r)
  {
    assert r == 0 || r == 1 || r == 2 || r == 3;
    assert c == 0 || c == 1 || c == 2 || c == 3;
  }

  /** Column c of the state the bytes hold is the column the bytes hold at c. */
  lemma ColumnAtFromCells(a: Block, c: nat)
    requires c < 4
    ensures ColumnAt(FromCells(a), c) == ColumnOf(a, c)
  {
  }

  /** Sixteen bytes hold the state s when every cell holds its byte of s. */
  lemma FromCellsByColumns(a: Block, s: State)
    requires forall c, k | 0 <= c < 4 && 0 <= k < 4 :: a[Cell(k, c)] == ColumnCell(ColumnAt(s, c), k)
    ensures FromCells(a) == s
  {
    assert ColumnOf(a, 0) == s.c0 by {
      assert a[Cell(0, 0)] == ColumnCell(ColumnAt(s, 0), 0) && a[Cell(1, 0)] == ColumnCell(ColumnAt(s, 0), 1);
      assert a[Cell(2, 0)] == ColumnCell(ColumnAt(s, 0), 2) && a[Cell(3, 0)] == ColumnCell(ColumnAt(s, 0), 3);
    }
    assert ColumnOf(a, 1) == s.c1 by {
      assert a[Cell(0, 1)] == ColumnCell(ColumnAt(s, 1), 0) && a[Cell(1, 1)] == ColumnCell(ColumnAt(s, 1), 1);
      assert a[Cell(2, 1)] == ColumnCell(ColumnAt(s, 1), 2) && a[Cell(3, 1)] == ColumnCell(ColumnAt(s, 1), 3);
    }
    assert ColumnOf(a, 2) == s.c2 by {
      assert a[Cell(0, 2)] == ColumnCell(ColumnAt(s, 2), 0) && a[Cell(1, 2)] == ColumnCell(ColumnAt(s, 2), 1);
      assert a[Cell(2, 2)] == ColumnCell(ColumnAt(s, 2), 2) && a[Cell(3, 2)] == ColumnCell(ColumnAt(s, 2), 3);
    }
    assert ColumnOf(a, 3) == s.c3 by {
      assert a[Cell(0, 3)] == ColumnCell(ColumnAt(s, 3), 0) && a[Cell(1, 3)] == ColumnCell(ColumnAt(s, 3), 1);
      assert a[Cell(2, 3)] == ColumnCell(ColumnAt(s, 3), 2) && a[Cell(3, 3)] == ColumnCell(ColumnAt(s, 3), 3);
    }
  }

  // ---------------------------------------------------------------------------
  // SubBytes (FIPS-197 5.1.1) and InvSubBytes (5.3.2)
  // ---------------------------------------------------------------------------

  function SubColumn(c: Column): Column
  {
    Column(SubByte(c.a0), SubByte(c.a1), SubByte(c.a2), SubByte(c.a3))
  }

  function InvSubColumn(c: Column): Column
  {
    Column(InvSubByte(c.a0), InvSubByte(c.a1), InvSubByte(c.a2), InvSubByte(c.a3))
  }

  /** Every byte through the S-box. */
  function SubBytes(s: State): State
  {
    State(SubColumn(s.c0), SubColumn(s.c1), SubColumn(s.c2), SubColumn(s.c3))
  }

  /** Every byte through the inverse S-box. */
  function InvSubBytes(s: State): State
  {
    State(InvSubColumn(s.c0), InvSubColumn(s.c1), InvSubColumn(s.c2), InvSubColumn(s.c3))
  }

  lemma InvSubColumnSubColumn(c: Column)
    ensures InvSubColumn(SubColumn(c)) == c
  {
    InvSubByteOfSubByte(c.a0);
    InvSubByteOfSubByte(c.a1);
    InvSubByteOfSubByte(c.a2);
    InvSubByteOfSubByte(c.a3);
  }

  lemma SubColumnInvSubColumn(c: Column)
    ensures SubColumn(InvSubColumn(c)) == c
  {
    SubByteOfInvSubByte(c.a0);
    SubByteOfInvSubByte(c.a1);
    SubByteOfInvSubByte(c.a2);
    SubByteOfInvSubByte(c.a3);
  }

  lemma InvSubBytesSubBytes(s: State)
    ensures InvSubBytes(SubBytes(s)) == s
  {
    InvSubColumnSubColumn(s.c0);
    InvSubColumnSubColumn(s.c1);
    InvSubColumnSubColumn(s.c2);
    InvSubColumnSubColumn(s.c3);
  }

  lemma SubBytesInvSubBytes(s: State)
    ensures SubBytes(InvSubBytes(s)) == s
  {
    SubColumnInvSubColumn(s.c0);
    SubColumnInvSubColumn(s.c1);
    SubColumnInvSubColumn(s.c2);
    SubColumnInvSubColumn(s.c3);
  }

  // ---------------------------------------------------------------------------
  // ShiftRows (FIPS-197 5.1.2) and InvShiftRows (5.3.1)
  // ---------------------------------------------------------------------------

  /** Row r is rotated left by r columns. */
  function ShiftRows(s: State): State
  {
    State(Column(s.c0.a0, s.c1.a1, s.c2.a2, s.c3.a3), Column(s.c1.a0, s.c2.a1, s.c3.a2, s.c0.a3),
          Column(s.c2.a0, s.c3.a1, s.c0.a2, s.c1.a3), Column(s.c3.a0, s.c0.a1, s.c1.a2, s.c2.a3))
  }

  /** Row r is rotated right by r columns. */
  function InvShiftRows(s: State): State
  {
    State(Column(s.c0.a0, s.c3.a1, s.c2.a2, s.c1.a3), Column(s.c1.a0, s.c0.a1, s.c3.a2, s.c2.a3),
          Column(s.c2.a0, s.c1.a1, s.c0.a2, s.c3.a3), Column(s.c3.a0, s.c2.a1, s.c1.a2, s.c0.a3))
  }

  /**
   * Cell by cell: the byte landing in row r, column c comes from column
   * c + r (mod 4) of the same row after ShiftRows, and from column c - r
   * (mod 4) after InvShiftRows.
   */
  lemma ShiftRowsCell(s: State, r: nat, c: nat)
    requires r < 4 && c < 4
    ensures ColumnCell(ColumnAt(ShiftRows(s), c), r) == ColumnCell(ColumnAt(s, (c + r) % 4), r)
    ensures ColumnCell(ColumnAt(InvShiftRows(s), c), r) == ColumnCell(ColumnAt(s, (c + 4 - r) % 4), r)
  {
    assert r == 0 || r == 1 || r == 2 || r == 3;
    assert c == 0 || c == 1 || c == 2 || c == 3;
  }

  lemma InvShiftRowsShiftRows(s: State)
    ensures InvShiftRows(ShiftRows(s)) == s
  {
  }

  lemma ShiftRowsInvShiftRows(s: State)
    ensures ShiftRows(InvShiftRows(s)) == s
  {
  }

  // ---------------------------------------------------------------------------
  // MixColumns (FIPS-197 5.1.3) and InvMixColumns (5.3.3)
  // ---------------------------------------------------------------------------

  function MixColumns(s: State): State
  {
    State(Mix(s.c0), Mix(s.c1), Mix(s.c2), Mix(s.c3))
  }

  function InvMixColumns(s: State): State
  {
    State(InvMix(s.c0), InvMix(s.c1), InvMix(s.c2), InvMix(s.c3))
  }

  /** Column c of MixColumns(s) is Mix of column c of s, and likewise for the inverse. */
  lemma MixColumnsColumn(s: State, c: nat)
    requires c < 4
    ensures ColumnAt(MixColumns(s), c) == Mix(ColumnAt(s, c))
    ensures ColumnAt(InvMixColumns(s), c) == InvMix(ColumnAt(s, c))
  {
  }

  lemma InvMixColumnsMixColumns(s: State)
    ensures InvMixColumns(MixColumns(s)) == s
  {
    InvMixMix(s.c0);
    InvMixMix(s.c1);
    InvMixMix(s.c2);
    InvMixMix(s.c3);
  }

  /** mixColumns undoes invMixColumns on every state. */
  lemma MixColumnsInvMixColumns(s: State)
    ensures MixColumns(InvMixColumns(s)) == s
  {
    MixInvMix(s.c0);
    MixInvMix(s.c1);
    MixInvMix(s.c2);
    MixInvMix(s.c3);
  }

  // ---------------------------------------------------------------------------
  // AddRoundKey (FIPS-197 5.1.4)
  // ---------------------------------------------------------------------------

  /** Round keys `round` occupy words 4 round .. 4 round + 3 of the schedule. */
  predicate HasRoundKey(ks: seq<Word>, round: nat)
  {
    4 * round + 4 <= |ks|
  }

  /** A column xor-ed with a word of the key schedule, the word's top byte on row 0. */
  function AddKey(c: Column, w: Word): Column
  {
    Column(c.a0 ^ (w >> 24) as Byte, c.a1 ^ ((w >> 16) & 0xff) as Byte,
           c.a2 ^ ((w >> 8) & 0xff) as Byte, c.a3 ^ (w & 0xff) as Byte)
  }

  /** Column c is xor-ed with word 4 round + c of the schedule. */
  function AddRoundKey(s: State, ks: seq<Word>, round: nat): State
    requires HasRoundKey(ks, round)
  {
    State(AddKey(s.c0, ks[4 * round]), AddKey(s.c1, ks[4 * round + 1]),
          AddKey(s.c2, ks[4 * round + 2]), AddKey(s.c3, ks[4 * round + 3]))
  }

  /** Xor-ing the same word twice gives the column back. */
  lemma AddKeyTwice(c: Column, w: Word)
    ensures AddKey(AddKey(c, w), w) == c
  {
  }

  /** AddRoundKey is its own inverse. */
  lemma AddRoundKeyInvolution(s: State, ks: seq<Word>, round: nat)
    requires HasRoundKey(ks, round)
    ensures AddRoundKey(AddRoundKey(s, ks, round), ks, round) == s
  {
    AddKeyTwice(s.c0, ks[4 * round]);
    AddKeyTwice(s.c1, ks[4 * round + 1]);
    AddKeyTwice(s.c2, ks[4 * round + 2]);
    AddKeyTwice(s.c3, ks[4 * round + 3]);
  }

  // ---------------------------------------------------------------------------
  // Rounds, cipher and inverse cipher (FIPS-197 5.1 and 5.3)
  // ---------------------------------------------------------------------------

  /** One full round of cipherBlock's loop. */
  function Round(s: State, ks: seq<Word>, round: nat): State
    requires HasRoundKey(ks, round)
  {
    AddRoundKey(MixColumns(ShiftRows(SubBytes(s))), ks, round)
  }

  /** One turn of decipherBlock's loop. */
  function InvRound(s: State, ks: seq<Word>, round: nat): State
    requires HasRoundKey(ks, round)
  {
    InvMixColumns(AddRoundKey(InvSubBytes(InvShiftRows(s)), ks, round))
  }

  /** `step` applied for k = 1, 2, ..., n in that order. */
  function Iterate<T>(step: (T, nat) -> T, s: T, n: nat): T
  {
    if n == 0 then s else step(Iterate(step, s, n - 1), n)
  }

  /** `step` applied for k = n, n - 1, ..., 1 in that order. */
  function IterateDown<T>(step: (T, nat) -> T, s: T, n: nat): T
    decreases n
  {
    if n == 0 then s else IterateDown(step, step(s, n), n - 1)
  }

  /**
   * If `inv` undoes each `step`, as seen through `view`, then running `inv`
   * from k = n down to 1 undoes running `step` from 1 up to n.
   */
  lemma {:induction false} IterateDownIterate<T>(step: (T, nat) -> T, inv: (T, nat) -> T,
      view: T -> T, x: T, n: nat)
    requires forall y: T, k: nat | 1 <= k <= n :: inv(view(step(y, k)), k) == view(y)
    ensures IterateDown(inv, view(Iterate(step, x, n)), n) == view(x)
    decreases n
  {
    if n > 0 {
      IterateDownIterate(step, inv, view, x, n - 1);
    }
  }

  /** Round as a step of the loop: the identity on a round the schedule has no key for. */
  function RoundStep(ks: seq<Word>): (State, nat) -> State
  {
    (t: State, k: nat) => if HasRoundKey(ks, k) then Round(t, ks, k) else t
  }

  /** InvRound as a step of the loop, likewise. */
  function InvRoundStep(ks: seq<Word>): (State, nat) -> State
  {
    (t: State, k: nat) => if HasRoundKey(ks, k) then InvRound(t, ks, k) else t
  }

  /** Rounds 1, 2, ..., n in that order. */
  function Rounds(s: State, ks: seq<Word>, n: nat): State
    requires HasRoundKey(ks, n)
  {
    Iterate(RoundStep(ks), s, n)
  }

  /** Inverse rounds n, n - 1, ..., 1 in that order. */
  function InvRounds(s: State, ks: seq<Word>, n: nat): State
    requires HasRoundKey(ks, n)
  {
    IterateDown(InvRoundStep(ks), s, n)
  }

  /** Rounds 1 .. n are rounds 1 .. n - 1 followed by round n. */
  lemma RoundsStep(x: State, ks: seq<Word>, n: nat)
    requires 1 <= n && HasRoundKey(ks, n)
    ensures Rounds(x, ks, n) == Round(Rounds(x, ks, n - 1), ks, n)
  {
  }

  /** Inverse rounds n .. 1 are inverse round n followed by inverse rounds n - 1 .. 1. */
  lemma InvRoundsStep(s: State, ks: seq<Word>, n: nat)
    requires 1 <= n && HasRoundKey(ks, n)
    ensures InvRounds(s, ks, n) == InvRounds(InvRound(s, ks, n), ks, n - 1)
  {
  }

  /** The number of full rounds: those of `for (round = 1; round < Nr; ++round)`. */
  function FullRounds(nr: nat): nat
  {
    if nr == 0 then 0 else nr - 1
  }

  /** SubBytes then ShiftRows: where a round and the next inverse round overlap. */
  function SubShift(s: State): State
  {
    ShiftRows(SubBytes(s))
  }

  /** cipherBlock: AddRoundKey(0), the full rounds, then a last round without MixColumns. */
  function Cipher(s: State, ks: seq<Word>, nr: nat): State
    requires HasRoundKey(ks, nr)
  {
    AddRoundKey(SubShift(Rounds(AddRoundKey(s, ks, 0), ks, FullRounds(nr))), ks, nr)
  }

  /** decipherBlock: AddRoundKey(Nr), the inverse rounds, then InvShiftRows, InvSubBytes, AddRoundKey(0). */
  function Decipher(s: State, ks: seq<Word>, nr: nat): State
    requires HasRoundKey(ks, nr)
  {
    AddRoundKey(InvSubBytes(InvShiftRows(InvRounds(AddRoundKey(s, ks, nr), ks, FullRounds(nr)))), ks, 0)
  }

  /**
   * An inverse round undoes a round, seen through the SubBytes and ShiftRows
   * that open the next one: the two loops group the steps differently.
   */
  lemma InvRoundRound(x: State, ks: seq<Word>, round: nat)
    requires HasRoundKey(ks, round)
    ensures InvRound(SubShift(Round(x, ks, round)), ks, round) == SubShift(x)
  {
    var y := Round(x, ks, round);
    var m := MixColumns(ShiftRows(SubBytes(x)));
    InvShiftRowsShiftRows(SubBytes(y));
    InvSubBytesSubBytes(y);
    AddRoundKeyInvolution(m, ks, round);
    InvMixColumnsMixColumns(ShiftRows(SubBytes(x)));
  }

  /** InvRoundRound, for the loop steps: on every round that has a key. */
  lemma InvRoundStepRoundStep(ks: seq<Word>, y: State, k: nat)
    ensures HasRoundKey(ks, k) ==> InvRoundStep(ks)(SubShift(RoundStep(ks)(y, k)), k) == SubShift(y)
  {
    if HasRoundKey(ks, k) {
      InvRoundRound(y, ks, k);
    }
  }

  /** The inverse rounds run the rounds back: undoing round n first, then rounds n - 1 down to 1. */
  lemma InvRoundsRounds(x: State, ks: seq<Word>, n: nat)
    requires HasRoundKey(ks, n)
    ensures InvRounds(SubShift(Rounds(x, ks, n)), ks, n) == SubShift(x)
  {
    forall y: State, k: nat | 1 <= k <= n
      ensures InvRoundStep(ks)(SubShift(RoundStep(ks)(y, k)), k) == SubShift(y)
    {
      InvRoundStepRoundStep(ks, y, k);
    }
    IterateDownIterate(RoundStep(ks), InvRoundStep(ks), SubShift, x, n);
  }

  /** decipherBlock undoes cipherBlock under the same key schedule. */
  lemma DecipherCipher(s: State, ks: seq<Word>, nr: nat)
    requires HasRoundKey(ks, nr)
    ensures Decipher(Cipher(s, ks, nr), ks, nr) == s
  {
    var x := AddRoundKey(s, ks, 0);
    var z := SubShift(Rounds(x, ks, FullRounds(nr)));
    AddRoundKeyInvolution(z, ks, nr);
    InvRoundsRounds(x, ks, FullRounds(nr));
    InvShiftRowsShiftRows(SubBytes(x));
    InvSubBytesSubBytes(x);
    AddRoundKeyInvolution(s, ks, 0);
  }

  // ---------------------------------------------------------------------------
  // Key expansion (FIPS-197 5.2)
  // ---------------------------------------------------------------------------

  /** subWord: the S-box applied to each byte of a word. */
  function SubWord(w: Word): Word
  {
    TypesHelper.BytesToWord(SubByte((w >> 24) as Byte), SubByte(((w >> 16) & 0xff) as Byte),
                            SubByte(((w >> 8) & 0xff) as Byte), SubByte((w & 0xff) as Byte))
  }

  /** ROTWORD: the word rotated left by one byte. */
  function RotWord(w: Word): Word
  {
    (w << 8) | (w >> 24)
  }

  /** The schedule can be expanded to n words from an Nk-word key without running out of round constants. */
  predicate CanExpand(key: seq<Byte>, nk: nat, n: nat)
  {
    0 < nk && 4 * nk <= |key| && n <= 11 * nk
  }

  /** The word keyExpansion xors onto word i - Nk, given word i - 1. */
  function ExpandTemp(prev: Word, i: nat, nk: nat): Word
    requires 0 < nk && nk <= i < 11 * nk
  {
    if i % nk == 0 then SubWord(RotWord(prev)) ^ RCON[i / nk - 1]
    else if nk > 6 && i % nk == 4 then SubWord(prev)
    else prev
  }

  /** Key word i: bytes 4 i .. 4 i + 3 of the key, the first the most significant. */
  function KeyWord(key: seq<Byte>, i: nat): Word
    requires 4 * i + 4 <= |key|
  {
    TypesHelper.BytesToWord(key[4 * i], key[4 * i + 1], key[4 * i + 2], key[4 * i + 3])
  }

  /**
   * Word i of the key schedule (FIPS-197 section 5.2): the key's words for
   * i < Nk, then w[i] = w[i - Nk] ^ ExpandTemp(w[i - 1], i).
   */
  function ScheduleWord(key: seq<Byte>, nk: nat, i: nat): Word
    requires 0 < nk && 4 * nk <= |key| && i < 11 * nk
    decreases i
  {
    if i < nk then KeyWord(key, i)
    else ScheduleWord(key, nk, i - nk) ^ ExpandTemp(ScheduleWord(key, nk, i - 1), i, nk)
  }

  /** The first n words of the key schedule. */
  function KeySchedule(key: seq<Byte>, nk: nat, n: nat): (w: seq<Word>)
    requires CanExpand(key, nk, n)
  {
    seq(n, i requires 0 <= i < n => ScheduleWord(key, nk, i))
  }
}
