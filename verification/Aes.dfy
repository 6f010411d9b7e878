/**
  AES-128 in electronic-codebook mode as written in smile-case1/aes.h.

  The state `uint8_t state[4][4]` is a row-major array of sixteen bytes.  Every
  transform has a function on such states; the loops are proved to compute it, and
  decryption is proved to undo encryption for every key and message.
 */
module Aes {

  import opened AesField

  type State = s: seq<bv8> | |s| == 16 witness [0, 0, 0, 0, 0, 0, 0, 0, 0, 0, 0, 0, 0, 0, 0, 0]

  type Schedule = w: seq<bv32> | |w| == 44 witness
    [0, 0, 0, 0, 0, 0, 0, 0, 0, 0, 0,
     0, 0, 0, 0, 0, 0, 0, 0, 0, 0, 0,
     0, 0, 0, 0, 0, 0, 0, 0, 0, 0, 0,
     0, 0, 0, 0, 0, 0, 0, 0, 0, 0, 0]

  // ----- what each transform means

  /** Columns of the state are runs of four message bytes: loading and storing are both the transpose. */
  function Transpose(s: State): State {
    seq(16, k requires 0 <= k < 16 => s[4 * (k % 4) + k / 4])
  }

  /** BYTE(x, 3 - i) */
  function KeyByte(x: bv32, i: nat): bv8
    requires i < 4
  {
    match i
    case 0 => ((x >> 24) & 0xFF) as bv8
    case 1 => ((x >> 16) & 0xFF) as bv8
    case 2 => ((x >> 8) & 0xFF) as bv8
    case _ => (x & 0xFF) as bv8
  }

  function AddKey(s: State, w: Schedule, round: nat): State
    requires round <= 10
  {
    seq(16, k requires 0 <= k < 16 => Xor(s[k], KeyByte(w[4 * round + k % 4], k / 4)))
  }

  function SubState(s: State): State {
    seq(16, k requires 0 <= k < 16 => Sub(s[k]))
  }

  function InvSubState(s: State): State {
    seq(16, k requires 0 <= k < 16 => InvSub(s[k]))
  }

  /** Row `i` moves left by `i` places. */
  function ShiftState(s: State): State {
    seq(16, k requires 0 <= k < 16 => s[4 * (k / 4) + (k % 4 + k / 4) % 4])
  }

  function InvShiftState(s: State): State {
    seq(16, k requires 0 <= k < 16 => s[4 * (k / 4) + (k % 4 + 4 - k / 4) % 4])
  }

  type Matrix = m: seq<seq<bv8>> | |m| == 4 && forall i :: 0 <= i < 4 ==> |m[i]| == 4
    witness [[0, 0, 0, 0], [0, 0, 0, 0], [0, 0, 0, 0], [0, 0, 0, 0]]

  const MIX: Matrix := [[2, 3, 1, 1], [1, 2, 3, 1], [1, 1, 2, 3], [3, 1, 1, 2]]

  const INV_MIX: Matrix :=
    [[0x0E, 0x0B, 0x0D, 0x09], [0x09, 0x0E, 0x0B, 0x0D], [0x0D, 0x09, 0x0E, 0x0B], [0x0B, 0x0D, 0x09, 0x0E]]

  /** A matrix row times a column, in GF(2^8). */
  function Dot(row: seq<bv8>, a: bv8, b: bv8, c: bv8, d: bv8): bv8
    requires |row| == 4
  {
    Xor4(Mul(row[0], a), Mul(row[1], b), Mul(row[2], c), Mul(row[3], d))
  }

  function Columns(m: Matrix, s: State): State {
    seq(16, k requires 0 <= k < 16 => Dot(m[k / 4], s[k % 4], s[4 + k % 4], s[8 + k % 4], s[12 + k % 4]))
  }

  // ----- each transform is undone by its inverse

  lemma TransposeInvolution(s: State)
    ensures Transpose(Transpose(s)) == s
  {
  }

  lemma SubStateInverse(s: State)
    ensures InvSubState(SubState(s)) == s
  {
    hide Sub, InvSub;
    forall k | 0 <= k < 16
      ensures InvSubState(SubState(s))[k] == s[k]
    {
      SubInverse(s[k]);
    }
  }

  lemma ShiftStateInverse(s: State)
    ensures InvShiftState(ShiftState(s)) == s
  {
  }

  lemma ShiftCommutesWithSub(s: State)
    ensures InvShiftState(InvSubState(s)) == InvSubState(InvShiftState(s))
  {
    hide InvSub;
  }

  lemma XorTwice(x: bv8, y: bv8)
    ensures Xor(Xor(x, y), y) == x
  {
  }

  lemma AddKeyInverse(s: State, w: Schedule, round: nat)
    requires round <= 10
    ensures AddKey(AddKey(s, w, round), w, round) == s
  {
    hide Xor, KeyByte;
    forall k | 0 <= k < 16
      ensures AddKey(AddKey(s, w, round), w, round)[k] == s[k]
    {
      XorTwice(s[k], KeyByte(w[4 * round + k % 4], k / 4));
    }
  }

  lemma Xor4Nested(a: bv8, b: bv8, c: bv8, d: bv8)
    ensures Xor4(a, b, c, d) == Xor(Xor(a, b), Xor(c, d))
  {
    assert a ^ b ^ c ^ d == (a ^ b) ^ (c ^ d);
  }

  lemma Xor4Rotate(a: bv8, b: bv8, c: bv8, d: bv8)
    ensures Xor4(a, b, c, d) == Xor4(b, c, d, a)
  {
    assert a ^ b ^ c ^ d == b ^ c ^ d ^ a;
  }

  lemma Xor4Unit(a: bv8)
    ensures Xor4(a, 0, 0, 0) == a
  {
  }

  lemma Xor4Swap(a: bv8, b: bv8, c: bv8, d: bv8, x: bv8, y: bv8, z: bv8, w: bv8)
    ensures Xor(Xor4(a, b, c, d), Xor4(x, y, z, w)) == Xor4(Xor(a, x), Xor(b, y), Xor(c, z), Xor(d, w))
  {
    hide *;
    Xor4Nested(a, b, c, d);
    Xor4Nested(x, y, z, w);
    XorLaws(Xor(a, b), Xor(c, d), Xor(x, y), Xor(z, w));
    XorLaws(a, b, x, y);
    XorLaws(c, d, z, w);
    Xor4Nested(Xor(a, x), Xor(b, y), Xor(c, z), Xor(d, w));
  }

  /** Summing rows first or columns first gives the same. */
  lemma XorTranspose(
      a0: bv8, a1: bv8, a2: bv8, a3: bv8, b0: bv8, b1: bv8, b2: bv8, b3: bv8,
      c0: bv8, c1: bv8, c2: bv8, c3: bv8, d0: bv8, d1: bv8, d2: bv8, d3: bv8)
    ensures Xor4(Xor4(a0, a1, a2, a3), Xor4(b0, b1, b2, b3), Xor4(c0, c1, c2, c3), Xor4(d0, d1, d2, d3)) ==
            Xor4(Xor4(a0, b0, c0, d0), Xor4(a1, b1, c1, d1), Xor4(a2, b2, c2, d2), Xor4(a3, b3, c3, d3))
  {
    hide *;
    Xor4Nested(Xor4(a0, a1, a2, a3), Xor4(b0, b1, b2, b3), Xor4(c0, c1, c2, c3), Xor4(d0, d1, d2, d3));
    Xor4Swap(a0, a1, a2, a3, b0, b1, b2, b3);
    Xor4Swap(c0, c1, c2, c3, d0, d1, d2, d3);
    Xor4Swap(Xor(a0, b0), Xor(a1, b1), Xor(a2, b2), Xor(a3, b3), Xor(c0, d0), Xor(c1, d1), Xor(c2, d2), Xor(c3, d3));
    Xor4Nested(a0, b0, c0, d0);
    Xor4Nested(a1, b1, c1, d1);
    Xor4Nested(a2, b2, c2, d2);
    Xor4Nested(a3, b3, c3, d3);
  }

  lemma MulXor4(u: bv8, a: bv8, b: bv8, c: bv8, d: bv8)
    ensures Mul(u, Xor4(a, b, c, d)) == Xor4(Mul(u, a), Mul(u, b), Mul(u, c), Mul(u, d))
  {
    hide *;
    Xor4Nested(a, b, c, d);
    MulDistributes(u, Xor(a, b), Xor(c, d));
    MulDistributes(u, a, b);
    MulDistributes(u, c, d);
    Xor4Nested(Mul(u, a), Mul(u, b), Mul(u, c), Mul(u, d));
  }

  /** The first mixed byte of the column (a, b, c, d). */
  function Mixed(a: bv8, b: bv8, c: bv8, d: bv8): bv8 {
    Xor4(Mul(2, a), Mul(3, b), Mul(1, c), Mul(1, d))
  }

  function Unmixed(a: bv8, b: bv8, c: bv8, d: bv8): bv8 {
    Xor4(Mul(0x0E, a), Mul(0x0B, b), Mul(0x0D, c), Mul(0x09, d))
  }

  /** The rows of both matrices are rotations of their first row. */
  lemma MatrixRows(a: bv8, b: bv8, c: bv8, d: bv8)
    ensures Dot(MIX[0], a, b, c, d) == Mixed(a, b, c, d)
    ensures Dot(MIX[1], a, b, c, d) == Mixed(b, c, d, a)
    ensures Dot(MIX[2], a, b, c, d) == Mixed(c, d, a, b)
    ensures Dot(MIX[3], a, b, c, d) == Mixed(d, a, b, c)
    ensures Dot(INV_MIX[0], a, b, c, d) == Unmixed(a, b, c, d)
    ensures Dot(INV_MIX[1], a, b, c, d) == Unmixed(b, c, d, a)
    ensures Dot(INV_MIX[2], a, b, c, d) == Unmixed(c, d, a, b)
    ensures Dot(INV_MIX[3], a, b, c, d) == Unmixed(d, a, b, c)
  {
    hide Mul, Xor4;
    RotateTwice(Mul(1, a), Mul(2, b), Mul(3, c), Mul(1, d));
    RotateTwice(Mul(1, a), Mul(1, b), Mul(2, c), Mul(3, d));
    RotateTwice(Mul(3, a), Mul(1, b), Mul(1, c), Mul(2, d));
    RotateTwice(Mul(0x09, a), Mul(0x0E, b), Mul(0x0B, c), Mul(0x0D, d));
    RotateTwice(Mul(0x0D, a), Mul(0x09, b), Mul(0x0E, c), Mul(0x0B, d));
    RotateTwice(Mul(0x0B, a), Mul(0x0D, b), Mul(0x09, c), Mul(0x0E, d));
  }

  lemma RotateTwice(a: bv8, b: bv8, c: bv8, d: bv8)
    ensures Xor4(a, b, c, d) == Xor4(b, c, d, a) == Xor4(c, d, a, b) == Xor4(d, a, b, c)
  {
    hide *;
    Xor4Rotate(a, b, c, d);
    Xor4Rotate(b, c, d, a);
    Xor4Rotate(c, d, a, b);
  }

  lemma UnmixedMixed(a: bv8, b: bv8, c: bv8, d: bv8)
    ensures Unmixed(Mixed(a, b, c, d), Mixed(b, c, d, a), Mixed(c, d, a, b), Mixed(d, a, b, c)) == a
  {
    hide Mul, Xor4;
    // the four mixed bytes with their terms in the order a, b, c, d
    RotateTwice(Mul(2, b), Mul(3, c), Mul(1, d), Mul(1, a));
    RotateTwice(Mul(2, c), Mul(3, d), Mul(1, a), Mul(1, b));
    RotateTwice(Mul(2, d), Mul(3, a), Mul(1, b), Mul(1, c));
    MulXor4(0x0E, Mul(2, a), Mul(3, b), Mul(1, c), Mul(1, d));
    MulXor4(0x0B, Mul(1, a), Mul(2, b), Mul(3, c), Mul(1, d));
    MulXor4(0x0D, Mul(1, a), Mul(1, b), Mul(2, c), Mul(3, d));
    MulXor4(0x09, Mul(3, a), Mul(1, b), Mul(1, c), Mul(2, d));
    XorTranspose(
      Mul(0x0E, Mul(2, a)), Mul(0x0E, Mul(3, b)), Mul(0x0E, Mul(1, c)), Mul(0x0E, Mul(1, d)),
      Mul(0x0B, Mul(1, a)), Mul(0x0B, Mul(2, b)), Mul(0x0B, Mul(3, c)), Mul(0x0B, Mul(1, d)),
      Mul(0x0D, Mul(1, a)), Mul(0x0D, Mul(1, b)), Mul(0x0D, Mul(2, c)), Mul(0x0D, Mul(3, d)),
      Mul(0x09, Mul(3, a)), Mul(0x09, Mul(1, b)), Mul(0x09, Mul(1, c)), Mul(0x09, Mul(2, d)));
    Column0(a);
    Column1(b);
    Column2(c);
    Column3(d);
    Xor4Unit(a);
  }

  /** Column `j` of a transformed state is the matrix applied to column `j`. */
  lemma ColumnsAt(m: Matrix, s: State, j: nat)
    requires j < 4
    ensures Columns(m, s)[j] == Dot(m[0], s[j], s[4 + j], s[8 + j], s[12 + j])
    ensures Columns(m, s)[4 + j] == Dot(m[1], s[j], s[4 + j], s[8 + j], s[12 + j])
    ensures Columns(m, s)[8 + j] == Dot(m[2], s[j], s[4 + j], s[8 + j], s[12 + j])
    ensures Columns(m, s)[12 + j] == Dot(m[3], s[j], s[4 + j], s[8 + j], s[12 + j])
  {
    hide Dot;
  }

  lemma ColumnReturns(s: State, j: nat)
    requires j < 4
    ensures var t := Columns(INV_MIX, Columns(MIX, s));
      t[j] == s[j] && t[4 + j] == s[4 + j] && t[8 + j] == s[8 + j] && t[12 + j] == s[12 + j]
  {
    hide *;
    ColumnsAt(MIX, s, j);
    ColumnsAt(INV_MIX, Columns(MIX, s), j);
    ColumnInverse(s[j], s[4 + j], s[8 + j], s[12 + j]);
  }

  /** The column transforms are inverse to each other. */
  lemma ColumnsInverse(s: State)
    ensures Columns(INV_MIX, Columns(MIX, s)) == s
  {
    hide *;
    ColumnReturns(s, 0);
    ColumnReturns(s, 1);
    ColumnReturns(s, 2);
    ColumnReturns(s, 3);
    assert Columns(INV_MIX, Columns(MIX, s)) == s;
  }

  lemma ColumnInverse(a: bv8, b: bv8, c: bv8, d: bv8)
    ensures var x, y, z, w :=
      Dot(MIX[0], a, b, c, d), Dot(MIX[1], a, b, c, d), Dot(MIX[2], a, b, c, d), Dot(MIX[3], a, b, c, d);
      && Dot(INV_MIX[0], x, y, z, w) == a
      && Dot(INV_MIX[1], x, y, z, w) == b
      && Dot(INV_MIX[2], x, y, z, w) == c
      && Dot(INV_MIX[3], x, y, z, w) == d
  {
    hide *;
    MatrixRows(a, b, c, d);
    MatrixRows(Mixed(a, b, c, d), Mixed(b, c, d, a), Mixed(c, d, a, b), Mixed(d, a, b, c));
    UnmixedMixed(a, b, c, d);
    UnmixedMixed(b, c, d, a);
    UnmixedMixed(c, d, a, b);
    UnmixedMixed(d, a, b, c);
  }

  // ----- the cipher

  /** The state after encryption round `r`. */
  function EncryptRounds(s: State, w: Schedule, r: nat): State
    requires r <= 9
    decreases r
  {
    if r == 0 then AddKey(s, w, 0) else
      AddKey(Columns(MIX, ShiftState(SubState(EncryptRounds(s, w, r - 1)))), w, r)
  }

  function EncryptState(s: State, w: Schedule): State {
    AddKey(ShiftState(SubState(EncryptRounds(s, w, 9))), w, 10)
  }

  /** The state after decryption round `r` under the decryption schedule `v`. */
  function DecryptRounds(t: State, v: Schedule, r: nat): State
    requires r <= 9
    decreases r
  {
    if r == 0 then AddKey(t, v, 0) else
      Columns(INV_MIX, AddKey(InvSubState(InvShiftState(DecryptRounds(t, v, r - 1))), v, r))
  }

  function DecryptState(t: State, v: Schedule): State {
    AddKey(InvShiftState(InvSubState(DecryptRounds(t, v, 9))), v, 10)
  }

  /** The same eleven round keys in opposite order. */
  function Reversed(w: Schedule): Schedule {
    seq(44, k requires 0 <= k < 44 => w[4 * (10 - k / 4) + k % 4])
  }

  lemma ReversedAt(w: Schedule, r: nat, c: nat)
    requires r <= 10 && c < 4
    ensures Reversed(w)[4 * r + c] == w[4 * (10 - r) + c]
  {
    assert (4 * r + c) / 4 == r && (4 * r + c) % 4 == c;
  }

  lemma AddReversedKey(s: State, w: Schedule, r: nat)
    requires r <= 10
    ensures AddKey(s, Reversed(w), r) == AddKey(s, w, 10 - r)
  {
    hide KeyByte, Xor, Reversed;
    forall k | 0 <= k < 16
      ensures AddKey(s, Reversed(w), r)[k] == AddKey(s, w, 10 - r)[k]
    {
      ReversedAt(w, r, k % 4);
    }
  }

  /** Decryption round `r` is back at the substituted and shifted state of round 9 - r. */
  lemma {:induction false} RoundsMeet(s: State, w: Schedule, r: nat)
    requires r <= 9
    ensures DecryptRounds(EncryptState(s, w), Reversed(w), r) == ShiftState(SubState(EncryptRounds(s, w, 9 - r)))
    decreases r
  {
    hide AddKey, ShiftState, SubState, InvShiftState, InvSubState, Columns, Reversed;
    var t := EncryptState(s, w);
    AddReversedKey(if r == 0 then t else InvSubState(InvShiftState(DecryptRounds(t, Reversed(w), r - 1))), w, r);
    if r == 0 {
      AddKeyInverse(ShiftState(SubState(EncryptRounds(s, w, 9))), w, 10);
    } else {
      RoundsMeet(s, w, r - 1);
      var u := EncryptRounds(s, w, 10 - r);
      var x := ShiftState(SubState(EncryptRounds(s, w, 9 - r)));
      assert u == AddKey(Columns(MIX, x), w, 10 - r);
      ShiftStateInverse(SubState(u));
      SubStateInverse(u);
      AddKeyInverse(Columns(MIX, x), w, 10 - r);
      ColumnsInverse(x);
    }
  }

  /** Sections 5.1 to 5.3 of FIPS 197: the inverse cipher undoes the cipher. */
  lemma StateRoundTrip(s: State, w: Schedule)
    ensures DecryptState(EncryptState(s, w), Reversed(w)) == s
  {
    hide AddKey, ShiftState, SubState, InvShiftState, InvSubState, Columns, Reversed, EncryptState;
    var x := EncryptRounds(s, w, 0);
    RoundsMeet(s, w, 9);
    ShiftCommutesWithSub(ShiftState(SubState(x)));
    ShiftStateInverse(SubState(x));
    SubStateInverse(x);
    AddReversedKey(x, w, 10);
    AddKeyInverse(s, w, 0);
  }

  // ----- messages

  function EncryptBlock(b: State, w: Schedule): State {
    Transpose(EncryptState(Transpose(b), w))
  }

  function DecryptBlock(b: State, v: Schedule): State {
    Transpose(DecryptState(Transpose(b), v))
  }

  function EncryptBlocks(s: seq<bv8>, w: Schedule): (c: seq<bv8>)
    requires |s| % 16 == 0
    ensures |c| == |s|
  {
    if s == [] then [] else
      EncryptBlocks(s[..|s| - 16], w) + EncryptBlock(s[|s| - 16..], w)
  }

  function DecryptBlocks(s: seq<bv8>, v: Schedule): (c: seq<bv8>)
    requires |s| % 16 == 0
    ensures |c| == |s|
  {
    if s == [] then [] else
      DecryptBlocks(s[..|s| - 16], v) + DecryptBlock(s[|s| - 16..], v)
  }

  lemma EncryptSnoc(s: seq<bv8>, b: State, w: Schedule)
    requires |s| % 16 == 0
    ensures EncryptBlocks(s + b, w) == EncryptBlocks(s, w) + EncryptBlock(b, w)
  {
    hide EncryptBlock;
    assert (s + b)[..|s|] == s && (s + b)[|s|..] == b;
  }

  lemma PartsSnoc(a: seq<bv8>, b: seq<bv8>, head: seq<bv8>, last: seq<bv8>)
    requires b == head + last
    ensures a + b == a + head + last
  {
  }

  lemma SplitLast(b: seq<bv8>) returns (head: seq<bv8>, last: State)
    requires |b| % 16 == 0 && b != []
    ensures b == head + last && |head| % 16 == 0 && |head| < |b|
  {
    head, last := b[..|b| - 16], b[|b| - 16..];
  }

  lemma PartsStep(a: seq<bv8>, head: seq<bv8>, last: State, w: Schedule)
    requires |a| % 16 == 0 && |head| % 16 == 0 && |a + head| % 16 == 0
    requires EncryptBlocks(a + head, w) == EncryptBlocks(a, w) + EncryptBlocks(head, w)
    ensures EncryptBlocks(a + (head + last), w) == EncryptBlocks(a, w) + EncryptBlocks(head + last, w)
  {
    hide *;
    EncryptSnoc(head, last, w);
    EncryptSnoc(a + head, last, w);
    PartsSnoc(a, head + last, head, last);
    PartsSnoc(EncryptBlocks(a, w), EncryptBlocks(head + last, w), EncryptBlocks(head, w), EncryptBlock(last, w));
  }

  lemma NoPart(a: seq<bv8>, w: Schedule)
    requires |a| % 16 == 0
    ensures EncryptBlocks(a + [], w) == EncryptBlocks(a, w) + EncryptBlocks([], w)
  {
    assert a + [] == a;
  }

  /** Blocks are encrypted independently: a message in two parts of whole blocks is encrypted part by part. */
  lemma {:induction false} EncryptParts(a: seq<bv8>, b: seq<bv8>, w: Schedule)
    requires |a| % 16 == 0 && |b| % 16 == 0
    ensures EncryptBlocks(a + b, w) == EncryptBlocks(a, w) + EncryptBlocks(b, w)
    decreases |b|
  {
    hide *;
    if b == [] {
      NoPart(a, w);
    } else {
      var head, last := SplitLast(b);
      EncryptParts(a, head, w);
      PartsStep(a, head, last, w);
    }
  }

  /** Decrypting an encrypted message returns it, whatever the key schedule. */
  lemma {:induction false} MessageRoundTrip(s: seq<bv8>, w: Schedule)
    requires |s| % 16 == 0
    ensures DecryptBlocks(EncryptBlocks(s, w), Reversed(w)) == s
    decreases |s|
  {
    hide EncryptState, DecryptState, Transpose, Reversed;
    if s != [] {
      var head, last := s[..|s| - 16], s[|s| - 16..];
      var c := EncryptBlocks(s, w);
      assert c[..|c| - 16] == EncryptBlocks(head, w);
      assert c[|c| - 16..] == EncryptBlock(last, w);
      MessageRoundTrip(head, w);
      TransposeInvolution(EncryptState(Transpose(last), w));
      StateRoundTrip(Transpose(last), w);
      TransposeInvolution(last);
    }
  }
}
