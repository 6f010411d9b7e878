/** The loops of smile-case1/aes.h, proved to compute the transforms of module Aes. */
module AesLoops {

  import opened AesField
  import opened Aes

  // ----- words and bytes

  /** LOAD32H */
  function Load32(a: bv8, b: bv8, c: bv8, d: bv8): bv32 {
    (a as bv32 << 24) | (b as bv32 << 16) | (c as bv32 << 8) | d as bv32
  }

  /** The word rotated left by `8 * n`; by zero it is the word itself. */
  function RotateLeft(x: bv32, n: nat): bv32
    requires n < 4
  {
    match n
    case 0 => x
    case 1 => (x << 8) | (x >> 24)
    case 2 => (x << 16) | (x >> 16)
    case _ => (x << 24) | (x >> 8)
  }

  function RotateRight(x: bv32, n: nat): bv32
    requires n < 4
  {
    match n
    case 0 => x
    case 1 => (x >> 8) | (x << 24)
    case 2 => (x >> 16) | (x << 16)
    case _ => (x >> 24) | (x << 8)
  }

  lemma LoadStore(a: bv8, b: bv8, c: bv8, d: bv8)
    ensures KeyByte(Load32(a, b, c, d), 0) == a && KeyByte(Load32(a, b, c, d), 1) == b
    ensures KeyByte(Load32(a, b, c, d), 2) == c && KeyByte(Load32(a, b, c, d), 3) == d
  {
  }

  /** Rotating a word by whole bytes renumbers its bytes. */
  lemma RotateOne(x: bv32)
    ensures KeyByte(RotateByte(x), 0) == KeyByte(x, 1) && KeyByte(RotateByte(x), 1) == KeyByte(x, 2)
    ensures KeyByte(RotateByte(x), 2) == KeyByte(x, 3) && KeyByte(RotateByte(x), 3) == KeyByte(x, 0)
  {
  }

  lemma RotateAgain(x: bv32)
    ensures (((x << 8) | (x >> 24)) << 8) | (((x << 8) | (x >> 24)) >> 24) == (x << 16) | (x >> 16)
    ensures (((x << 16) | (x >> 16)) << 8) | (((x << 16) | (x >> 16)) >> 24) == (x << 24) | (x >> 8)
  {
  }

  function RotateByte(x: bv32): bv32 { (x << 8) | (x >> 24) }

  lemma RotateNested1(x: bv32)
    ensures RotateLeft(x, 1) == RotateByte(RotateLeft(x, 0))
  {
  }

  lemma RotateNested2(x: bv32)
    ensures RotateLeft(x, 2) == RotateByte(RotateLeft(x, 1))
  {
    RotateAgain(x);
  }

  lemma RotateNested3(x: bv32)
    ensures RotateLeft(x, 3) == RotateByte(RotateLeft(x, 2))
  {
    RotateAgain(x);
  }

  lemma RotateNested(x: bv32, n: nat)
    requires 0 < n < 4
    ensures RotateLeft(x, n) == RotateByte(RotateLeft(x, n - 1))
  {
    hide *;
    RotateNested1(x);
    RotateNested2(x);
    RotateNested3(x);
  }

  lemma RotateNone(x: bv32)
    ensures RotateLeft(x, 0) == x
  {
  }

  lemma RotateByteAt(x: bv32, i: nat)
    requires i < 4
    ensures KeyByte(RotateByte(x), i) == KeyByte(x, (i + 1) % 4)
  {
    hide *;
    RotateOne(x);
  }

  lemma {:induction false} RotateBytes(x: bv32, n: nat, i: nat)
    requires n < 4 && i < 4
    ensures KeyByte(RotateLeft(x, n), i) == KeyByte(x, (i + n) % 4)
    decreases n
  {
    hide KeyByte, RotateLeft, RotateByte;
    if n == 0 {
      RotateNone(x);
    } else {
      RotateNested(x, n);
      RotateByteAt(RotateLeft(x, n - 1), i);
      RotateBytes(x, n - 1, (i + 1) % 4);
    }
  }

  lemma RotateRightIsLeft(x: bv32, n: nat)
    requires n < 4
    ensures RotateRight(x, n) == RotateLeft(x, (4 - n) % 4)
  {
    assert (x >> 8) | (x << 24) == (x << 24) | (x >> 8);
    assert (x >> 16) | (x << 16) == (x << 16) | (x >> 16);
    assert (x >> 24) | (x << 8) == (x << 8) | (x >> 24);
  }

  // ----- the state transforms

  method LoadStateArray(state: array<bv8>, input: array<bv8>, start: nat)
    requires state.Length == 16 && start + 16 <= input.Length && state != input
    modifies state
    ensures state[..] == Transpose(input[start..start + 16])
  {
    for i := 0 to 4
      invariant forall k :: 0 <= k < 16 && k % 4 < i ==> state[k] == input[start + 4 * (k % 4) + k / 4]
    {
      for j := 0 to 4
        invariant forall k :: 0 <= k < 16 && (k % 4 < i || (k % 4 == i && k / 4 < j)) ==>
          state[k] == input[start + 4 * (k % 4) + k / 4]
      {
        state[4 * j + i] := input[start + 4 * i + j];
      }
    }
  }

  lemma TransposeAt(s: State, i: nat, j: nat)
    requires i < 4 && j < 4
    ensures Transpose(s)[4 * i + j] == s[4 * j + i]
  {
    assert (4 * i + j) / 4 == i && (4 * i + j) % 4 == j;
  }

  method StoreStateArray(state: array<bv8>, output: array<bv8>, start: nat)
    requires state.Length == 16 && start + 16 <= output.Length && state != output
    modifies output
    ensures output[start..start + 16] == Transpose(state[..])
    ensures output[..start] == old(output[..start]) && output[start + 16..] == old(output[start + 16..])
  {
    hide Transpose;
    for i := 0 to 4
      invariant output[start..start + 4 * i] == Transpose(state[..])[..4 * i]
      invariant output[..start] == old(output[..start]) && output[start + 16..] == old(output[start + 16..])
    {
      for j := 0 to 4
        invariant output[start..start + 4 * i + j] == Transpose(state[..])[..4 * i + j]
        invariant output[..start] == old(output[..start]) && output[start + 16..] == old(output[start + 16..])
      {
        TransposeAt(state[..], i, j);
        output[start + 4 * i + j] := state[4 * j + i];
        assert output[start..start + 4 * i + j + 1] ==
          output[start..start + 4 * i + j] + [output[start + 4 * i + j]];
      }
    }
  }

  lemma AddKeyAt(s: State, w: Schedule, round: nat, i: nat, j: nat)
    requires round <= 10 && i < 4 && j < 4
    ensures AddKey(s, w, round)[4 * i + j] == Xor(s[4 * i + j], KeyByte(w[4 * round + j], i))
  {
    hide Xor, KeyByte;
    assert (4 * i + j) / 4 == i && (4 * i + j) % 4 == j;
  }

  /** One more cell of `state` replaced by the goal's; those after it still hold `s`. */
  method PutNext(state: array<bv8>, k: nat, x: bv8, ghost goal: State, ghost s: State)
    requires state.Length == 16 && k < 16 && x == goal[k]
    requires state[..k] == goal[..k] && state[k..] == s[k..]
    modifies state
    ensures state[..k + 1] == goal[..k + 1] && state[k + 1..] == s[k + 1..]
  {
    state[k] := x;
    assert state[..k + 1] == state[..k] + [state[k]];
    assert state[k + 1..] == old(state[k..])[1..];
  }

  method AddRoundKey(state: array<bv8>, key: array<bv32>, round: nat)
    requires state.Length == 16 && key.Length == 44 && round <= 10
    modifies state
    ensures state[..] == AddKey(old(state[..]), key[..], round)
  {
    hide KeyByte, Xor, AddKey;
    ghost var s: State := state[..];
    for i := 0 to 4
      invariant state[..4 * i] == AddKey(s, key[..], round)[..4 * i]
      invariant state[4 * i..] == s[4 * i..]
    {
      for j := 0 to 4
        invariant state[..4 * i + j] == AddKey(s, key[..], round)[..4 * i + j]
        invariant state[4 * i + j..] == s[4 * i + j..]
      {
        AddKeyAt(s, key[..], round, i, j);
        assert state[4 * i + j] == state[4 * i + j..][0];
        assert key[..][4 * round + j] == key[4 * round + j];
        PutNext(state, 4 * i + j, Xor(state[4 * i + j], KeyByte(key[4 * round + j], i)), AddKey(s, key[..], round), s);
      }
    }
  }

  method SubBytes(state: array<bv8>)
    requires state.Length == 16
    modifies state
    ensures state[..] == SubState(old(state[..]))
  {
    hide Sub;
    for i := 0 to 4
      invariant forall k :: 0 <= k < 4 * i ==> state[k] == Sub(old(state[k]))
      invariant forall k :: 4 * i <= k < 16 ==> state[k] == old(state[k])
    {
      for j := 0 to 4
        invariant forall k :: 0 <= k < 4 * i + j ==> state[k] == Sub(old(state[k]))
        invariant forall k :: 4 * i + j <= k < 16 ==> state[k] == old(state[k])
      {
        state[4 * i + j] := Sub(state[4 * i + j]);
      }
    }
  }

  method InvSubBytes(state: array<bv8>)
    requires state.Length == 16
    modifies state
    ensures state[..] == InvSubState(old(state[..]))
  {
    hide InvSub;
    for i := 0 to 4
      invariant forall k :: 0 <= k < 4 * i ==> state[k] == InvSub(old(state[k]))
      invariant forall k :: 4 * i <= k < 16 ==> state[k] == old(state[k])
    {
      for j := 0 to 4
        invariant forall k :: 0 <= k < 4 * i + j ==> state[k] == InvSub(old(state[k]))
        invariant forall k :: 4 * i + j <= k < 16 ==> state[k] == old(state[k])
      {
        state[4 * i + j] := InvSub(state[4 * i + j]);
      }
    }
  }

  lemma RowRotated(r: seq<bv8>, n: nat, j: nat)
    requires |r| == 4 && n < 4 && j < 4
    ensures KeyByte(RotateLeft(Load32(r[0], r[1], r[2], r[3]), n), j) == r[(j + n) % 4]
  {
    hide KeyByte, Load32, RotateLeft;
    LoadStore(r[0], r[1], r[2], r[3]);
    RotateBytes(Load32(r[0], r[1], r[2], r[3]), n, j);
  }

  lemma RowOfRotated(r: seq<bv8>, n: nat)
    requires |r| == 4 && n < 4
    ensures var x := RotateLeft(Load32(r[0], r[1], r[2], r[3]), n);
      [KeyByte(x, 0), KeyByte(x, 1), KeyByte(x, 2), KeyByte(x, 3)] == [r[n], r[(1 + n) % 4], r[(2 + n) % 4], r[(3 + n) % 4]]
  {
    hide KeyByte, Load32, RotateLeft;
    RowRotated(r, n, 0);
    RowRotated(r, n, 1);
    RowRotated(r, n, 2);
    RowRotated(r, n, 3);
  }

  /** The state with row `i` moved left by `n` places. */
  function RowMoved(s: State, i: nat, n: nat): State
    requires i < 4 && n < 4
  {
    var r := s[4 * i..4 * i + 4];
    s[..4 * i] + [r[n], r[(1 + n) % 4], r[(2 + n) % 4], r[(3 + n) % 4]] + s[4 * i + 4..]
  }

  /** STORE32H over row `i`. */
  method WriteRow(state: array<bv8>, i: nat, x: bv32)
    requires state.Length == 16 && i < 4
    modifies state
    ensures state[..] == old(state[..4 * i]) +
      [KeyByte(x, 0), KeyByte(x, 1), KeyByte(x, 2), KeyByte(x, 3)] + old(state[4 * i + 4..])
  {
    hide KeyByte;
    state[4 * i] := KeyByte(x, 0);
    state[4 * i + 1] := KeyByte(x, 1);
    state[4 * i + 2] := KeyByte(x, 2);
    state[4 * i + 3] := KeyByte(x, 3);
  }

  /** Row `i` loaded as a word, rotated left by `n` bytes and stored back. */
  method StoreRow(state: array<bv8>, i: nat, n: nat, rotated: bv32)
    requires state.Length == 16 && i < 4 && n < 4
    requires rotated == RotateLeft(Load32(state[4 * i], state[4 * i + 1], state[4 * i + 2], state[4 * i + 3]), n)
    modifies state
    ensures state[..] == RowMoved(old(state[..]), i, n)
  {
    hide KeyByte, Load32, RotateLeft;
    ghost var r := state[4 * i..4 * i + 4];
    assert old(state[..])[4 * i..4 * i + 4] == r;
    RowOfRotated(r, n);
    WriteRow(state, i, rotated);
  }

  /** The state with its first `i` rows shifted. */
  function ShiftedRows(s: State, i: nat): State
    requires i <= 4
  {
    ShiftState(s)[..4 * i] + s[4 * i..]
  }

  function InvShiftedRows(s: State, i: nat): State
    requires i <= 4
  {
    InvShiftState(s)[..4 * i] + s[4 * i..]
  }

  lemma ShiftAt(s: State, i: nat, j: nat)
    requires i < 4 && j < 4
    ensures ShiftState(s)[4 * i + j] == s[4 * i..4 * i + 4][(j + i) % 4]
  {
    assert (4 * i + j) / 4 == i && (4 * i + j) % 4 == j;
  }

  /** Four neighbours of a sequence. */
  lemma FourSlice<T>(s: seq<T>, at: nat)
    requires at + 4 <= |s|
    ensures s[at..at + 4] == [s[at], s[at + 1], s[at + 2], s[at + 3]]
  {
  }

  /** The four cells of one row of `t`, each found in the row `r` by `n` places further. */
  lemma RowFrom(t: State, i: nat, r: seq<bv8>, n: nat)
    requires i < 4 && n < 4 && |r| == 4
    requires t[4 * i] == r[n] && t[4 * i + 1] == r[(1 + n) % 4]
    requires t[4 * i + 2] == r[(2 + n) % 4] && t[4 * i + 3] == r[(3 + n) % 4]
    ensures t[4 * i..4 * i + 4] == [r[n], r[(1 + n) % 4], r[(2 + n) % 4], r[(3 + n) % 4]]
  {
    FourSlice(t, 4 * i);
  }

  lemma RowOfShift(s: State, i: nat)
    requires i < 4
    ensures var r := s[4 * i..4 * i + 4];
      ShiftState(s)[4 * i..4 * i + 4] == [r[i], r[(1 + i) % 4], r[(2 + i) % 4], r[(3 + i) % 4]]
  {
    hide *;
    ShiftAt(s, i, 0);
    ShiftAt(s, i, 1);
    ShiftAt(s, i, 2);
    ShiftAt(s, i, 3);
    RowFrom(ShiftState(s), i, s[4 * i..4 * i + 4], i);
  }

  /** Replacing one more row of a state by the goal's. */
  lemma RowReplaced(goal: State, s: State, at: nat)
    requires at + 4 <= 16
    ensures var t := goal[..at] + s[at..];
      t[at..at + 4] == s[at..at + 4] && t[..at] + goal[at..at + 4] + t[at + 4..] == goal[..at + 4] + s[at + 4..]
  {
  }

  lemma RowShifted(s: State, i: nat)
    requires i < 4
    ensures RowMoved(ShiftedRows(s, i), i, i) == ShiftedRows(s, i + 1)
  {
    hide ShiftState;
    RowOfShift(s, i);
    RowReplaced(ShiftState(s), s, 4 * i);
  }

  lemma InvShiftAt(s: State, i: nat, j: nat)
    requires i < 4 && j < 4
    ensures InvShiftState(s)[4 * i + j] == s[4 * i..4 * i + 4][(j + (4 - i) % 4) % 4]
  {
    assert (4 * i + j) / 4 == i && (4 * i + j) % 4 == j;
  }

  lemma RowOfInvShift(s: State, i: nat)
    requires i < 4
    ensures var r, n := s[4 * i..4 * i + 4], (4 - i) % 4;
      InvShiftState(s)[4 * i..4 * i + 4] == [r[n], r[(1 + n) % 4], r[(2 + n) % 4], r[(3 + n) % 4]]
  {
    hide *;
    InvShiftAt(s, i, 0);
    InvShiftAt(s, i, 1);
    InvShiftAt(s, i, 2);
    InvShiftAt(s, i, 3);
    RowFrom(InvShiftState(s), i, s[4 * i..4 * i + 4], (4 - i) % 4);
  }

  lemma InvRowShifted(s: State, i: nat)
    requires i < 4
    ensures RowMoved(InvShiftedRows(s, i), i, (4 - i) % 4) == InvShiftedRows(s, i + 1)
  {
    hide InvShiftState;
    RowOfInvShift(s, i);
    RowReplaced(InvShiftState(s), s, 4 * i);
  }

  method ShiftRows(state: array<bv8>)
    requires state.Length == 16
    modifies state
    ensures state[..] == ShiftState(old(state[..]))
  {
    hide KeyByte, Load32, RotateLeft, ShiftState, RowMoved;
    ghost var s := state[..];
    for i := 0 to 4
      invariant state[..] == ShiftedRows(s, i)
    {
      RowShifted(s, i);
      var block := Load32(state[4 * i], state[4 * i + 1], state[4 * i + 2], state[4 * i + 3]);
      StoreRow(state, i, i, RotateLeft(block, i));
    }
  }

  method InvShiftRows(state: array<bv8>)
    requires state.Length == 16
    modifies state
    ensures state[..] == InvShiftState(old(state[..]))
  {
    hide KeyByte, Load32, RotateLeft, RotateRight, InvShiftState, RowMoved;
    ghost var s := state[..];
    for i := 0 to 4
      invariant state[..] == InvShiftedRows(s, i)
    {
      InvRowShifted(s, i);
      var block := Load32(state[4 * i], state[4 * i + 1], state[4 * i + 2], state[4 * i + 3]);
      RotateRightIsLeft(block, i);
      StoreRow(state, i, (4 - i) % 4, RotateRight(block, i));
    }
  }

  lemma ColumnsEntry(m: Matrix, s: State, i: nat, j: nat)
    requires i < 4 && j < 4
    ensures Columns(m, s)[4 * i + j] ==
      Xor4(Mul(m[i][0], s[j]), Mul(m[i][1], s[4 + j]), Mul(m[i][2], s[8 + j]), Mul(m[i][3], s[12 + j]))
  {
    hide Mul, Xor4;
    assert (4 * i + j) / 4 == i && (4 * i + j) % 4 == j;
  }

  /** mixColumns and invMixColumns, which differ only in their matrix. */
  method MixColumns(state: array<bv8>, m: Matrix)
    requires state.Length == 16
    modifies state
    ensures state[..] == Columns(m, old(state[..]))
  {
    hide Mul, Xor4, Columns;
    var tmp: State := state[..];
    for i := 0 to 4
      invariant state[..4 * i] == Columns(m, tmp)[..4 * i]
    {
      for j := 0 to 4
        invariant state[..4 * i + j] == Columns(m, tmp)[..4 * i + j]
      {
        var a := GMul(m[i][0], tmp[j]);
        var b := GMul(m[i][1], tmp[4 + j]);
        var c := GMul(m[i][2], tmp[8 + j]);
        var d := GMul(m[i][3], tmp[12 + j]);
        ColumnsEntry(m, tmp, i, j);
        state[4 * i + j] := Xor4(a, b, c, d);
        assert state[..4 * i + j + 1] == state[..4 * i + j] + [state[4 * i + j]];
      }
    }
  }

  // ----- key expansion

  const RCON: seq<bv32> := [0x01000000, 0x02000000, 0x04000000, 0x08000000, 0x10000000,
                            0x20000000, 0x40000000, 0x80000000, 0x1B000000, 0x36000000]

  function Rcon(i: nat): bv32
    requires i < 10
  {
    RCON[i]
  }

  /** MIX: the word's bytes substituted and rotated left by one. */
  function MixWord(x: bv32): bv32 {
    Load32(Sub(KeyByte(x, 1)), Sub(KeyByte(x, 2)), Sub(KeyByte(x, 3)), Sub(KeyByte(x, 0)))
  }

  function XorWord(x: bv32, y: bv32): bv32 { x ^ y }

  type Key = k: seq<bv8> | |k| == 16 witness [0, 0, 0, 0, 0, 0, 0, 0, 0, 0, 0, 0, 0, 0, 0, 0]

  /** Word `i` of the key schedule by the recurrence of section 5.2 of FIPS 197. */
  function KeyWord(key: Key, i: nat): bv32
    requires i < 44
    decreases i
  {
    if i < 4 then Load32(key[4 * i], key[4 * i + 1], key[4 * i + 2], key[4 * i + 3])
    else if i % 4 == 0 then XorWord(XorWord(KeyWord(key, i - 4), MixWord(KeyWord(key, i - 1))), Rcon(i / 4 - 1))
    else XorWord(KeyWord(key, i - 4), KeyWord(key, i - 1))
  }

  function Expanded(key: Key): Schedule {
    seq(44, i requires 0 <= i < 44 => KeyWord(key, i))
  }

  class AesKey {
    const eK: array<bv32>
    const dK: array<bv32>

    constructor ()
      ensures fresh(eK) && fresh(dK) && eK != dK && eK.Length == 44 && dK.Length == 44
    {
      eK := new bv32[44](_ => 0);
      dK := new bv32[44](_ => 0);
    }
  }

  /** The loops of keyExpansion: the recurrence in eK, the same round keys backwards in dK. */
  method FillKeys(key: Key, aesKey: AesKey)
    requires aesKey.eK.Length == 44 && aesKey.dK.Length == 44 && aesKey.eK != aesKey.dK
    modifies aesKey.eK, aesKey.dK
    ensures aesKey.eK[..] == Expanded(key)
    ensures aesKey.dK[..] == Reversed(Expanded(key))
  {
    hide Load32, Expanded, Reversed, NextRound, Rcon;
    var w := aesKey.eK;
    for i := 0 to 4
      invariant w[..i] == Expanded(key)[..i]
    {
      FirstWords(key, i);
      w[i] := Load32(key[4 * i], key[4 * i + 1], key[4 * i + 2], key[4 * i + 3]);
      assert w[..i + 1] == w[..i] + [w[i]];
    }
    for i := 0 to 10
      invariant w[..4 * i + 4] == Expanded(key)[..4 * i + 4]
    {
      ghost var e := Expanded(key);
      assert w[4 * i] == e[4 * i] && w[4 * i + 1] == e[4 * i + 1] by {
        assert w[4 * i] == w[..4 * i + 4][4 * i] && w[4 * i + 1] == w[..4 * i + 4][4 * i + 1];
      }
      assert w[4 * i + 2] == e[4 * i + 2] && w[4 * i + 3] == e[4 * i + 3] by {
        assert w[4 * i + 2] == w[..4 * i + 4][4 * i + 2] && w[4 * i + 3] == w[..4 * i + 4][4 * i + 3];
      }
      ExpandTurn(w, i);
      NextWords(key, i);
      assert w[..4 * i + 8] == w[..4 * i + 4] + w[4 * i + 4..4 * i + 8];
      assert e[..4 * i + 8] == e[..4 * i + 4] + e[4 * i + 4..4 * i + 8];
    }
    assert w[..44] == w[..];
    ReverseKeys(w, aesKey.dK);
  }

  /** keyExpansion */
  method KeyExpansion(key: array?<bv8>, keyLen: nat, aesKey: AesKey?) returns (rc: int)
    requires key != null ==> keyLen <= key.Length
    requires aesKey != null ==> aesKey.eK.Length == 44 && aesKey.dK.Length == 44 && aesKey.eK != aesKey.dK
    modifies if aesKey == null then {} else {aesKey.eK, aesKey.dK}
    ensures rc == if key != null && aesKey != null && keyLen == 16 then 0 else -1
    ensures rc == 0 ==> aesKey.eK[..] == Expanded(key[..16]) && aesKey.dK[..] == Reversed(Expanded(key[..16]))
    ensures rc != 0 && aesKey != null ==> unchanged(aesKey.eK, aesKey.dK)
  {
    hide Expanded, Reversed;
    if key == null || aesKey == null {
      return -1;
    }
    if keyLen != 16 {
      return -1;
    }
    FillKeys(key[..16], aesKey);
    return 0;
  }

  lemma FirstWords(key: Key, i: nat)
    requires i < 4
    ensures Expanded(key)[i] == Load32(key[4 * i], key[4 * i + 1], key[4 * i + 2], key[4 * i + 3])
  {
    hide Load32;
  }

  lemma ExpandedAt(key: Key, k: nat)
    requires k < 44
    ensures Expanded(key)[k] == KeyWord(key, k)
  {
    hide KeyWord;
  }

  lemma KeyWordStart(key: Key, k: nat, i: nat)
    requires i < 10 && k == 4 * i + 4
    ensures KeyWord(key, k) == XorWord(XorWord(KeyWord(key, k - 4), MixWord(KeyWord(key, k - 1))), Rcon(i))
  {
    hide Load32, MixWord, XorWord, Rcon;
    assert k % 4 == 0 && k / 4 - 1 == i;
  }

  lemma KeyWordNext(key: Key, k: nat)
    requires 4 <= k < 44 && k % 4 != 0
    ensures KeyWord(key, k) == XorWord(KeyWord(key, k - 4), KeyWord(key, k - 1))
  {
    hide Load32, MixWord, XorWord;
  }

  lemma RoundStart(key: Key, i: nat)
    requires i < 10
    ensures Expanded(key)[4 * i + 4] ==
      XorWord(XorWord(Expanded(key)[4 * i], MixWord(Expanded(key)[4 * i + 3])), Rcon(i))
  {
    hide *;
    ExpandedAt(key, 4 * i + 4);
    ExpandedAt(key, 4 * i + 3);
    ExpandedAt(key, 4 * i);
    KeyWordStart(key, 4 * i + 4, i);
  }

  lemma RoundNext(key: Key, i: nat, j: nat)
    requires i < 10 && 0 < j < 4
    ensures Expanded(key)[4 * i + 4 + j] == XorWord(Expanded(key)[4 * i + j], Expanded(key)[4 * i + 3 + j])
  {
    hide *;
    assert (4 * i + 4 + j) % 4 != 0;
    ExpandedAt(key, 4 * i + 4 + j);
    ExpandedAt(key, 4 * i + j);
    ExpandedAt(key, 4 * i + 3 + j);
    KeyWordNext(key, 4 * i + 4 + j);
  }

  /** The four words of the next round key from the four words of the last. */
  function NextRound(a: bv32, b: bv32, c: bv32, d: bv32, rcon: bv32): (r: seq<bv32>)
    ensures |r| == 4
  {
    var e := XorWord(XorWord(a, MixWord(d)), rcon);
    var f := XorWord(b, e);
    var g := XorWord(c, f);
    [e, f, g, XorWord(d, g)]
  }

  lemma NextRoundIs(a: bv32, b: bv32, c: bv32, d: bv32, rcon: bv32, e: bv32, f: bv32, g: bv32, h: bv32)
    requires e == XorWord(XorWord(a, MixWord(d)), rcon)
    requires f == XorWord(b, e) && g == XorWord(c, f) && h == XorWord(d, g)
    ensures NextRound(a, b, c, d, rcon) == [e, f, g, h]
  {
    hide MixWord, XorWord;
  }

  lemma NextWords(key: Key, i: nat)
    requires i < 10
    ensures var e := Expanded(key);
      e[4 * i + 4..4 * i + 8] == NextRound(e[4 * i], e[4 * i + 1], e[4 * i + 2], e[4 * i + 3], Rcon(i))
  {
    hide *;
    RoundStart(key, i);
    RoundNext(key, i, 1);
    RoundNext(key, i, 2);
    RoundNext(key, i, 3);
    var e, k := Expanded(key), 4 * i;
    NextRoundIs(e[k], e[k + 1], e[k + 2], e[k + 3], Rcon(i), e[k + 4], e[k + 5], e[k + 6], e[k + 7]);
    FourSlice(e, k + 4);
  }

  /** One turn of the expansion loop. */
  method ExpandTurn(w: array<bv32>, i: nat)
    requires w.Length == 44 && i < 10
    modifies w
    ensures w[..4 * i + 4] == old(w[..4 * i + 4])
    ensures w[4 * i + 4..4 * i + 8] ==
      NextRound(old(w[4 * i]), old(w[4 * i + 1]), old(w[4 * i + 2]), old(w[4 * i + 3]), Rcon(i))
  {
    hide MixWord, XorWord, Rcon;
    w[4 * i + 4] := XorWord(XorWord(w[4 * i], MixWord(w[4 * i + 3])), Rcon(i));
    w[4 * i + 5] := XorWord(w[4 * i + 1], w[4 * i + 4]);
    w[4 * i + 6] := XorWord(w[4 * i + 2], w[4 * i + 5]);
    w[4 * i + 7] := XorWord(w[4 * i + 3], w[4 * i + 6]);
  }

  /** The loop that lays the round keys out backwards. */
  method ReverseKeys(w: array<bv32>, v: array<bv32>)
    requires w.Length == 44 && v.Length == 44 && w != v
    modifies v
    ensures v[..] == Reversed(w[..])
  {
    for j := 0 to 11
      invariant v[..4 * j] == Reversed(w[..])[..4 * j]
    {
      for i := 0 to 4
        invariant v[..4 * j + i] == Reversed(w[..])[..4 * j + i]
      {
        assert (4 * j + i) / 4 == j && (4 * j + i) % 4 == i;
        v[4 * j + i] := w[40 - 4 * j + i];
        assert v[..4 * j + i + 1] == v[..4 * j + i] + [v[4 * j + i]];
      }
    }
    assert v[..44] == v[..];
  }

  // ----- whole messages

  /** A key of at most sixteen bytes padded with zeros. */
  function Padded(key: seq<bv8>): Key
    requires |key| <= 16
  {
    seq(16, k requires 0 <= k < 16 => if k < |key| then key[k] else 0)
  }

  /** The zeroed 16-byte buffer with the key copied to its front. */
  method PaddedKey(key: array<bv8>, keyLen: nat) returns (actualKey: array<bv8>)
    requires keyLen <= 16 && keyLen <= key.Length
    ensures fresh(actualKey) && actualKey.Length == 16 && actualKey[..16] == Padded(key[..keyLen])
  {
    actualKey := new bv8[16](_ => 0);
    for k := 0 to keyLen
      invariant forall i :: 0 <= i < 16 ==> actualKey[i] == if i < k then key[i] else 0
    {
      actualKey[k] := key[k];
    }
  }

  method EncryptOne(state: array<bv8>, eK: array<bv32>)
    requires state.Length == 16 && eK.Length == 44
    modifies state
    ensures state[..] == EncryptState(old(state[..]), eK[..])
  {
    hide AddKey, SubState, ShiftState, Columns;
    ghost var s := state[..];
    AddRoundKey(state, eK, 0);
    for j := 1 to 10
      invariant state[..] == EncryptRounds(s, eK[..], j - 1)
    {
      SubBytes(state);
      ShiftRows(state);
      MixColumns(state, MIX);
      AddRoundKey(state, eK, j);
    }
    SubBytes(state);
    ShiftRows(state);
    AddRoundKey(state, eK, 10);
  }

  method DecryptOne(state: array<bv8>, dK: array<bv32>)
    requires state.Length == 16 && dK.Length == 44
    modifies state
    ensures state[..] == DecryptState(old(state[..]), dK[..])
  {
    hide AddKey, InvSubState, InvShiftState, Columns;
    ghost var s := state[..];
    AddRoundKey(state, dK, 0);
    for j := 1 to 10
      invariant state[..] == DecryptRounds(s, dK[..], j - 1)
    {
      InvShiftRows(state);
      InvSubBytes(state);
      AddRoundKey(state, dK, j);
      MixColumns(state, INV_MIX);
    }
    InvSubBytes(state);
    InvShiftRows(state);
    AddRoundKey(state, dK, 10);
  }

  lemma EncryptNothing(w: Schedule)
    ensures EncryptBlocks([], w) == []
  {
  }

  lemma DecryptNothing(v: Schedule)
    ensures DecryptBlocks([], v) == []
  {
  }

  lemma EncryptBlocksExtend(s: seq<bv8>, w: Schedule)
    requires |s| >= 16 && |s| % 16 == 0
    ensures EncryptBlocks(s, w) == EncryptBlocks(s[..|s| - 16], w) + EncryptBlock(s[|s| - 16..], w)
  {
  }

  lemma DecryptBlocksExtend(s: seq<bv8>, v: Schedule)
    requires |s| >= 16 && |s| % 16 == 0
    ensures DecryptBlocks(s, v) == DecryptBlocks(s[..|s| - 16], v) + DecryptBlock(s[|s| - 16..], v)
  {
  }

  /** The block loop of aesEncrypt; input and output may be one buffer. */
  method EncryptLoop(keys: array<bv32>, input: array<bv8>, output: array<bv8>, len: nat)
    requires keys.Length == 44 && len % 16 == 0 && len <= input.Length && len <= output.Length
    modifies output
    ensures output[..len] == EncryptBlocks(old(input[..len]), keys[..])
    ensures output[len..] == old(output[len..])
  {
    hide Transpose, EncryptState, EncryptBlocks;
    EncryptNothing(keys[..]);
    var state := new bv8[16](_ => 0);
    var i: nat := 0;
    while i < len
      invariant i <= len && i % 16 == 0
      invariant output[..i] == EncryptBlocks(old(input[..i]), keys[..])
      invariant input[i..] == old(input[i..]) && output[i..] == old(output[i..])
    {
      ghost var done := output[..i];
      assert input[i..i + 16] == old(input[i..])[..16];
      LoadStateArray(state, input, i);
      EncryptOne(state, keys);
      StoreStateArray(state, output, i);
      EncryptBlocksExtend(old(input[..i + 16]), keys[..]);
      assert old(input[..i + 16])[..i] == old(input[..i]);
      assert old(input[..i + 16])[i..] == old(input[i..])[..16];
      assert output[..i + 16] == output[..i] + output[i..i + 16];
      assert output[..i] == done;
      i := i + 16;
    }
  }

  /** The block loop of aesDecrypt; input and output may be one buffer. */
  method DecryptLoop(keys: array<bv32>, input: array<bv8>, output: array<bv8>, len: nat)
    requires keys.Length == 44 && len % 16 == 0 && len <= input.Length && len <= output.Length
    modifies output
    ensures output[..len] == DecryptBlocks(old(input[..len]), keys[..])
    ensures output[len..] == old(output[len..])
  {
    hide Transpose, DecryptState, DecryptBlocks;
    DecryptNothing(keys[..]);
    var state := new bv8[16](_ => 0);
    var i: nat := 0;
    while i < len
      invariant i <= len && i % 16 == 0
      invariant output[..i] == DecryptBlocks(old(input[..i]), keys[..])
      invariant input[i..] == old(input[i..]) && output[i..] == old(output[i..])
    {
      ghost var done := output[..i];
      assert input[i..i + 16] == old(input[i..])[..16];
      LoadStateArray(state, input, i);
      DecryptOne(state, keys);
      StoreStateArray(state, output, i);
      DecryptBlocksExtend(old(input[..i + 16]), keys[..]);
      assert old(input[..i + 16])[..i] == old(input[..i]);
      assert old(input[..i + 16])[i..] == old(input[i..])[..16];
      assert output[..i + 16] == output[..i] + output[i..i + 16];
      assert output[..i] == done;
      i := i + 16;
    }
  }

  predicate ParamsOk(key: array?<bv8>, keyLen: nat, input: array?<bv8>, output: array?<bv8>, len: nat) {
    key != null && input != null && output != null && keyLen <= 16 && len % 16 == 0
  }

  /** The two key schedules both directions start from: the padded copy of the key, expanded. */
  method ScheduleFor(key: array<bv8>, keyLen: nat) returns (aesKey: AesKey)
    requires keyLen <= 16 && keyLen <= key.Length
    ensures fresh(aesKey) && fresh(aesKey.eK) && fresh(aesKey.dK)
    ensures aesKey.eK.Length == 44 && aesKey.eK[..] == Expanded(Padded(key[..keyLen]))
    ensures aesKey.dK.Length == 44 && aesKey.dK[..] == Reversed(Expanded(Padded(key[..keyLen])))
  {
    hide Expanded, Reversed, Padded;
    var actualKey := PaddedKey(key, keyLen);
    aesKey := new AesKey();
    var rc := KeyExpansion(actualKey, 16, aesKey);
  }

  /** aesEncrypt; the output may be the input buffer. */
  method AesEncrypt(key: array?<bv8>, keyLen: nat, pt: array?<bv8>, ct: array?<bv8>, len: nat) returns (rc: int)
    requires ParamsOk(key, keyLen, pt, ct, len) ==> keyLen <= key.Length && len <= pt.Length && len <= ct.Length
    modifies if ct == null then {} else {ct}
    ensures rc == if ParamsOk(key, keyLen, pt, ct, len) then 0 else -1
    ensures rc == 0 ==> ct[..len] == EncryptBlocks(old(pt[..len]), Expanded(Padded(old(key[..keyLen]))))
    ensures rc == 0 ==> ct[len..] == old(ct[len..])
    ensures rc != 0 && ct != null ==> ct[..] == old(ct[..])
  {
    hide Expanded, EncryptBlocks, Padded;
    if key == null || pt == null || ct == null {
      return -1;
    }
    if keyLen > 16 {
      return -1;
    }
    if len % 16 != 0 {
      return -1;
    }
    var aesKey := ScheduleFor(key, keyLen);
    EncryptLoop(aesKey.eK, pt, ct, len);
    return 0;
  }

  /** aesDecrypt; the output may be the input buffer. */
  method AesDecrypt(key: array?<bv8>, keyLen: nat, ct: array?<bv8>, pt: array?<bv8>, len: nat) returns (rc: int)
    requires ParamsOk(key, keyLen, ct, pt, len) ==> keyLen <= key.Length && len <= ct.Length && len <= pt.Length
    modifies if pt == null then {} else {pt}
    ensures rc == if ParamsOk(key, keyLen, ct, pt, len) then 0 else -1
    ensures rc == 0 ==> pt[..len] == DecryptBlocks(old(ct[..len]), Reversed(Expanded(Padded(old(key[..keyLen])))))
    ensures rc == 0 ==> pt[len..] == old(pt[len..])
    ensures rc != 0 && pt != null ==> pt[..] == old(pt[..])
  {
    hide Expanded, Reversed, DecryptBlocks, Padded;
    if key == null || ct == null || pt == null {
      return -1;
    }
    if keyLen > 16 {
      return -1;
    }
    if len % 16 != 0 {
      return -1;
    }
    var aesKey := ScheduleFor(key, keyLen);
    DecryptLoop(aesKey.dK, ct, pt, len);
    return 0;
  }

  /** aesDecrypt after aesEncrypt, under the same key, restores every message of whole blocks. */
  method EncryptThenDecrypt(key: array<bv8>, keyLen: nat, buffer: array<bv8>, len: nat)
    requires keyLen <= 16 && keyLen <= key.Length && len % 16 == 0 && len <= buffer.Length && key != buffer
    modifies buffer
    ensures buffer[..] == old(buffer[..])
  {
    hide EncryptBlocks, DecryptBlocks, Expanded, Reversed;
    var rc := AesEncrypt(key, keyLen, buffer, buffer, len);
    MessageRoundTrip(old(buffer[..len]), Expanded(Padded(key[..keyLen])));
    rc := AesDecrypt(key, keyLen, buffer, buffer, len);
    assert buffer[..] == buffer[..len] + buffer[len..];
    assert old(buffer[..]) == old(buffer[..len]) + old(buffer[len..]);
  }
}
