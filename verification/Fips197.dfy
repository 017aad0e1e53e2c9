/** The AES block cipher as FIPS 197 specifies it, for any number of rounds and any round keys.
    A state is the block itself: byte 4c + r is row r of column c. */
module Fips197 {
  import opened Bytes
  import opened Gf256
  import opened SBoxes

  function SubBytes(s: Block): Block {
    seq(16, k requires 0 <= k < 16 => SBox(s[k]))
  }

  function InvSubBytes(s: Block): Block {
    seq(16, k requires 0 <= k < 16 => InvSBox(s[k]))
  }

  function LeftOf(k: nat): nat {
    4 * ((k / 4 + k % 4) % 4) + k % 4
  }

  function RightOf(k: nat): nat {
    4 * ((k / 4 + 4 - k % 4) % 4) + k % 4
  }

  /** Row r moves r columns to the left (section 5.1.2): byte k comes from r = k % 4 columns further on. */
  function ShiftRows(s: Block): Block {
    seq(16, k requires 0 <= k < 16 => s[LeftOf(k)])
  }

  function InvShiftRows(s: Block): Block {
    seq(16, k requires 0 <= k < 16 => s[RightOf(k)])
  }

  function BelowOf(k: nat, down: nat): nat {
    4 * (k / 4) + (k % 4 + down) % 4
  }

  /** The byte `down` rows below byte k, in the same column. */
  function Below(s: Block, k: nat, down: nat): bv8
    requires k < 16
  {
    s[BelowOf(k, down)]
  }

  /** Each column times the matrix of section 5.1.3. */
  function MixColumns(s: Block): Block {
    seq(16, k requires 0 <= k < 16 => MixByte(Below(s, k, 0), Below(s, k, 1), Below(s, k, 2), Below(s, k, 3)))
  }

  /** Each column times the matrix of section 5.3.3. */
  function InvMixColumns(s: Block): Block {
    seq(16, k requires 0 <= k < 16 => InvMixByte(Below(s, k, 0), Below(s, k, 1), Below(s, k, 2), Below(s, k, 3)))
  }

  function RoundKey(w: seq<bv8>, r: nat): Block
    requires 16 * (r + 1) <= |w|
  {
    w[16 * r..16 * r + 16]
  }

  function AddRoundKey(s: Block, w: seq<bv8>, r: nat): Block
    requires 16 * (r + 1) <= |w|
  {
    Xor(s, RoundKey(w, r))
  }

  /** Round keys for at least one round, whatever their bytes. */
  predicate IsRoundKeys(w: seq<bv8>) {
    |w| % 16 == 0 && |w| >= 32
  }

  function Nr(w: seq<bv8>): nat
    requires IsRoundKeys(w)
  {
    |w| / 16 - 1
  }

  /** The state after the first key addition and r full rounds. */
  function Rounds(s: Block, w: seq<bv8>, r: nat): Block
    requires 16 * (r + 1) <= |w|
  {
    if r == 0 then AddRoundKey(s, w, 0)
    else AddRoundKey(MixColumns(ShiftRows(SubBytes(Rounds(s, w, r - 1)))), w, r)
  }

  /** Section 5.1: Nr - 1 full rounds and one without MixColumns. */
  function Cipher(s: Block, w: seq<bv8>): Block
    requires IsRoundKeys(w)
  {
    AddRoundKey(ShiftRows(SubBytes(Rounds(s, w, Nr(w) - 1))), w, Nr(w))
  }

  /** Section 5.3: the inverse rounds r, r - 1, ..., 0. */
  function InvRounds(s: Block, w: seq<bv8>, r: nat): Block
    requires 16 * (r + 1) <= |w|
    decreases r
  {
    var t := AddRoundKey(InvSubBytes(InvShiftRows(s)), w, r);
    if r == 0 then t else InvRounds(InvMixColumns(t), w, r - 1)
  }

  function InvCipher(s: Block, w: seq<bv8>): Block
    requires IsRoundKeys(w)
  {
    InvRounds(AddRoundKey(s, w, Nr(w)), w, Nr(w) - 1)
  }

  // ----- each layer is undone by its inverse -----

  lemma SubBytesInverses(s: Block)
    ensures InvSubBytes(SubBytes(s)) == s
    ensures SubBytes(InvSubBytes(s)) == s
  {
    hide SBox, InvSBox;
    forall k | 0 <= k < 16
      ensures InvSBox(SBox(s[k])) == s[k] && SBox(InvSBox(s[k])) == s[k]
    {
      InvSBoxOfSBox(s[k]);
      SBoxOfInvSBox(s[k]);
    }
    assert InvSubBytes(SubBytes(s)) == s;
    assert SubBytes(InvSubBytes(s)) == s;
  }

  lemma ColumnAndRow(c: nat, r: nat)
    requires c < 4 && r < 4
    ensures 4 * c + r < 16 && (4 * c + r) / 4 == c && (4 * c + r) % 4 == r
  {
  }

  lemma Wrap(x: nat)
    requires x < 8
    ensures x % 4 == if x < 4 then x else x - 4
  {
  }

  lemma LeftOfAt(c: nat, r: nat)
    requires c < 4 && r < 4
    ensures LeftOf(4 * c + r) == 4 * (if c + r < 4 then c + r else c + r - 4) + r
  {
    ColumnAndRow(c, r);
    Wrap(c + r);
  }

  lemma RightOfAt(c: nat, r: nat)
    requires c < 4 && r < 4
    ensures RightOf(4 * c + r) == 4 * (if c < r then c + 4 - r else c - r) + r
  {
    ColumnAndRow(c, r);
    Wrap(c + 4 - r);
  }

  lemma LeftAndRight(k: nat)
    requires k < 16
    ensures LeftOf(k) < 16 && RightOf(k) < 16
    ensures LeftOf(RightOf(k)) == k && RightOf(LeftOf(k)) == k
  {
    hide LeftOf, RightOf;
    var c, r := k / 4, k % 4;
    LeftOfAt(c, r);
    RightOfAt(c, r);
    LeftOfAt(if c < r then c + 4 - r else c - r, r);
    RightOfAt(if c + r < 4 then c + r else c + r - 4, r);
  }

  lemma ShiftRowsInverses(s: Block)
    ensures InvShiftRows(ShiftRows(s)) == s
    ensures ShiftRows(InvShiftRows(s)) == s
  {
    hide LeftOf, RightOf;
    forall k: nat | k < 16
      ensures LeftOf(k) < 16 && RightOf(k) < 16
      ensures LeftOf(RightOf(k)) == k && RightOf(LeftOf(k)) == k
    {
      LeftAndRight(k);
    }
    assert InvShiftRows(ShiftRows(s)) == s;
    assert ShiftRows(InvShiftRows(s)) == s;
  }

  lemma BelowOfAt(c: nat, r: nat, down: nat)
    requires c < 4 && r < 4 && down < 4
    ensures BelowOf(4 * c + r, down) == 4 * c + (if r + down < 4 then r + down else r + down - 4)
  {
    ColumnAndRow(c, r);
    Wrap(r + down);
  }

  lemma BelowBelow(k: nat, down: nat, further: nat)
    requires k < 16 && down < 4 && further < 4
    ensures BelowOf(k, down) < 16
    ensures BelowOf(BelowOf(k, down), further) == BelowOf(k, (down + further) % 4)
    ensures BelowOf(k, 0) == k
  {
    hide BelowOf;
    var c, r := k / 4, k % 4;
    Wrap(down + further);
    BelowOfAt(c, r, 0);
    BelowOfAt(c, r, down);
    BelowOfAt(c, r, (down + further) % 4);
    BelowOfAt(c, if r + down < 4 then r + down else r + down - 4, further);
  }

  lemma MixedBelow(s: Block, k: nat, down: nat)
    requires k < 16 && down < 4
    ensures Below(MixColumns(s), k, down)
         == MixByte(Below(s, k, down), Below(s, k, (down + 1) % 4), Below(s, k, (down + 2) % 4), Below(s, k, (down + 3) % 4))
    ensures Below(InvMixColumns(s), k, down)
         == InvMixByte(Below(s, k, down), Below(s, k, (down + 1) % 4), Below(s, k, (down + 2) % 4), Below(s, k, (down + 3) % 4))
  {
    hide MixByte, InvMixByte, BelowOf;
    BelowBelow(k, down, 0);
    BelowBelow(k, down, 1);
    BelowBelow(k, down, 2);
    BelowBelow(k, down, 3);
  }

  lemma BelowInColumn(s: Block, i: nat, r: nat, down: nat)
    requires i < 4 && r < 4 && down < 4
    ensures Below(s, 4 * i + r, down) == s[4 * i + (if r + down < 4 then r + down else r + down - 4)]
  {
    hide BelowOf;
    BelowOfAt(i, r, down);
  }

  /** The mixed byte of row r in column i, from the bytes of that column. */
  lemma MixColumnsInColumn(s: Block, i: nat, r: nat)
    requires i < 4 && r < 4
    ensures var a := s[4 * i + r];
      var b := s[4 * i + if r + 1 < 4 then r + 1 else r - 3];
      var c := s[4 * i + if r + 2 < 4 then r + 2 else r - 2];
      var d := s[4 * i + if r + 3 < 4 then r + 3 else r - 1];
      && MixColumns(s)[4 * i + r] == MixByte(a, b, c, d)
      && InvMixColumns(s)[4 * i + r] == InvMixByte(a, b, c, d)
  {
    hide MixByte, InvMixByte, BelowOf, Below;
    BelowInColumn(s, i, r, 0);
    BelowInColumn(s, i, r, 1);
    BelowInColumn(s, i, r, 2);
    BelowInColumn(s, i, r, 3);
  }

  /** The four mixed bytes of column i. */
  lemma MixColumnsOfColumn(s: Block, i: nat)
    requires i < 4
    ensures var a := s[4 * i]; var b := s[4 * i + 1]; var c := s[4 * i + 2]; var d := s[4 * i + 3];
      var m := MixColumns(s); var v := InvMixColumns(s);
      && m[4 * i] == MixByte(a, b, c, d) && m[4 * i + 1] == MixByte(b, c, d, a)
      && m[4 * i + 2] == MixByte(c, d, a, b) && m[4 * i + 3] == MixByte(d, a, b, c)
      && v[4 * i] == InvMixByte(a, b, c, d) && v[4 * i + 1] == InvMixByte(b, c, d, a)
      && v[4 * i + 2] == InvMixByte(c, d, a, b) && v[4 * i + 3] == InvMixByte(d, a, b, c)
  {
    hide *;
    MixColumnsInColumn(s, i, 0);
    MixColumnsInColumn(s, i, 1);
    MixColumnsInColumn(s, i, 2);
    MixColumnsInColumn(s, i, 3);
  }

  /** Row r of a state, after either rotation. */
  lemma ShiftRowsInRow(s: Block, r: nat)
    requires r < 4
    ensures var m := ShiftRows(s);
      && m[r] == s[5 * r]
      && m[4 + r] == s[if r < 3 then 4 + 5 * r else r]
      && m[8 + r] == s[if r < 2 then 8 + 5 * r else 5 * r - 8]
      && m[12 + r] == s[if r < 1 then 12 else 5 * r - 4]
    ensures var v := InvShiftRows(s);
      && v[r] == s[if r < 1 then 0 else 16 - 3 * r]
      && v[4 + r] == s[if r < 2 then 4 - 3 * r else 20 - 3 * r]
      && v[8 + r] == s[if r < 3 then 8 - 3 * r else 15]
      && v[12 + r] == s[12 - 3 * r]
  {
    hide LeftOf, RightOf;
    LeftOfAt(0, r);
    LeftOfAt(1, r);
    LeftOfAt(2, r);
    LeftOfAt(3, r);
    RightOfAt(0, r);
    RightOfAt(1, r);
    RightOfAt(2, r);
    RightOfAt(3, r);
  }

  lemma EqualByRows(s: Block, t: Block)
    requires t[0] == s[0] && t[4] == s[4] && t[8] == s[8] && t[12] == s[12]
    requires t[1] == s[1] && t[5] == s[5] && t[9] == s[9] && t[13] == s[13]
    requires t[2] == s[2] && t[6] == s[6] && t[10] == s[10] && t[14] == s[14]
    requires t[3] == s[3] && t[7] == s[7] && t[11] == s[11] && t[15] == s[15]
    ensures s == t
  {
  }

  /** ShiftRows moves the sixteen bytes of a state like this, row by row. */
  lemma ShiftRowsByRows(s: Block, t: Block)
    requires t[0] == s[0] && t[4] == s[4] && t[8] == s[8] && t[12] == s[12]
    requires t[1] == s[5] && t[5] == s[9] && t[9] == s[13] && t[13] == s[1]
    requires t[2] == s[10] && t[6] == s[14] && t[10] == s[2] && t[14] == s[6]
    requires t[3] == s[15] && t[7] == s[3] && t[11] == s[7] && t[15] == s[11]
    ensures t == ShiftRows(s)
  {
    hide *;
    ShiftRowsInRow(s, 0);
    ShiftRowsInRow(s, 1);
    ShiftRowsInRow(s, 2);
    ShiftRowsInRow(s, 3);
    EqualByRows(t, ShiftRows(s));
  }

  /** InvShiftRows moves the sixteen bytes of a state like this, row by row. */
  lemma InvShiftRowsByRows(s: Block, t: Block)
    requires t[0] == s[0] && t[4] == s[4] && t[8] == s[8] && t[12] == s[12]
    requires t[1] == s[13] && t[5] == s[1] && t[9] == s[5] && t[13] == s[9]
    requires t[2] == s[10] && t[6] == s[14] && t[10] == s[2] && t[14] == s[6]
    requires t[3] == s[7] && t[7] == s[11] && t[11] == s[15] && t[15] == s[3]
    ensures t == InvShiftRows(s)
  {
    hide *;
    ShiftRowsInRow(s, 0);
    ShiftRowsInRow(s, 1);
    ShiftRowsInRow(s, 2);
    ShiftRowsInRow(s, 3);
    EqualByRows(t, InvShiftRows(s));
  }

  lemma MixColumnsAt(s: Block, k: nat)
    requires k < 16
    ensures InvMixColumns(MixColumns(s))[k] == s[k]
    ensures MixColumns(InvMixColumns(s))[k] == s[k]
  {
    hide MixByte, InvMixByte, BelowOf;
    MixedBelow(s, k, 0);
    MixedBelow(s, k, 1);
    MixedBelow(s, k, 2);
    MixedBelow(s, k, 3);
    BelowBelow(k, 0, 0);
    var a, b, c, d := Below(s, k, 0), Below(s, k, 1), Below(s, k, 2), Below(s, k, 3);
    InvMixByteOfMixBytes(a, b, c, d);
    MixByteOfInvMixBytes(a, b, c, d);
  }

  lemma MixColumnsInverses(s: Block)
    ensures InvMixColumns(MixColumns(s)) == s
    ensures MixColumns(InvMixColumns(s)) == s
  {
    hide MixColumns, InvMixColumns;
    forall k | 0 <= k < 16
      ensures InvMixColumns(MixColumns(s))[k] == s[k]
      ensures MixColumns(InvMixColumns(s))[k] == s[k]
    {
      MixColumnsAt(s, k);
    }
  }

  lemma AddRoundKeyCancels(s: Block, w: seq<bv8>, r: nat)
    requires 16 * (r + 1) <= |w|
    ensures AddRoundKey(AddRoundKey(s, w, r), w, r) == s
  {
    XorCancels(s, RoundKey(w, r));
  }

  // ----- the ciphers undo each other -----

  lemma {:induction false} InvRoundsOfRounds(s: Block, w: seq<bv8>, r: nat)
    requires 16 * (r + 1) <= |w|
    ensures InvRounds(ShiftRows(SubBytes(Rounds(s, w, r))), w, r) == s
  {
    hide SubBytes, InvSubBytes, ShiftRows, InvShiftRows, MixColumns, InvMixColumns, AddRoundKey;
    var t := Rounds(s, w, r);
    ShiftRowsInverses(SubBytes(t));
    SubBytesInverses(t);
    if r == 0 {
      AddRoundKeyCancels(s, w, 0);
    } else {
      var u := ShiftRows(SubBytes(Rounds(s, w, r - 1)));
      AddRoundKeyCancels(MixColumns(u), w, r);
      MixColumnsInverses(u);
      InvRoundsOfRounds(s, w, r - 1);
    }
  }

  lemma {:induction false} RoundsOfInvRounds(s: Block, w: seq<bv8>, r: nat)
    requires 16 * (r + 1) <= |w|
    ensures ShiftRows(SubBytes(Rounds(InvRounds(s, w, r), w, r))) == s
    decreases r
  {
    hide SubBytes, InvSubBytes, ShiftRows, InvShiftRows, MixColumns, InvMixColumns, AddRoundKey;
    var u := InvSubBytes(InvShiftRows(s));
    var t := AddRoundKey(u, w, r);
    if r > 0 {
      RoundsOfInvRounds(InvMixColumns(t), w, r - 1);
      MixColumnsInverses(t);
    }
    AddRoundKeyCancels(u, w, r);
    SubBytesInverses(InvShiftRows(s));
    ShiftRowsInverses(s);
  }

  /** Decryption undoes encryption, for every block and every choice of round keys. */
  lemma InvCipherOfCipher(s: Block, w: seq<bv8>)
    requires IsRoundKeys(w)
    ensures InvCipher(Cipher(s, w), w) == s
  {
    hide Rounds, InvRounds, AddRoundKey, ShiftRows, SubBytes;
    AddRoundKeyCancels(ShiftRows(SubBytes(Rounds(s, w, Nr(w) - 1))), w, Nr(w));
    InvRoundsOfRounds(s, w, Nr(w) - 1);
  }

  /** Encryption undoes decryption, so the cipher reaches every block. */
  lemma CipherOfInvCipher(s: Block, w: seq<bv8>)
    requires IsRoundKeys(w)
    ensures Cipher(InvCipher(s, w), w) == s
  {
    hide Rounds, InvRounds, AddRoundKey, ShiftRows, SubBytes;
    RoundsOfInvRounds(AddRoundKey(s, w, Nr(w)), w, Nr(w) - 1);
    AddRoundKeyCancels(s, w, Nr(w));
  }

  lemma CipherInjective(s: Block, t: Block, w: seq<bv8>)
    requires IsRoundKeys(w)
    ensures Cipher(s, w) == Cipher(t, w) <==> s == t
  {
    hide Cipher, InvCipher;
    InvCipherOfCipher(s, w);
    InvCipherOfCipher(t, w);
  }
}
