/** The cipher once more, byte by byte and as a relation between states: what each byte of each state is,
    in terms of the S-box, doubling, and the bytes of the key schedule in their order.
    Nothing here is stated through the layers of Fips197. */
module CipherTrace {
  import opened Bytes
  import opened Gf256
  import opened SBoxes
  import opened Fips197
  import opened KeySchedule

  /** The substituted byte that ends up `down` rows below byte k: row i of column c comes from
      row i of column c + i. */
  function Substituted(t: Block, k: nat, down: nat): bv8
    requires k < 16
  {
    var i := (k % 4 + down) % 4;
    SBox(t[4 * ((k / 4 + i) % 4) + i])
  }

  /** Byte k of the next state, before the round key: 2a + 3b + c + d down its column. */
  function FullRoundByte(t: Block, k: nat): bv8
    requires k < 16
  {
    var a, b, c, d := Substituted(t, k, 0), Substituted(t, k, 1), Substituted(t, k, 2), Substituted(t, k, 3);
    Add(Add(Add(TimesX(a), Add(TimesX(b), b)), c), d)
  }

  ghost predicate FullRound(before: Block, after: Block, w: seq<bv8>, r: nat)
    requires 16 * r + 16 <= |w|
  {
    forall k: nat :: k < 16 ==> after[k] == Add(FullRoundByte(before, k), w[16 * r + k])
  }

  /** The states of an encryption: the first key addition, the full rounds, and the round without mixing. */
  ghost predicate IsTrace(m: Block, w: seq<bv8>, t: seq<Block>) {
    var last := |t| - 1;
    && last >= 1 && |w| == 16 * |t|
    && (forall k: nat :: k < 16 ==> t[0][k] == Add(m[k], w[k]))
    && (forall r: nat :: 0 < r < last ==> FullRound(t[r - 1], t[r], w, r))
    && (forall k: nat :: k < 16 ==> t[last][k] == Add(Substituted(t[last - 1], k, 0), w[16 * last + k]))
  }

  /** Byte 4c + i of a state meets byte 4c + i of round key r, which is byte 16r + 4c + i of the schedule. */
  lemma AddRoundKeyByte(s: Block, w: seq<bv8>, r: nat, k: nat)
    requires 16 * (r + 1) <= |w| && k < 16
    ensures AddRoundKey(s, w, r)[k] == Add(s[k], w[16 * r + k])
  {
    hide Add;
    XorAt(s, RoundKey(w, r), k);
  }

  lemma ShiftedByte(t: Block, c: nat, i: nat)
    requires c < 4 && i < 4
    ensures ShiftRows(SubBytes(t))[4 * c + i] == SBox(t[4 * ((c + i) % 4) + i])
  {
    hide LeftOf, SBox;
    LeftOfAt(c, i);
    Wrap(c + i);
  }

  lemma MixByteForm(a: bv8, b: bv8, c: bv8, d: bv8)
    ensures MixByte(a, b, c, d) == Add(Add(Add(TimesX(a), Add(TimesX(b), b)), c), d)
  {
    hide Mul, TimesX;
    MulSmall(a);
    MulSmall(b);
    MulSmall(c);
    MulSmall(d);
  }

  lemma SubstitutedAt(t: Block, c: nat, i: nat, down: nat)
    requires c < 4 && i < 4 && down < 4
    ensures ShiftRows(SubBytes(t))[4 * c + (i + down) % 4] == Substituted(t, 4 * c + i, down)
  {
    hide SBox, ShiftRows, SubBytes;
    ShiftedByte(t, c, (i + down) % 4);
    ColumnAndRow(c, i);
  }

  lemma MixedByte(u: Block, c: nat, i: nat)
    requires c < 4 && i < 4
    ensures var a, b := u[4 * c + i], u[4 * c + (i + 1) % 4];
      MixColumns(u)[4 * c + i]
      == Add(Add(Add(TimesX(a), Add(TimesX(b), b)), u[4 * c + (i + 2) % 4]), u[4 * c + (i + 3) % 4])
  {
    hide MixColumns, InvMixColumns, Add, TimesX, MixByte, InvMixByte;
    MixColumnsInColumn(u, c, i);
    Wrap(i + 1);
    Wrap(i + 2);
    Wrap(i + 3);
    MixByteForm(u[4 * c + i], u[4 * c + (i + 1) % 4], u[4 * c + (i + 2) % 4], u[4 * c + (i + 3) % 4]);
  }

  lemma MixedShiftedByte(t: Block, c: nat, i: nat)
    requires c < 4 && i < 4
    ensures MixColumns(ShiftRows(SubBytes(t)))[4 * c + i] == FullRoundByte(t, 4 * c + i)
  {
    hide MixColumns, ShiftRows, SubBytes, Add, TimesX, Substituted;
    MixedByte(ShiftRows(SubBytes(t)), c, i);
    SubstitutedAt(t, c, i, 0);
    SubstitutedAt(t, c, i, 1);
    SubstitutedAt(t, c, i, 2);
    SubstitutedAt(t, c, i, 3);
  }

  /** One full round of the specification is one full round of a trace, and the other way round. */
  lemma RoundIsFullRound(m: Block, w: seq<bv8>, r: nat, after: Block)
    requires r > 0 && 16 * (r + 1) <= |w|
    ensures Rounds(m, w, r) == after <==> FullRound(Rounds(m, w, r - 1), after, w, r)
  {
    hide MixColumns, ShiftRows, SubBytes, AddRoundKey, FullRoundByte, Add;
    var before := Rounds(m, w, r - 1);
    var mixed := MixColumns(ShiftRows(SubBytes(before)));
    forall k: nat | k < 16
      ensures Rounds(m, w, r)[k] == Add(FullRoundByte(before, k), w[16 * r + k])
    {
      AddRoundKeyByte(mixed, w, r, k);
      MixedShiftedByte(before, k / 4, k % 4);
    }
  }

  /** The last round of the specification, byte by byte. */
  lemma CipherByte(m: Block, w: seq<bv8>, k: nat)
    requires IsRoundKeys(w) && k < 16
    ensures Cipher(m, w)[k] == Add(Substituted(Rounds(m, w, Nr(w) - 1), k, 0), w[16 * Nr(w) + k])
  {
    hide Rounds, ShiftRows, SubBytes, AddRoundKey, SBox, Add;
    var before := Rounds(m, w, Nr(w) - 1);
    AddRoundKeyByte(ShiftRows(SubBytes(before)), w, Nr(w), k);
    ShiftedByte(before, k / 4, k % 4);
  }

  lemma FirstRound(m: Block, w: seq<bv8>, k: nat)
    requires |w| >= 16 && k < 16
    ensures Rounds(m, w, 0)[k] == Add(m[k], w[k])
  {
    hide AddRoundKey, Add;
    AddRoundKeyByte(m, w, 0, k);
  }

  lemma {:induction false} TraceIsRounds(m: Block, w: seq<bv8>, t: seq<Block>, r: nat)
    requires IsTrace(m, w, t) && r < |t| - 1
    ensures t[r] == Rounds(m, w, r)
  {
    hide Rounds, FullRound, Add;
    if r == 0 {
      forall k: nat | k < 16
        ensures t[0][k] == Rounds(m, w, 0)[k]
      {
        FirstRound(m, w, k);
      }
    } else {
      TraceIsRounds(m, w, t, r - 1);
      RoundIsFullRound(m, w, r, t[r]);
    }
  }

  function TraceOf(m: Block, w: seq<bv8>): (t: seq<Block>)
    requires IsRoundKeys(w)
    ensures |t| == Nr(w) + 1
  {
    seq(Nr(w) + 1, r requires 0 <= r <= Nr(w) => if r < Nr(w) then Rounds(m, w, r) else Cipher(m, w))
  }

  lemma TraceOfIsTrace(m: Block, w: seq<bv8>)
    requires IsRoundKeys(w)
    ensures IsTrace(m, w, TraceOf(m, w))
  {
    hide Rounds, Cipher, FullRound, Add, Substituted;
    var t, last := TraceOf(m, w), Nr(w);
    forall k: nat | k < 16
      ensures t[0][k] == Add(m[k], w[k])
      ensures t[last][k] == Add(Substituted(t[last - 1], k, 0), w[16 * last + k])
    {
      FirstRound(m, w, k);
      CipherByte(m, w, k);
    }
    forall r: nat | 0 < r < last
      ensures FullRound(t[r - 1], t[r], w, r)
    {
      RoundIsFullRound(m, w, r, t[r]);
    }
  }

  /** The cipher text is c, if and only if there are states that lead from m to c in this way. */
  lemma CipherIffTrace(m: Block, w: seq<bv8>, c: Block)
    requires IsRoundKeys(w)
    ensures Cipher(m, w) == c <==> exists t :: IsTrace(m, w, t) && t[|t| - 1] == c
  {
    hide Cipher, Rounds, FullRound, Add, Substituted;
    TraceOfIsTrace(m, w);
    assert Cipher(m, w) == c ==> TraceOf(m, w)[|TraceOf(m, w)| - 1] == c;
    forall t | IsTrace(m, w, t)
      ensures t[|t| - 1] == Cipher(m, w)
    {
      TraceIsRounds(m, w, t, |t| - 2);
      forall k: nat | k < 16
        ensures t[|t| - 1][k] == Cipher(m, w)[k]
      {
        CipherByte(m, w, k);
      }
    }
  }

  /** The first key that is added is the cipher key itself. */
  lemma FirstKeyIsKey(key: seq<bv8>, nk: nat, m: Block, k: nat)
    requires IsNk(nk) && |key| == 4 * nk && k < 16
    ensures Rounds(m, Expand(key, nk), 0)[k] == Add(m[k], key[k])
  {
    hide Rounds, Expand, Add, IsExpansion;
    ExpandIsExpansion(key, nk);
    FirstRound(m, Expand(key, nk), k);
    assert Expand(key, nk)[..4 * nk][k] == key[k];
  }
}
