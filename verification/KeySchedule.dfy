/** Key expansion (FIPS 197, section 5.2), for keys of Nk = 4, 6 or 8 words. */
module KeySchedule {
  import opened Bytes
  import opened Gf256
  import opened SBoxes
  import opened Fips197

  type Word4 = s: seq<bv8> | |s| == 4 witness seq(4, _ => 0)

  function Word(w: seq<bv8>, i: nat): Word4
    requires 4 * i + 4 <= |w|
  {
    w[4 * i..4 * i + 4]
  }

  predicate IsNk(nk: nat) {
    nk == 4 || nk == 6 || nk == 8
  }

  /** The number of bytes of an expanded key: Nk + 7 round keys. */
  function ExpandedSize(nk: nat): nat {
    16 * (nk + 7)
  }

  function SubWord(t: Word4): Word4 {
    [SBox(t[0]), SBox(t[1]), SBox(t[2]), SBox(t[3])]
  }

  function RotWord(t: Word4): Word4 {
    [t[1], t[2], t[3], t[0]]
  }

  function PowerOfX(n: nat): bv8 {
    if n == 0 then 1 else TimesX(PowerOfX(n - 1))
  }

  function Rcon(n: nat): Word4
    requires n >= 1
  {
    [PowerOfX(n - 1), 0, 0, 0]
  }

  /** What word i adds to word i - Nk, given word i - 1. */
  function Temp(previous: Word4, i: nat, nk: nat): Word4
    requires IsNk(nk) && nk <= i
  {
    if i % nk == 0 then Xor(SubWord(RotWord(previous)), Rcon(i / nk))
    else if nk > 6 && i % nk == 4 then SubWord(previous)
    else previous
  }

  predicate WordFollows(w: seq<bv8>, nk: nat, i: nat)
    requires IsNk(nk) && nk <= i && 4 * i + 4 <= |w|
  {
    Word(w, i) == Xor(Word(w, i - nk), Temp(Word(w, i - 1), i, nk))
  }

  /** The recurrence of section 5.2: it says nothing about the first Nk words. */
  predicate IsExpansion(w: seq<bv8>, nk: nat) {
    && IsNk(nk)
    && |w| == ExpandedSize(nk)
    && forall i :: nk <= i < 4 * (nk + 7) ==> WordFollows(w, nk, i)
  }

  /** The first n words of the expansion of `key`. */
  function ExpandTo(key: seq<bv8>, nk: nat, n: nat): (w: seq<bv8>)
    requires IsNk(nk) && |key| == 4 * nk && nk <= n
    ensures |w| == 4 * n
  {
    if n == nk then key
    else
      var w := ExpandTo(key, nk, n - 1);
      w + Xor(Word(w, n - 1 - nk), Temp(Word(w, n - 2), n - 1, nk))
  }

  /** The whole expansion of a key. */
  function Expand(key: seq<bv8>, nk: nat): (w: seq<bv8>)
    requires IsNk(nk) && |key| == 4 * nk
    ensures IsRoundKeys(w) && Nr(w) == nk + 6
  {
    ExpandTo(key, nk, 4 * (nk + 7))
  }

  lemma WordOfPrefix(w: seq<bv8>, more: seq<bv8>, i: nat)
    requires 4 * i + 4 <= |w|
    ensures Word(w + more, i) == Word(w, i)
  {
  }

  lemma LastWord(w: seq<bv8>, next: Word4)
    requires |w| % 4 == 0
    ensures Word(w + next, |w| / 4) == next
  {
  }

  lemma {:induction false} ExpandToFollows(key: seq<bv8>, nk: nat, n: nat)
    requires IsNk(nk) && |key| == 4 * nk && nk <= n
    ensures ExpandTo(key, nk, n)[..4 * nk] == key
    ensures forall i :: nk <= i < n ==> WordFollows(ExpandTo(key, nk, n), nk, i)
  {
    hide Temp, Xor, Word, RotWord, SubWord;
    if n > nk {
      ExpandToFollows(key, nk, n - 1);
      var w := ExpandTo(key, nk, n - 1);
      var next := Xor(Word(w, n - 1 - nk), Temp(Word(w, n - 2), n - 1, nk));
      forall i: nat | i < n - 1
        ensures Word(w + next, i) == Word(w, i)
      {
        WordOfPrefix(w, next, i);
      }
      LastWord(w, next);
      forall i | nk <= i < n
        ensures WordFollows(w + next, nk, i)
      {
        assert i < n - 1 ==> WordFollows(w, nk, i);
      }
    }
  }

  /** The expansion meets the recurrence and starts with the key. */
  lemma ExpandIsExpansion(key: seq<bv8>, nk: nat)
    requires IsNk(nk) && |key| == 4 * nk
    ensures IsExpansion(Expand(key, nk), nk)
    ensures Expand(key, nk)[..4 * nk] == key
  {
    ExpandToFollows(key, nk, 4 * (nk + 7));
  }

  // ----- the schedule byte by byte -----

  /** Byte j of word i, from bytes of words i - 1 and i - Nk: in every Nk-th word the byte after it, cyclically,
      is substituted, and the first byte gets a power of x; in word 4 of every eight, for the longest key, the
      byte itself is substituted. */
  ghost predicate ByteFollows(w: seq<bv8>, nk: nat, i: nat, j: nat)
    requires 0 < nk <= i && j < 4 && 4 * i + 4 <= |w|
  {
    w[4 * i + j] ==
    if i % nk == 0 then
      Add(Add(w[4 * (i - nk) + j], SBox(w[4 * (i - 1) + (j + 1) % 4])), if j == 0 then PowerOfX(i / nk - 1) else 0)
    else if nk == 8 && i % nk == 4 then
      Add(w[4 * (i - nk) + j], SBox(w[4 * (i - 1) + j]))
    else
      Add(w[4 * (i - nk) + j], w[4 * (i - 1) + j])
  }

  /** The schedule of a key: the key, and then nk + 7 round keys' worth of such bytes. */
  ghost predicate IsScheduleOf(w: seq<bv8>, key: seq<bv8>, nk: nat) {
    && nk > 0 && |key| == 4 * nk && |w| == 16 * (nk + 7)
    && (forall k :: 0 <= k < 4 * nk ==> w[k] == key[k])
    && forall i: nat, j: nat :: nk <= i < 4 * (nk + 7) && j < 4 ==> ByteFollows(w, nk, i, j)
  }

  lemma PowersOfX()
    ensures PowerOfX(0) == 0x01 && PowerOfX(1) == 0x02 && PowerOfX(2) == 0x04 && PowerOfX(3) == 0x08
    ensures PowerOfX(4) == 0x10 && PowerOfX(5) == 0x20 && PowerOfX(6) == 0x40 && PowerOfX(7) == 0x80
    ensures PowerOfX(8) == 0x1b && PowerOfX(9) == 0x36
  {
    assert TimesX(0x01) == 0x02 && TimesX(0x02) == 0x04 && TimesX(0x04) == 0x08;
    assert TimesX(0x08) == 0x10 && TimesX(0x10) == 0x20 && TimesX(0x20) == 0x40;
    assert TimesX(0x40) == 0x80 && TimesX(0x80) == 0x1b && TimesX(0x1b) == 0x36;
  }

  /** One byte of what word i adds to word i - Nk. */
  lemma TempByte(previous: Word4, i: nat, nk: nat, j: nat)
    requires IsNk(nk) && nk <= i && j < 4
    ensures i / nk >= 1
    ensures Temp(previous, i, nk)[j] ==
            if i % nk == 0 then Add(SBox(previous[(j + 1) % 4]), if j == 0 then PowerOfX(i / nk - 1) else 0)
            else if nk == 8 && i % nk == 4 then SBox(previous[j])
            else previous[j]
  {
    hide SBox, Add, PowerOfX;
    if i % nk == 0 {
      XorAt(SubWord(RotWord(previous)), Rcon(i / nk), j);
    }
  }

  lemma AddAssociates(a: bv8, b: bv8, c: bv8)
    ensures Add(a, Add(b, c)) == Add(Add(a, b), c)
  {
  }

  lemma WordByte(w: seq<bv8>, i: nat, j: nat)
    requires 4 * i + 4 <= |w| && j < 4
    ensures Word(w, i)[j] == w[4 * i + j]
  {
  }

  lemma ByteFollowsWord(w: seq<bv8>, nk: nat, i: nat, j: nat)
    requires IsNk(nk) && nk <= i && 4 * i + 4 <= |w| && j < 4
    ensures ByteFollows(w, nk, i, j)
       <==> Word(w, i)[j] == Xor(Word(w, i - nk), Temp(Word(w, i - 1), i, nk))[j]
  {
    hide SBox, Add, PowerOfX, Temp, Word;
    var previous := Word(w, i - 1);
    XorAt(Word(w, i - nk), Temp(previous, i, nk), j);
    TempByte(previous, i, nk, j);
    WordByte(w, i, j);
    WordByte(w, i - nk, j);
    WordByte(w, i - 1, j);
    WordByte(w, i - 1, (j + 1) % 4);
    AddAssociates(w[4 * (i - nk) + j], SBox(previous[(j + 1) % 4]), if j == 0 then PowerOfX(i / nk - 1) else 0);
  }

  lemma WordFollowsBytes(w: seq<bv8>, nk: nat, i: nat)
    requires IsNk(nk) && nk <= i && 4 * i + 4 <= |w|
    ensures WordFollows(w, nk, i) <==> forall j: nat :: j < 4 ==> ByteFollows(w, nk, i, j)
  {
    hide ByteFollows, Word, Temp, Xor;
    forall j: nat | j < 4
      ensures ByteFollows(w, nk, i, j)
         <==> Word(w, i)[j] == Xor(Word(w, i - nk), Temp(Word(w, i - 1), i, nk))[j]
    {
      ByteFollowsWord(w, nk, i, j);
    }
  }

  // ----- any Nk consecutive words determine the schedule -----

  predicate Agree(w: seq<bv8>, v: seq<bv8>, lo: nat, hi: nat)
    requires 4 * hi <= |w| && 4 * hi <= |v|
  {
    forall i :: lo <= i < hi ==> Word(w, i) == Word(v, i)
  }

  lemma AgreeOneMore(w: seq<bv8>, v: seq<bv8>, nk: nat, lo: nat, hi: nat)
    requires IsExpansion(w, nk) && IsExpansion(v, nk)
    requires lo + nk <= hi < 4 * (nk + 7)
    requires Agree(w, v, lo, hi)
    ensures Agree(w, v, lo, hi + 1)
  {
    hide Temp, Xor, Word;
    assert WordFollows(w, nk, hi) && WordFollows(v, nk, hi);
  }

  lemma AgreeOneLess(w: seq<bv8>, v: seq<bv8>, nk: nat, lo: nat, hi: nat)
    requires IsExpansion(w, nk) && IsExpansion(v, nk)
    requires 0 < lo && lo + nk <= hi <= 4 * (nk + 7)
    requires Agree(w, v, lo, hi)
    ensures Agree(w, v, lo - 1, hi)
  {
    hide Temp, Xor, Word;
    var i := lo - 1 + nk;
    assert WordFollows(w, nk, i) && WordFollows(v, nk, i);
    assert Word(w, i) == Word(v, i) && Word(w, i - 1) == Word(v, i - 1);
    XorCancels(Word(w, lo - 1), Temp(Word(w, i - 1), i, nk));
    XorCancels(Word(v, lo - 1), Temp(Word(v, i - 1), i, nk));
  }

  /** Agreement on Nk consecutive words spreads in both directions. */
  lemma {:induction false} AgreeEverywhere(w: seq<bv8>, v: seq<bv8>, nk: nat, lo: nat, hi: nat)
    requires IsExpansion(w, nk) && IsExpansion(v, nk)
    requires lo + nk <= hi <= 4 * (nk + 7)
    requires Agree(w, v, lo, hi)
    ensures Agree(w, v, 0, 4 * (nk + 7))
    decreases lo + 4 * (nk + 7) - hi
  {
    hide Agree, IsExpansion;
    if lo > 0 {
      AgreeOneLess(w, v, nk, lo, hi);
      AgreeEverywhere(w, v, nk, lo - 1, hi);
    } else if hi < 4 * (nk + 7) {
      AgreeOneMore(w, v, nk, lo, hi);
      AgreeEverywhere(w, v, nk, lo, hi + 1);
    }
  }

  lemma AgreeIsEqual(w: seq<bv8>, v: seq<bv8>, n: nat)
    requires |w| == |v| == 4 * n
    requires Agree(w, v, 0, n)
    ensures w == v
  {
    forall k | 0 <= k < 4 * n
      ensures w[k] == v[k]
    {
      assert Word(w, k / 4) == Word(v, k / 4);
      assert w[k] == Word(w, k / 4)[k % 4] && v[k] == Word(v, k / 4)[k % 4];
    }
  }

  lemma ExpansionShape(w: seq<bv8>, nk: nat)
    requires IsExpansion(w, nk)
    ensures IsNk(nk) && |w| == ExpandedSize(nk)
  {
  }

  lemma WordOfSlice(w: seq<bv8>, from: nat, to: nat, i: nat)
    requires from <= 4 * i && 4 * i + 4 <= to <= |w|
    ensures Word(w, i) == w[from..to][4 * i - from..4 * i + 4 - from]
  {
    var s := w[from..to];
    var d := 4 * i - from;
    assert forall j :: d <= j < d + 4 ==> s[j] == w[from + j];
    assert Word(w, i) == s[d..d + 4];
  }

  /** Two expansions that share any Nk consecutive words are the same expansion. */
  lemma ExpansionDetermined(w: seq<bv8>, v: seq<bv8>, nk: nat, lo: nat)
    requires IsExpansion(w, nk) && IsExpansion(v, nk)
    requires lo + nk <= 4 * (nk + 7)
    requires w[4 * lo..4 * (lo + nk)] == v[4 * lo..4 * (lo + nk)]
    ensures w == v
  {
    hide IsExpansion;
    ExpansionShape(w, nk);
    ExpansionShape(v, nk);
    forall i | lo <= i < lo + nk
      ensures Word(w, i) == Word(v, i)
    {
      WordOfSlice(w, 4 * lo, 4 * (lo + nk), i);
      WordOfSlice(v, 4 * lo, 4 * (lo + nk), i);
    }
    AgreeEverywhere(w, v, nk, lo, lo + nk);
    AgreeIsEqual(w, v, 4 * (nk + 7));
  }

  /** The recurrence and the key together leave only one schedule. */
  lemma ExpansionIsExpand(w: seq<bv8>, key: seq<bv8>, nk: nat)
    requires IsExpansion(w, nk) && |key| == 4 * nk
    requires w[..4 * nk] == key
    ensures w == Expand(key, nk)
  {
    hide IsExpansion;
    ExpansionShape(w, nk);
    var v := Expand(key, nk);
    ExpandIsExpansion(key, nk);
    assert w[4 * 0..4 * (0 + nk)] == v[4 * 0..4 * (0 + nk)];
    ExpansionDetermined(w, v, nk, 0);
  }

  /** The expansion is the one string that follows the key byte by byte in this way. */
  lemma ExpandIffBytes(w: seq<bv8>, key: seq<bv8>, nk: nat)
    requires IsNk(nk) && |key| == 4 * nk
    ensures w == Expand(key, nk) <==> IsScheduleOf(w, key, nk)
  {
    hide ByteFollows, WordFollows, ExpandTo;
    ExpandIsExpansion(key, nk);
    var v := Expand(key, nk);
    forall i: nat | nk <= i < 4 * (nk + 7)
      ensures |w| == |v| ==> (WordFollows(w, nk, i) <==> forall j: nat :: j < 4 ==> ByteFollows(w, nk, i, j))
    {
      if |w| == |v| {
        WordFollowsBytes(w, nk, i);
      }
    }
    if w == v {
      assert forall k :: 0 <= k < 4 * nk ==> w[k] == w[..4 * nk][k];
      forall i: nat, j: nat | nk <= i < 4 * (nk + 7) && j < 4
        ensures ByteFollows(w, nk, i, j)
      {
        assert WordFollows(w, nk, i);
      }
    }
    if IsScheduleOf(w, key, nk) {
      assert w[..4 * nk] == key;
      assert IsExpansion(w, nk);
      ExpansionIsExpand(w, key, nk);
    }
  }

  /** For AES-128, every round key, the last one included, determines the key. */
  lemma RoundKeyDeterminesKey(key: seq<bv8>, other: seq<bv8>, r: nat)
    requires |key| == |other| == 16 && r <= 10
    ensures RoundKey(Expand(key, 4), r) == RoundKey(Expand(other, 4), r) <==> key == other
  {
    hide IsExpansion;
    var w, v := Expand(key, 4), Expand(other, 4);
    ExpandIsExpansion(key, 4);
    ExpandIsExpansion(other, 4);
    if RoundKey(w, r) == RoundKey(v, r) {
      ExpansionDetermined(w, v, 4, 4 * r);
      assert key == w[..16] && other == v[..16];
    }
  }
}
