/** aes.c: KeyExpansion, for the three key sizes aes.h can be configured for. */
module AesKey {
  import opened Bytes
  import opened Gf256
  import opened SBoxes
  import opened KeySchedule

  const RCON: seq<bv8> := [0x8d, 0x01, 0x02, 0x04, 0x08, 0x10, 0x20, 0x40, 0x80, 0x1b, 0x36]

  lemma RconTable(n: nat)
    requires 1 <= n <= 10
    ensures RCON[n] == PowerOfX(n - 1)
  {
    hide PowerOfX;
    PowersOfX();
  }

  lemma QuotientBound(i: nat, nk: nat)
    requires IsNk(nk) && nk <= i < 4 * (nk + 7)
    ensures 1 <= i / nk <= 10
  {
  }

  /** The scratch word `tempa` after the branches of the loop body. */
  lemma TempOfBranches(previous: Word4, i: nat, nk: nat, rotated: Word4)
    requires IsNk(nk) && nk <= i < 4 * (nk + 7)
    requires rotated == RotWord(previous)
    ensures i % nk == 0 ==> 1 <= i / nk <= 10
    ensures i % nk == 0 ==>
      Temp(previous, i, nk) == [Add(SBox(rotated[0]), RCON[i / nk]), SBox(rotated[1]), SBox(rotated[2]), SBox(rotated[3])]
    ensures nk == 8 && i % nk == 4 ==> Temp(previous, i, nk) == SubWord(previous)
    ensures i % nk != 0 && (nk != 8 || i % nk != 4) ==> Temp(previous, i, nk) == previous
  {
    hide Add, SBox, PowerOfX;
    if i % nk == 0 {
      QuotientBound(i, nk);
      RconTable(i / nk);
      var sub := SubWord(rotated);
      AddLaws(sub[1], 0, 0, 0);
      AddLaws(sub[2], 0, 0, 0);
      AddLaws(sub[3], 0, 0, 0);
      assert Xor(sub, Rcon(i / nk)) == [Add(sub[0], RCON[i / nk]), sub[1], sub[2], sub[3]];
    }
  }

  lemma XorOfWords(a: Word4, b: Word4)
    ensures Xor(a, b) == [Add(a[0], b[0]), Add(a[1], b[1]), Add(a[2], b[2]), Add(a[3], b[3])]
  {
  }

  /** The rotation and substitutions that the second loop of KeyExpansion applies to its scratch word. */
  method ScheduleCore(previous: Word4, i: nat, nk: nat) returns (tempa: Word4)
    requires IsNk(nk) && nk <= i < 4 * (nk + 7)
    ensures tempa == Temp(previous, i, nk)
    ensures i % nk == 0 ==>
      && i / nk <= 10
      && tempa == [Add(SBox(previous[1]), RCON[i / nk]), SBox(previous[2]), SBox(previous[3]), SBox(previous[0])]
    ensures nk == 8 && i % nk == 4 ==>
      tempa == [SBox(previous[0]), SBox(previous[1]), SBox(previous[2]), SBox(previous[3])]
    ensures i % nk != 0 && !(nk == 8 && i % nk == 4) ==> tempa == previous
  {
    hide Temp, SBox, Add;
    TempOfBranches(previous, i, nk, RotWord(previous));
    tempa := previous;
    if i % nk == 0 {
      tempa := [tempa[1], tempa[2], tempa[3], tempa[0]];
      tempa := [SBox(tempa[0]), SBox(tempa[1]), SBox(tempa[2]), SBox(tempa[3])];
      tempa := [Add(tempa[0], RCON[i / nk]), tempa[1], tempa[2], tempa[3]];
    }
    if nk == 8 && i % nk == 4 {
      tempa := [SBox(tempa[0]), SBox(tempa[1]), SBox(tempa[2]), SBox(tempa[3])];
    }
  }

  lemma FourBytes(w: seq<bv8>, i: nat)
    requires 4 * i + 4 <= |w|
    ensures Word(w, i) == [w[4 * i], w[4 * i + 1], w[4 * i + 2], w[4 * i + 3]]
  {
  }

  /** The four additions that end the body of the second loop of KeyExpansion. */
  method AddWord(roundKey: array<bv8>, j: nat, k: nat, tempa: Word4)
    requires k + 4 <= j && j + 4 <= roundKey.Length
    modifies roundKey
    ensures var w := old(roundKey[..]);
      roundKey[..] == w[j := Add(w[k], tempa[0])][j + 1 := Add(w[k + 1], tempa[1])]
                       [j + 2 := Add(w[k + 2], tempa[2])][j + 3 := Add(w[k + 3], tempa[3])]
  {
    hide Add;
    roundKey[j + 0] := Add(roundKey[k + 0], tempa[0]);
    roundKey[j + 1] := Add(roundKey[k + 1], tempa[1]);
    roundKey[j + 2] := Add(roundKey[k + 2], tempa[2]);
    roundKey[j + 3] := Add(roundKey[k + 3], tempa[3]);
  }

  /** One round of the second loop of KeyExpansion: word i from words i - 1 and i - nk. */
  method ExpandWord(roundKey: array<bv8>, i: nat, nk: nat)
    requires IsNk(nk) && nk <= i < 4 * (nk + 7) && roundKey.Length == ExpandedSize(nk)
    modifies roundKey
    ensures var w := old(roundKey[..]);
      var next := Xor(Word(w, i - nk), Temp(Word(w, i - 1), i, nk));
      roundKey[..] == w[4 * i := next[0]][4 * i + 1 := next[1]][4 * i + 2 := next[2]][4 * i + 3 := next[3]]
  {
    hide Temp, Add, Xor, SBox, Word;
    FourBytes(roundKey[..], i - 1);
    FourBytes(roundKey[..], i - nk);
    var k := (i - 1) * 4;
    var tempa := ScheduleCore([roundKey[k], roundKey[k + 1], roundKey[k + 2], roundKey[k + 3]], i, nk);
    XorOfWords(Word(roundKey[..], i - nk), tempa);
    AddWord(roundKey, i * 4, (i - nk) * 4, tempa);
  }

  lemma ExpandToOneMore(key: seq<bv8>, nk: nat, i: nat, w: seq<bv8>, v: seq<bv8>)
    requires IsNk(nk) && |key| == 4 * nk && nk <= i && 4 * i + 4 <= |w|
    requires w[..4 * i] == ExpandTo(key, nk, i)
    requires var next := Xor(Word(w, i - nk), Temp(Word(w, i - 1), i, nk));
      v == w[4 * i := next[0]][4 * i + 1 := next[1]][4 * i + 2 := next[2]][4 * i + 3 := next[3]]
    ensures v[..4 * (i + 1)] == ExpandTo(key, nk, i + 1)
  {
    hide Temp, Xor;
    var u := ExpandTo(key, nk, i);
    assert Word(u, i - nk) == Word(w, i - nk);
    assert Word(u, i - 1) == Word(w, i - 1);
    var next := Xor(Word(w, i - nk), Temp(Word(w, i - 1), i, nk));
    assert v[..4 * (i + 1)] == u + next;
  }

  lemma ExpandToKey(key: seq<bv8>, nk: nat)
    requires IsNk(nk) && |key| == 4 * nk
    ensures ExpandTo(key, nk, nk) == key
  {
  }

  method KeyExpansion(roundKey: array<bv8>, key: array<bv8>, nk: nat)
    requires IsNk(nk) && roundKey.Length == ExpandedSize(nk) && key.Length >= 4 * nk && roundKey != key
    modifies roundKey
    ensures roundKey[..] == Expand(key[..4 * nk], nk)
    ensures IsScheduleOf(roundKey[..], key[..4 * nk], nk)
  {
    hide Temp, Xor, ExpandTo, Word, IsScheduleOf;
    ghost var k0 := key[..4 * nk];
    var i := 0;
    while i < nk
      invariant 0 <= i <= nk
      invariant forall k :: 0 <= k < 4 * i ==> roundKey[k] == key[k]
    {
      roundKey[i * 4 + 0] := key[i * 4 + 0];
      roundKey[i * 4 + 1] := key[i * 4 + 1];
      roundKey[i * 4 + 2] := key[i * 4 + 2];
      roundKey[i * 4 + 3] := key[i * 4 + 3];
      i := i + 1;
    }
    assert roundKey[..4 * nk] == k0;
    ExpandToKey(k0, nk);
    while i < 4 * (nk + 7)
      invariant nk <= i <= 4 * (nk + 7)
      invariant roundKey[..4 * i] == ExpandTo(k0, nk, i)
    {
      ghost var w := roundKey[..];
      assert w[..4 * i] == roundKey[..4 * i];
      ExpandWord(roundKey, i, nk);
      ExpandToOneMore(k0, nk, i, w, roundKey[..]);
      assert roundKey[..][..4 * (i + 1)] == roundKey[..4 * (i + 1)];
      i := i + 1;
    }
    assert roundKey[..] == roundKey[..4 * (4 * (nk + 7))];
    ExpandIffBytes(roundKey[..], k0, nk);
  }
}
