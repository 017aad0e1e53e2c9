/** aes.c: the cipher computed in place.  A pointer to a state is a buffer and a position in it;
    byte [i][j] of the state is byte 4i + j from that position. */
module Aes {
  import opened Bytes
  import opened Gf256
  import opened SBoxes
  import opened ByteArithmetic
  import F = Fips197

  method AddRoundKey(round: nat, buf: array<bv8>, at: nat, w: array<bv8>)
    requires at + 16 <= buf.Length && 16 * (round + 1) <= w.Length && buf != w
    modifies buf
    ensures buf[at..at + 16] == F.AddRoundKey(old(buf[at..at + 16]), w[..], round)
    ensures forall k :: at <= k < at + 16 ==> buf[k] == Add(old(buf[k]), w[16 * round + k - at])
    ensures buf[..at] == old(buf[..at]) && buf[at + 16..] == old(buf[at + 16..])
  {
    hide Add;
    var i := 0;
    while i < 4
      invariant 0 <= i <= 4
      invariant forall k :: 0 <= k < buf.Length ==>
        buf[k] == if at <= k < at + 4 * i then Add(old(buf[k]), w[16 * round + k - at]) else old(buf[k])
    {
      var j := 0;
      while j < 4
        invariant 0 <= j <= 4
        invariant forall k :: 0 <= k < buf.Length ==>
          buf[k] == if at <= k < at + 4 * i + j then Add(old(buf[k]), w[16 * round + k - at]) else old(buf[k])
      {
        buf[at + 4 * i + j] := Add(buf[at + 4 * i + j], w[round * 4 * 4 + i * 4 + j]);
        j := j + 1;
      }
      i := i + 1;
    }
  }

  /** Whether the column-by-column sweep with `i` as row and `j` as column has passed byte k. */
  ghost predicate Swept(k: int, i: int, j: int) {
    k % 4 < i || (k % 4 == i && k / 4 < j)
  }

  method SubBytes(buf: array<bv8>, at: nat)
    requires at + 16 <= buf.Length
    modifies buf
    ensures buf[at..at + 16] == F.SubBytes(old(buf[at..at + 16]))
    ensures buf[..at] == old(buf[..at]) && buf[at + 16..] == old(buf[at + 16..])
  {
    hide SBox;
    var i := 0;
    while i < 4
      invariant 0 <= i <= 4
      invariant forall k :: 0 <= k < buf.Length ==>
        buf[k] == if at <= k < at + 16 && Swept(k - at, i, 0) then SBox(old(buf[k])) else old(buf[k])
    {
      var j := 0;
      while j < 4
        invariant 0 <= j <= 4
        invariant forall k :: 0 <= k < buf.Length ==>
          buf[k] == if at <= k < at + 16 && Swept(k - at, i, j) then SBox(old(buf[k])) else old(buf[k])
      {
        buf[at + 4 * j + i] := SBox(buf[at + 4 * j + i]);
        j := j + 1;
      }
      i := i + 1;
    }
  }

  method InvSubBytes(buf: array<bv8>, at: nat)
    requires at + 16 <= buf.Length
    modifies buf
    ensures buf[at..at + 16] == F.InvSubBytes(old(buf[at..at + 16]))
    ensures buf[..at] == old(buf[..at]) && buf[at + 16..] == old(buf[at + 16..])
  {
    hide InvSBox;
    var i := 0;
    while i < 4
      invariant 0 <= i <= 4
      invariant forall k :: 0 <= k < buf.Length ==>
        buf[k] == if at <= k < at + 16 && Swept(k - at, i, 0) then InvSBox(old(buf[k])) else old(buf[k])
    {
      var j := 0;
      while j < 4
        invariant 0 <= j <= 4
        invariant forall k :: 0 <= k < buf.Length ==>
          buf[k] == if at <= k < at + 16 && Swept(k - at, i, j) then InvSBox(old(buf[k])) else old(buf[k])
      {
        buf[at + 4 * j + i] := InvSBox(buf[at + 4 * j + i]);
        j := j + 1;
      }
      i := i + 1;
    }
  }

  /** The state rows of `s` after the element moves of ShiftRows. */
  ghost function RotatedLeft(s: seq<bv8>, at: nat): (t: seq<bv8>)
    requires at + 16 <= |s|
    ensures |t| == |s|
  {
    s[at + 1 := s[at + 5]][at + 5 := s[at + 9]][at + 9 := s[at + 13]][at + 13 := s[at + 1]]
     [at + 2 := s[at + 10]][at + 10 := s[at + 2]][at + 6 := s[at + 14]][at + 14 := s[at + 6]]
     [at + 3 := s[at + 15]][at + 15 := s[at + 11]][at + 11 := s[at + 7]][at + 7 := s[at + 3]]
  }

  /** The state rows of `s` after the element moves of InvShiftRows. */
  ghost function RotatedRight(s: seq<bv8>, at: nat): (t: seq<bv8>)
    requires at + 16 <= |s|
    ensures |t| == |s|
  {
    s[at + 13 := s[at + 9]][at + 9 := s[at + 5]][at + 5 := s[at + 1]][at + 1 := s[at + 13]]
     [at + 2 := s[at + 10]][at + 10 := s[at + 2]][at + 6 := s[at + 14]][at + 14 := s[at + 6]]
     [at + 3 := s[at + 7]][at + 7 := s[at + 11]][at + 11 := s[at + 15]][at + 15 := s[at + 3]]
  }

  lemma RotatedLeftBytes(s: seq<bv8>, at: nat)
    requires at + 16 <= |s|
    ensures var t := RotatedLeft(s, at);
      && t[at + 0] == s[at + 0] && t[at + 4] == s[at + 4] && t[at + 8] == s[at + 8] && t[at + 12] == s[at + 12]
      && t[at + 1] == s[at + 5] && t[at + 5] == s[at + 9] && t[at + 9] == s[at + 13] && t[at + 13] == s[at + 1]
      && t[at + 2] == s[at + 10] && t[at + 6] == s[at + 14] && t[at + 10] == s[at + 2] && t[at + 14] == s[at + 6]
      && t[at + 3] == s[at + 15] && t[at + 7] == s[at + 3] && t[at + 11] == s[at + 7] && t[at + 15] == s[at + 11]
    ensures forall k :: 0 <= k < |s| && !(at <= k < at + 16) ==> RotatedLeft(s, at)[k] == s[k]
  {
  }

  lemma RowsRotatedLeft(s: seq<bv8>, at: nat)
    requires at + 16 <= |s|
    ensures var t := RotatedLeft(s, at);
      t[at..at + 16] == F.ShiftRows(s[at..at + 16]) && t[..at] == s[..at] && t[at + 16..] == s[at + 16..]
  {
    hide RotatedLeft, F.ShiftRows;
    RotatedLeftBytes(s, at);
    F.ShiftRowsByRows(s[at..at + 16], RotatedLeft(s, at)[at..at + 16]);
  }

  lemma RotatedRightBytes(s: seq<bv8>, at: nat)
    requires at + 16 <= |s|
    ensures var t := RotatedRight(s, at);
      && t[at + 0] == s[at + 0] && t[at + 4] == s[at + 4] && t[at + 8] == s[at + 8] && t[at + 12] == s[at + 12]
      && t[at + 1] == s[at + 13] && t[at + 5] == s[at + 1] && t[at + 9] == s[at + 5] && t[at + 13] == s[at + 9]
      && t[at + 2] == s[at + 10] && t[at + 6] == s[at + 14] && t[at + 10] == s[at + 2] && t[at + 14] == s[at + 6]
      && t[at + 3] == s[at + 7] && t[at + 7] == s[at + 11] && t[at + 11] == s[at + 15] && t[at + 15] == s[at + 3]
    ensures forall k :: 0 <= k < |s| && !(at <= k < at + 16) ==> RotatedRight(s, at)[k] == s[k]
  {
  }

  lemma RowsRotatedRight(s: seq<bv8>, at: nat)
    requires at + 16 <= |s|
    ensures var t := RotatedRight(s, at);
      t[at..at + 16] == F.InvShiftRows(s[at..at + 16]) && t[..at] == s[..at] && t[at + 16..] == s[at + 16..]
  {
    hide RotatedRight, F.InvShiftRows;
    RotatedRightBytes(s, at);
    F.InvShiftRowsByRows(s[at..at + 16], RotatedRight(s, at)[at..at + 16]);
  }

  method ShiftRows(buf: array<bv8>, at: nat)
    requires at + 16 <= buf.Length
    modifies buf
    ensures buf[at..at + 16] == F.ShiftRows(old(buf[at..at + 16]))
    ensures buf[..at] == old(buf[..at]) && buf[at + 16..] == old(buf[at + 16..])
  {
    ghost var s := buf[..];
    // row 1, one column to the left
    var temp := buf[at + 1];
    buf[at + 1] := buf[at + 5];
    buf[at + 5] := buf[at + 9];
    buf[at + 9] := buf[at + 13];
    buf[at + 13] := temp;

    // row 2, two columns
    temp := buf[at + 2];
    buf[at + 2] := buf[at + 10];
    buf[at + 10] := temp;
    temp := buf[at + 6];
    buf[at + 6] := buf[at + 14];
    buf[at + 14] := temp;

    // row 3, three columns
    temp := buf[at + 3];
    buf[at + 3] := buf[at + 15];
    buf[at + 15] := buf[at + 11];
    buf[at + 11] := buf[at + 7];
    buf[at + 7] := temp;
    RowsRotatedLeft(s, at);
  }

  method InvShiftRows(buf: array<bv8>, at: nat)
    requires at + 16 <= buf.Length
    modifies buf
    ensures buf[at..at + 16] == F.InvShiftRows(old(buf[at..at + 16]))
    ensures buf[..at] == old(buf[..at]) && buf[at + 16..] == old(buf[at + 16..])
  {
    ghost var s := buf[..];
    // row 1, one column to the right
    var temp := buf[at + 13];
    buf[at + 13] := buf[at + 9];
    buf[at + 9] := buf[at + 5];
    buf[at + 5] := buf[at + 1];
    buf[at + 1] := temp;

    // row 2, two columns
    temp := buf[at + 2];
    buf[at + 2] := buf[at + 10];
    buf[at + 10] := temp;
    temp := buf[at + 6];
    buf[at + 6] := buf[at + 14];
    buf[at + 14] := temp;

    // row 3, three columns
    temp := buf[at + 3];
    buf[at + 3] := buf[at + 7];
    buf[at + 7] := buf[at + 11];
    buf[at + 11] := buf[at + 15];
    buf[at + 15] := temp;
    RowsRotatedRight(s, at);
  }

  /** `now` is `s` with the first i columns of the state replaced by those of `mixed`. */
  ghost predicate ColumnsReplaced(s: seq<bv8>, now: seq<bv8>, mixed: Block, at: nat, i: nat)
    requires at + 16 <= |s| && i <= 4
  {
    && |now| == |s|
    && forall k :: 0 <= k < |s| ==> now[k] == if at <= k < at + 4 * i then mixed[k - at] else s[k]
  }

  lemma OneMoreColumn(s: seq<bv8>, now: seq<bv8>, mixed: Block, at: nat, i: nat)
    requires at + 16 <= |s| && i < 4 && ColumnsReplaced(s, now, mixed, at, i)
    ensures var p := at + 4 * i;
      ColumnsReplaced(s, now[p := mixed[4 * i]][p + 1 := mixed[4 * i + 1]][p + 2 := mixed[4 * i + 2]][p + 3 := mixed[4 * i + 3]],
                      mixed, at, i + 1)
  {
  }

  lemma ReplacedNone(s: seq<bv8>, mixed: Block, at: nat)
    requires at + 16 <= |s|
    ensures ColumnsReplaced(s, s, mixed, at, 0)
  {
  }

  lemma ReplacedAll(s: seq<bv8>, now: seq<bv8>, mixed: Block, at: nat)
    requires at + 16 <= |s| && ColumnsReplaced(s, now, mixed, at, 4)
    ensures |now| == |s| && now[at..at + 16] == mixed && now[..at] == s[..at] && now[at + 16..] == s[at + 16..]
  {
  }

  ghost function ColumnMixed(s: seq<bv8>, p: nat): seq<bv8>
    requires p + 4 <= |s|
  {
    var a, b, c, d := s[p], s[p + 1], s[p + 2], s[p + 3];
    s[p := MixByte(a, b, c, d)][p + 1 := MixByte(b, c, d, a)][p + 2 := MixByte(c, d, a, b)][p + 3 := MixByte(d, a, b, c)]
  }

  ghost function ColumnUnmixed(s: seq<bv8>, p: nat): seq<bv8>
    requires p + 4 <= |s|
  {
    var a, b, c, d := s[p], s[p + 1], s[p + 2], s[p + 3];
    s[p := InvMixByte(a, b, c, d)][p + 1 := InvMixByte(b, c, d, a)][p + 2 := InvMixByte(c, d, a, b)][p + 3 := InvMixByte(d, a, b, c)]
  }

  lemma ColumnStep(s: seq<bv8>, now: seq<bv8>, at: nat, i: nat)
    requires at + 16 <= |s| && i < 4
    ensures ColumnsReplaced(s, now, F.MixColumns(s[at..at + 16]), at, i) ==>
      ColumnsReplaced(s, ColumnMixed(now, at + 4 * i), F.MixColumns(s[at..at + 16]), at, i + 1)
    ensures ColumnsReplaced(s, now, F.InvMixColumns(s[at..at + 16]), at, i) ==>
      ColumnsReplaced(s, ColumnUnmixed(now, at + 4 * i), F.InvMixColumns(s[at..at + 16]), at, i + 1)
  {
    hide F.MixColumns, F.InvMixColumns, MixByte, InvMixByte;
    var block, p := s[at..at + 16], at + 4 * i;
    F.MixColumnsOfColumn(block, i);
    assert s[p] == block[4 * i] && s[p + 1] == block[4 * i + 1] && s[p + 2] == block[4 * i + 2] && s[p + 3] == block[4 * i + 3];
    if ColumnsReplaced(s, now, F.MixColumns(block), at, i) {
      OneMoreColumn(s, now, F.MixColumns(block), at, i);
    }
    if ColumnsReplaced(s, now, F.InvMixColumns(block), at, i) {
      OneMoreColumn(s, now, F.InvMixColumns(block), at, i);
    }
  }

  /** The body of the MixColumns loop. */
  method MixColumn(buf: array<bv8>, p: nat)
    requires p + 4 <= buf.Length
    modifies buf
    ensures buf[..] == ColumnMixed(old(buf[..]), p)
  {
    hide Add, Xtime, MixByte;
    SharedMixColumn(buf[p], buf[p + 1], buf[p + 2], buf[p + 3]);
    var t := buf[p];
    var all := Add(Add(Add(buf[p], buf[p + 1]), buf[p + 2]), buf[p + 3]);
    var tm := Xtime(Add(buf[p], buf[p + 1]));
    buf[p] := Add(buf[p], Add(tm, all));
    tm := Xtime(Add(buf[p + 1], buf[p + 2]));
    buf[p + 1] := Add(buf[p + 1], Add(tm, all));
    tm := Xtime(Add(buf[p + 2], buf[p + 3]));
    buf[p + 2] := Add(buf[p + 2], Add(tm, all));
    tm := Xtime(Add(buf[p + 3], t));
    buf[p + 3] := Add(buf[p + 3], Add(tm, all));
  }

  method MixColumns(buf: array<bv8>, at: nat)
    requires at + 16 <= buf.Length
    modifies buf
    ensures buf[at..at + 16] == F.MixColumns(old(buf[at..at + 16]))
    ensures buf[..at] == old(buf[..at]) && buf[at + 16..] == old(buf[at + 16..])
  {
    hide F.MixColumns, ColumnMixed, ColumnsReplaced;
    ghost var s := buf[..];
    assert ColumnsReplaced(s, s, F.MixColumns(s[at..at + 16]), at, 0) by { ReplacedNone(s, F.MixColumns(s[at..at + 16]), at); }
    var i := 0;
    while i < 4
      invariant 0 <= i <= 4
      invariant ColumnsReplaced(s, buf[..], F.MixColumns(s[at..at + 16]), at, i)
    {
      ColumnStep(s, buf[..], at, i);
      MixColumn(buf, at + 4 * i);
      i := i + 1;
    }
    ReplacedAll(s, buf[..], F.MixColumns(s[at..at + 16]), at);
  }

  /** The body of the InvMixColumns loop. */
  method InvMixColumn(buf: array<bv8>, p: nat)
    requires p + 4 <= buf.Length
    modifies buf
    ensures buf[..] == ColumnUnmixed(old(buf[..]), p)
  {
    hide Add, Multiply, InvMixByte;
    var a, b, c, d := buf[p], buf[p + 1], buf[p + 2], buf[p + 3];
    SumOfMultipliesIsInvMixByte(a, b, c, d);
    SumOfMultipliesIsInvMixByte(b, c, d, a);
    SumOfMultipliesIsInvMixByte(c, d, a, b);
    SumOfMultipliesIsInvMixByte(d, a, b, c);
    buf[p] := Add(Add(Add(Multiply(a, 0x0e), Multiply(b, 0x0b)), Multiply(c, 0x0d)), Multiply(d, 0x09));
    buf[p + 1] := Add(Add(Add(Multiply(a, 0x09), Multiply(b, 0x0e)), Multiply(c, 0x0b)), Multiply(d, 0x0d));
    buf[p + 2] := Add(Add(Add(Multiply(a, 0x0d), Multiply(b, 0x09)), Multiply(c, 0x0e)), Multiply(d, 0x0b));
    buf[p + 3] := Add(Add(Add(Multiply(a, 0x0b), Multiply(b, 0x0d)), Multiply(c, 0x09)), Multiply(d, 0x0e));
  }

  method InvMixColumns(buf: array<bv8>, at: nat)
    requires at + 16 <= buf.Length
    modifies buf
    ensures buf[at..at + 16] == F.InvMixColumns(old(buf[at..at + 16]))
    ensures buf[..at] == old(buf[..at]) && buf[at + 16..] == old(buf[at + 16..])
  {
    hide F.InvMixColumns, ColumnUnmixed, ColumnsReplaced;
    ghost var s := buf[..];
    assert ColumnsReplaced(s, s, F.InvMixColumns(s[at..at + 16]), at, 0) by { ReplacedNone(s, F.InvMixColumns(s[at..at + 16]), at); }
    var i := 0;
    while i < 4
      invariant 0 <= i <= 4
      invariant ColumnsReplaced(s, buf[..], F.InvMixColumns(s[at..at + 16]), at, i)
    {
      ColumnStep(s, buf[..], at, i);
      InvMixColumn(buf, at + 4 * i);
      i := i + 1;
    }
    ReplacedAll(s, buf[..], F.InvMixColumns(s[at..at + 16]), at);
  }

  /** Encrypts one block in place, for any number of rounds and any round-key bytes. */
  method Cipher(buf: array<bv8>, at: nat, w: array<bv8>)
    requires at + 16 <= buf.Length && buf != w
    requires F.IsRoundKeys(w[..])
    modifies buf
    ensures buf[at..at + 16] == F.Cipher(old(buf[at..at + 16]), w[..])
    ensures buf[..at] == old(buf[..at]) && buf[at + 16..] == old(buf[at + 16..])
  {
    hide Add, F.SubBytes, F.ShiftRows, F.MixColumns, F.AddRoundKey;
    ghost var s, keys := buf[at..at + 16], w[..];
    var nr := w.Length / 16 - 1;
    AddRoundKey(0, buf, at, w);
    var round := 1;
    while true
      invariant 1 <= round <= nr
      invariant w[..] == keys
      invariant buf[at..at + 16] == F.Rounds(s, keys, round - 1)
      invariant buf[..at] == old(buf[..at]) && buf[at + 16..] == old(buf[at + 16..])
      decreases nr - round
    {
      SubBytes(buf, at);
      ShiftRows(buf, at);
      if round == nr {
        break;
      }
      MixColumns(buf, at);
      AddRoundKey(round, buf, at, w);
      round := round + 1;
    }
    AddRoundKey(nr, buf, at, w);
  }

  /** Decrypts one block in place. */
  method InvCipher(buf: array<bv8>, at: nat, w: array<bv8>)
    requires at + 16 <= buf.Length && buf != w
    requires F.IsRoundKeys(w[..])
    modifies buf
    ensures buf[at..at + 16] == F.InvCipher(old(buf[at..at + 16]), w[..])
    ensures buf[..at] == old(buf[..at]) && buf[at + 16..] == old(buf[at + 16..])
  {
    hide Add, F.InvSubBytes, F.InvShiftRows, F.InvMixColumns, F.AddRoundKey;
    ghost var s, keys := buf[at..at + 16], w[..];
    var nr := w.Length / 16 - 1;
    AddRoundKey(nr, buf, at, w);
    var round := nr - 1;
    while true
      invariant 0 <= round < nr
      invariant w[..] == keys
      invariant F.InvRounds(buf[at..at + 16], keys, round) == F.InvCipher(s, keys)
      invariant buf[..at] == old(buf[..at]) && buf[at + 16..] == old(buf[at + 16..])
      decreases round
    {
      InvShiftRows(buf, at);
      InvSubBytes(buf, at);
      AddRoundKey(round, buf, at, w);
      if round == 0 {
        break;
      }
      InvMixColumns(buf, at);
      round := round - 1;
    }
  }
}
