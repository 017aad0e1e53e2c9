/** string.c: the copy and fill routines over one memory, addressed by byte. */
module Memory {
  import opened Bytes

  /** The eight bytes at s, as a little-endian machine word. */
  function LoadWord(b0: bv8, b1: bv8, b2: bv8, b3: bv8, b4: bv8, b5: bv8, b6: bv8, b7: bv8): bv64 {
    (b0 as bv64) | ((b1 as bv64) << 8) | ((b2 as bv64) << 16) | ((b3 as bv64) << 24)
    | ((b4 as bv64) << 32) | ((b5 as bv64) << 40) | ((b6 as bv64) << 48) | ((b7 as bv64) << 56)
  }

  function WordByte(w: bv64, i: nat): bv8
    requires i < 8
  {
    if i == 0 then (w & 0xff) as bv8
    else if i == 1 then ((w >> 8) & 0xff) as bv8
    else if i == 2 then ((w >> 16) & 0xff) as bv8
    else if i == 3 then ((w >> 24) & 0xff) as bv8
    else if i == 4 then ((w >> 32) & 0xff) as bv8
    else if i == 5 then ((w >> 40) & 0xff) as bv8
    else if i == 6 then ((w >> 48) & 0xff) as bv8
    else ((w >> 56) & 0xff) as bv8
  }

  lemma WordBytes(b0: bv8, b1: bv8, b2: bv8, b3: bv8, b4: bv8, b5: bv8, b6: bv8, b7: bv8)
    ensures var w := LoadWord(b0, b1, b2, b3, b4, b5, b6, b7);
      && WordByte(w, 0) == b0 && WordByte(w, 1) == b1 && WordByte(w, 2) == b2 && WordByte(w, 3) == b3
      && WordByte(w, 4) == b4 && WordByte(w, 5) == b5 && WordByte(w, 6) == b6 && WordByte(w, 7) == b7
  {
  }

  function Bit(on: bool, mask: bv64): bv64 {
    if on then mask else 0
  }

  /** The low three bits of an address or a length. */
  function LowBits(n: nat): bv64 {
    Bit(n % 2 == 1, 1) | Bit(n / 2 % 2 == 1, 2) | Bit(n / 4 % 2 == 1, 4)
  }

  /** The test `((a | b) & (sizeof(uintptr_t) - 1)) == 0`, which looks at no other bits. */
  predicate BothAligned(a: nat, b: nat) {
    (LowBits(a) | LowBits(b)) & 7 == 0
  }

  lemma ThreeBits(x: bool, y: bool, z: bool)
    ensures (Bit(x, 1) | Bit(y, 2) | Bit(z, 4)) & 7 == 0 <==> !x && !y && !z
  {
  }

  lemma EvenThrice(n: nat)
    ensures n % 8 == 0 <==> n % 2 != 1 && n / 2 % 2 != 1 && n / 4 % 2 != 1
  {
    var q, r := n / 8, n % 8;
    assert n == 2 * (4 * q + r / 2) + r % 2;
    assert n / 2 == 4 * q + r / 2 == 2 * (2 * q + r / 4) + r / 2 % 2;
    assert n / 4 == 2 * q + r / 4;
  }

  lemma LowBitsAre(n: nat)
    ensures LowBits(n) == Bit(n % 2 == 1, 1) | Bit(n / 2 % 2 == 1, 2) | Bit(n / 4 % 2 == 1, 4)
  {
  }

  lemma OneAligned(n: nat)
    ensures LowBits(n) & 7 == 0 <==> n % 8 == 0
  {
    hide *;
    LowBitsAre(n);
    EvenThrice(n);
    ThreeBits(n % 2 == 1, n / 2 % 2 == 1, n / 4 % 2 == 1);
  }

  lemma OrBits(x: bv64, y: bv64)
    ensures (x | y) & 7 == 0 <==> x & 7 == 0 && y & 7 == 0
  {
  }

  /** It asks whether both are multiples of eight. */
  lemma AlignmentTest(a: nat, b: nat)
    ensures BothAligned(a, b) <==> a % 8 == 0 && b % 8 == 0
  {
    hide LowBits;
    OneAligned(a);
    OneAligned(b);
    OrBits(LowBits(a), LowBits(b));
  }

  /** Copying n bytes one at a time, upwards: every byte is read after the ones below it were written. */
  function ForwardCopy(m: seq<bv8>, d: nat, s: nat, n: nat): (r: seq<bv8>)
    requires d + n <= |m| && s + n <= |m|
    ensures |r| == |m|
  {
    if n == 0 then m
    else
      var p := ForwardCopy(m, d, s, n - 1);
      p[d + n - 1 := p[s + n - 1]]
  }

  /** The copy a caller means: the destination range becomes the old source range. */
  function Moved(m: seq<bv8>, d: nat, s: nat, n: nat): (r: seq<bv8>)
    requires d + n <= |m| && s + n <= |m|
    ensures |r| == |m|
  {
    Splice(m, d, m[s..s + n])
  }

  lemma CopyNothing(m: seq<bv8>, d: nat, s: nat)
    requires d <= |m| && s <= |m|
    ensures ForwardCopy(m, d, s, 0) == m
  {
  }

  lemma CopyOneMore(m: seq<bv8>, d: nat, s: nat, n: nat)
    requires d + n < |m| && s + n < |m|
    ensures var p := ForwardCopy(m, d, s, n); ForwardCopy(m, d, s, n + 1) == p[d + n := p[s + n]]
  {
  }

  lemma MovedBytes(m: seq<bv8>, d: nat, s: nat, n: nat)
    requires d + n <= |m| && s + n <= |m|
    ensures forall k :: 0 <= k < |m| ==> Moved(m, d, s, n)[k] == if d <= k < d + n then m[s + k - d] else m[k]
  {
  }

  lemma MovedNothing(m: seq<bv8>, d: nat, s: nat)
    requires d <= |m| && s <= |m|
    ensures Moved(m, d, s, 0) == m
  {
  }

  /** The downward step: one byte below what was moved so far. */
  lemma MovedOneBelow(m: seq<bv8>, d: nat, s: nat, n: nat)
    requires 0 < s < d && d + n <= |m| && s + n <= |m|
    ensures var p := Moved(m, d, s, n);
      p[d - 1 := p[s - 1]] == Moved(m, d - 1, s - 1, n + 1)
  {
    var p := Moved(m, d, s, n);
    assert p[s - 1] == m[s - 1];
  }

  lemma MovedOneMore(p: seq<bv8>, d: nat, s: nat, k: nat)
    requires d + k < |p| && s + k < |p|
    requires d <= s || d > s + k
    ensures var q := Moved(p, d, s, k);
      q[d + k := q[s + k]] == Moved(p, d, s, k + 1)
  {
    var q := Moved(p, d, s, k);
    assert q[s + k] == p[s + k];
  }

  lemma {:induction false} ForwardCopyIsMove(m: seq<bv8>, d: nat, s: nat, n: nat)
    requires d + n <= |m| && s + n <= |m|
    requires d <= s || s + n <= d
    ensures ForwardCopy(m, d, s, n) == Moved(m, d, s, n)
  {
    hide ForwardCopy, Moved;
    if n == 0 {
      CopyNothing(m, d, s);
      MovedNothing(m, d, s);
    } else {
      ForwardCopyIsMove(m, d, s, n - 1);
      CopyOneMore(m, d, s, n - 1);
      MovedOneMore(m, d, s, n - 1);
    }
  }

  function OneByteSet(size: nat, at: nat): (m: seq<bv8>)
    requires at < size
    ensures |m| == size && m[at] == 1 && forall i :: 0 <= i < size && i != at ==> m[i] == 0
  {
    seq(size, i => if i == at then 1 else 0)
  }

  /** A copy into its own source repeats the bytes between the two starts. */
  lemma {:induction false} ForwardCopySmears(m: seq<bv8>, d: nat, s: nat, n: nat, k: nat)
    requires d + n <= |m| && s + n <= |m| && s < d && k < n
    ensures ForwardCopy(m, d, s, n)[d + k] == if k < d - s then m[s + k] else ForwardCopy(m, d, s, n)[d + k - (d - s)]
    ensures k == d - s ==> ForwardCopy(m, d, s, n)[d + k] == m[s]
    ensures forall j :: 0 <= j < |m| && !(d <= j < d + n) ==> ForwardCopy(m, d, s, n)[j] == m[j]
    decreases n
  {
    var p := ForwardCopy(m, d, s, n - 1);
    if n > 1 {
      ForwardCopySmears(m, d, s, n - 1, if k < n - 1 then k else 0);
      if k == n - 1 && k == d - s {
        ForwardCopySmears(m, d, s, n - 1, 0);
      }
    }
  }

  lemma SmearedCopyIsNoMove(m: seq<bv8>, d: nat, s: nat, n: nat)
    requires d + n <= |m| && s + n <= |m| && s < d < s + n && m[s] != m[d]
    ensures ForwardCopy(m, d, s, n) != Moved(m, d, s, n)
  {
    ForwardCopySmears(m, d, s, n, d - s);
    assert Moved(m, d, s, n)[d + (d - s)] == m[s..s + n][d - s] == m[d];
  }

  /** Byte-by-byte copying means a move for every memory exactly when the destination does not start
      inside the source range. */
  lemma ForwardCopyIsMoveIff(size: nat, d: nat, s: nat, n: nat)
    requires d + n <= size && s + n <= size
    ensures (forall m: seq<bv8> :: |m| == size ==> ForwardCopy(m, d, s, n) == Moved(m, d, s, n)) <==> (d <= s || s + n <= d)
  {
    hide ForwardCopy, Moved;
    if d <= s || s + n <= d {
      forall m: seq<bv8> | |m| == size
        ensures ForwardCopy(m, d, s, n) == Moved(m, d, s, n)
      {
        ForwardCopyIsMove(m, d, s, n);
      }
    } else {
      var m := OneByteSet(size, s);
      SmearedCopyIsNoMove(m, d, s, n);
    }
  }

  /** Up to eight byte steps at once, when no step reads what another one of them wrote. */
  lemma {:induction false} WordStep(m: seq<bv8>, d: nat, s: nat, n: nat, k: nat)
    requires d + n + k <= |m| && s + n + k <= |m| && k <= 8
    requires d <= s || d >= s + 8
    ensures ForwardCopy(m, d, s, n + k) == Moved(ForwardCopy(m, d, s, n), d + n, s + n, k)
  {
    hide ForwardCopy, Moved;
    var p := ForwardCopy(m, d, s, n);
    MovedNothing(p, d + n, s + n);
    if k > 0 {
      WordStep(m, d, s, n, k - 1);
      CopyOneMore(m, d, s, n + k - 1);
      MovedOneMore(p, d + n, s + n, k - 1);
    }
  }

  method StoreWord(mem: array<bv8>, d: nat, w: bv64)
    requires d + 8 <= mem.Length
    modifies mem
    ensures mem[..] == Splice(old(mem[..]), d, [WordByte(w, 0), WordByte(w, 1), WordByte(w, 2), WordByte(w, 3),
                                                WordByte(w, 4), WordByte(w, 5), WordByte(w, 6), WordByte(w, 7)])
  {
    hide WordByte;
    for i := 0 to 8
      invariant forall k :: 0 <= k < mem.Length ==> mem[k] == if d <= k < d + i then WordByte(w, k - d) else old(mem[k])
    {
      mem[d + i] := WordByte(w, i);
    }
  }

  /** One pass of the word loop of memcpy. */
  method CopyWord(mem: array<bv8>, d: nat, s: nat)
    requires d + 8 <= mem.Length && s + 8 <= mem.Length
    modifies mem
    ensures mem[..] == Moved(old(mem[..]), d, s, 8)
  {
    hide WordByte, LoadWord;
    WordBytes(mem[s], mem[s + 1], mem[s + 2], mem[s + 3], mem[s + 4], mem[s + 5], mem[s + 6], mem[s + 7]);
    var w := LoadWord(mem[s], mem[s + 1], mem[s + 2], mem[s + 3], mem[s + 4], mem[s + 5], mem[s + 6], mem[s + 7]);
    assert mem[..][s..s + 8] == [WordByte(w, 0), WordByte(w, 1), WordByte(w, 2), WordByte(w, 3),
                                 WordByte(w, 4), WordByte(w, 5), WordByte(w, 6), WordByte(w, 7)];
    StoreWord(mem, d, w);
  }

  lemma AlignedApart(d: nat, s: nat)
    requires d % 8 == 0 && s % 8 == 0
    ensures d <= s || d >= s + 8
  {
  }

  /** memcpy: words while both pointers are aligned, then bytes.  For every alignment, length and overlap
      the outcome is that of copying byte by byte. */
  method Memcpy(mem: array<bv8>, dest: nat, src: nat, len: nat)
    requires dest + len <= mem.Length && src + len <= mem.Length
    modifies mem
    ensures mem[..] == ForwardCopy(old(mem[..]), dest, src, len)
    ensures dest <= src || src + len <= dest ==> mem[..] == Moved(old(mem[..]), dest, src, len)
  {
    hide ForwardCopy, Moved, BothAligned;
    ghost var m := mem[..];
    var d, s := dest, src;
    CopyNothing(m, dest, src);
    AlignmentTest(dest, src);
    if BothAligned(dest, src) {
      while d < dest + len - 7
        invariant dest <= d <= dest + len && s - src == d - dest
        invariant mem[..] == ForwardCopy(m, dest, src, d - dest)
      {
        AlignedApart(dest, src);
        WordStep(m, dest, src, d - dest, 8);
        CopyWord(mem, d, s);
        d := d + 8;
        s := s + 8;
      }
    }
    while d < dest + len
      invariant dest <= d <= dest + len && s - src == d - dest
      invariant mem[..] == ForwardCopy(m, dest, src, d - dest)
    {
      CopyOneMore(m, dest, src, d - dest);
      mem[d] := mem[s];
      d := d + 1;
      s := s + 1;
    }
    if dest <= src || src + len <= dest {
      ForwardCopyIsMove(m, dest, src, len);
    }
  }

  /** memmove: upwards when the destination is not above the source, downwards otherwise. */
  method Memmove(mem: array<bv8>, dest: nat, src: nat, count: nat)
    requires dest + count <= mem.Length && src + count <= mem.Length
    modifies mem
    ensures mem[..] == Moved(old(mem[..]), dest, src, count)
    ensures forall k :: 0 <= k < mem.Length ==>
      mem[..][k] == if dest <= k < dest + count then old(mem[..])[src + k - dest] else old(mem[..])[k]
  {
    hide ForwardCopy, Moved;
    ghost var m := mem[..];
    var left: int := count;
    if dest <= src {
      var tmp, s := dest, src;
      CopyNothing(m, dest, src);
      while left != 0
        invariant 0 <= left <= count && tmp == dest + (count - left) && s == src + (count - left)
        invariant mem[..] == ForwardCopy(m, dest, src, count - left)
      {
        CopyOneMore(m, dest, src, count - left);
        left := left - 1;
        mem[tmp] := mem[s];
        tmp, s := tmp + 1, s + 1;
      }
      ForwardCopyIsMove(m, dest, src, count);
    } else {
      var tmp, s := dest + count, src + count;
      MovedNothing(m, tmp, s);
      while left != 0
        invariant 0 <= left <= count && tmp == dest + left && s == src + left
        invariant mem[..] == Moved(m, tmp, s, count - left)
      {
        MovedOneBelow(m, tmp, s, count - left);
        left := left - 1;
        tmp, s := tmp - 1, s - 1;
        mem[tmp] := mem[s];
      }
    }
    assert mem[..] == Moved(m, dest, src, count);
    MovedBytes(m, dest, src, count);
  }

  /** The low byte of an int argument, as a char store keeps it. */
  function LowByte(b: bv32): bv8 {
    (b & 0xff) as bv8
  }

  lemma LowByteValue(b: bv32)
    ensures LowByte(b) as bv32 == b % 256
  {
  }

  lemma LowByteCast(b: bv32)
    ensures LowByte(b) == (b % 256) as bv8
  {
  }

  /** The fill word: the low byte doubled three times. */
  function FillWord(b: bv32): bv64 {
    var w0 := (b & 0xff) as bv64;
    var w1 := w0 | (w0 << 8);
    var w2 := w1 | (w1 << 16);
    w2 | ((w2 << 16) << 16)
  }

  lemma FillWordBytes(b: bv32)
    ensures var w := FillWord(b); var c := (b % 256) as bv8;
      && WordByte(w, 0) == c && WordByte(w, 1) == c && WordByte(w, 2) == c && WordByte(w, 3) == c
      && WordByte(w, 4) == c && WordByte(w, 5) == c && WordByte(w, 6) == c && WordByte(w, 7) == c
  {
  }

  /** memset: replicated words when destination and length are aligned, bytes otherwise. */
  method Memset(mem: array<bv8>, dest: nat, byte: bv32, len: nat)
    requires dest + len <= mem.Length
    modifies mem
    ensures mem[..] == Splice(old(mem[..]), dest, seq(len, _ => LowByte(byte)))
    ensures forall k :: dest <= k < dest + len ==> mem[k] as bv32 == byte % 256
    ensures forall k :: 0 <= k < mem.Length && !(dest <= k < dest + len) ==> mem[k] == old(mem[k])
  {
    hide FillWord, LowByte, WordByte, BothAligned;
    var d := dest;
    LowByteValue(byte);
    AlignmentTest(dest, len);
    if BothAligned(dest, len) {
      var word := FillWord(byte);
      FillWordBytes(byte);
      LowByteCast(byte);
      while d < dest + len
        invariant dest <= d <= dest + len && (d - dest) % 8 == 0
        invariant forall k :: 0 <= k < mem.Length ==> mem[k] == if dest <= k < d then LowByte(byte) else old(mem[k])
      {
        ghost var before := mem[..];
        StoreWord(mem, d, word);
        assert forall k :: 0 <= k < mem.Length ==> mem[k] == if d <= k < d + 8 then LowByte(byte) else before[k];
        d := d + 8;
      }
    } else {
      while d < dest + len
        invariant dest <= d <= dest + len
        invariant forall k :: 0 <= k < mem.Length ==> mem[k] == if dest <= k < d then LowByte(byte) else old(mem[k])
      {
        mem[d] := LowByte(byte);
        d := d + 1;
      }
    }
  }
}
