/** Byte strings, and the write of one byte string into another. */
module Bytes {
  import opened Gf256

  /** One AES block. */
  type Block = s: seq<bv8> | |s| == 16 witness seq(16, _ => 0)

  function Xor(a: seq<bv8>, b: seq<bv8>): (r: seq<bv8>)
    requires |a| == |b|
    ensures |r| == |a|
  {
    seq(|a|, i requires 0 <= i < |a| => Add(a[i], b[i]))
  }

  lemma XorAt(a: seq<bv8>, b: seq<bv8>, k: nat)
    requires |a| == |b| && k < |a|
    ensures Xor(a, b)[k] == Add(a[k], b[k])
  {
    hide Add;
  }

  /** `s` with `piece` written over it from position `at`. */
  function Splice(s: seq<bv8>, at: nat, piece: seq<bv8>): (r: seq<bv8>)
    requires at + |piece| <= |s|
    ensures |r| == |s|
  {
    s[..at] + piece + s[at + |piece|..]
  }

  /** What a splice leaves where: the piece at its place, the rest as it was. */
  lemma SpliceParts(s: seq<bv8>, at: nat, piece: seq<bv8>)
    requires at + |piece| <= |s|
    ensures var r := Splice(s, at, piece);
      r[at..at + |piece|] == piece && r[..at] == s[..at] && r[at + |piece|..] == s[at + |piece|..]
  {
  }

  /** A string is a splice when it has those parts. */
  lemma SpliceFromParts(s: seq<bv8>, at: nat, piece: seq<bv8>, r: seq<bv8>)
    requires at + |piece| <= |s| == |r|
    requires r[at..at + |piece|] == piece && r[..at] == s[..at] && r[at + |piece|..] == s[at + |piece|..]
    ensures r == Splice(s, at, piece)
  {
    assert r == r[..at] + r[at..at + |piece|] + r[at + |piece|..];
  }

  lemma SpliceTwice(s: seq<bv8>, at: nat, piece: seq<bv8>, other: seq<bv8>)
    requires at + |piece| <= |s| && |other| == |piece|
    ensures Splice(Splice(s, at, piece), at, other) == Splice(s, at, other)
  {
  }

  /** Adjacent splices are one. */
  lemma SpliceAppend(s: seq<bv8>, at: nat, piece: seq<bv8>, more: seq<bv8>)
    requires at + |piece| + |more| <= |s|
    ensures Splice(Splice(s, at, piece), at + |piece|, more) == Splice(s, at, piece + more)
    ensures Splice(s, at, piece)[at + |piece|..at + |piece| + |more|] == s[at + |piece|..at + |piece| + |more|]
  {
    var r := Splice(s, at, piece);
    assert forall k :: at + |piece| <= k < |s| ==> r[k] == s[k];
    assert forall k :: at <= k < at + |piece| ==> r[k] == piece[k - at];
    assert forall k :: 0 <= k < at ==> r[k] == s[k];
  }

  lemma SpliceNothing(s: seq<bv8>, at: nat)
    requires at <= |s|
    ensures Splice(s, at, []) == s
  {
  }

  lemma SplicePrefix(s: seq<bv8>, piece: seq<bv8>)
    requires |piece| <= |s|
    ensures Splice(s, 0, piece)[..|piece|] == piece
  {
  }

  lemma SpliceAll(s: seq<bv8>, piece: seq<bv8>)
    requires |piece| == |s|
    ensures Splice(s, 0, piece) == piece
  {
  }

  lemma AddCancels(a: bv8, b: bv8)
    ensures Add(Add(a, b), b) == a && Add(b, Add(b, a)) == a
  {
  }

  lemma XorCancels(a: seq<bv8>, b: seq<bv8>)
    requires |a| == |b|
    ensures Xor(Xor(a, b), b) == a
    ensures Xor(b, Xor(b, a)) == a
  {
    hide Add;
    forall i | 0 <= i < |a|
      ensures Add(Add(a[i], b[i]), b[i]) == a[i] && Add(b[i], Add(b[i], a[i])) == a[i]
    {
      AddCancels(a[i], b[i]);
    }
    assert Xor(Xor(a, b), b) == a;
    assert Xor(b, Xor(b, a)) == a;
  }

  lemma XorCommutes(a: seq<bv8>, b: seq<bv8>)
    requires |a| == |b|
    ensures Xor(a, b) == Xor(b, a)
  {
    hide Add;
    forall i | 0 <= i < |a|
      ensures Add(a[i], b[i]) == Add(b[i], a[i])
    {
      AddLaws(a[i], b[i], 0, 0);
    }
    assert Xor(a, b) == Xor(b, a);
  }
}
