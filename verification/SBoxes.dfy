/** The substitution tables of FIPS 197 (Figures 7 and 14).  Row x of a table holds the
    sixteen values for the bytes x0 to xf, packed left to right; choosing the row and then
    the column by the bits of the byte keeps the 256-entry facts below cheap to check. */
module SBoxes {
  import opened Gf256

  function Pick(row: bv128, column: bv8): bv8 {
    var r64 := if (column & 8) == 0 then (row >> 64) as bv64 else (row & 0xffff_ffff_ffff_ffff) as bv64;
    var r32 := if (column & 4) == 0 then (r64 >> 32) as bv32 else (r64 & 0xffff_ffff) as bv32;
    var r16 := if (column & 2) == 0 then (r32 >> 16) as bv16 else (r32 & 0xffff) as bv16;
    if (column & 1) == 0 then (r16 >> 8) as bv8 else (r16 & 0xff) as bv8
  }

  function SBoxRow(row: bv8): bv128 {
    if (row & 8) == 0 then
      if (row & 4) == 0 then
        if (row & 2) == 0 then
          if (row & 1) == 0 then 0x637c777bf26b6fc53001672bfed7ab76 else 0xca82c97dfa5947f0add4a2af9ca472c0
        else
          if (row & 1) == 0 then 0xb7fd9326363ff7cc34a5e5f171d83115 else 0x04c723c31896059a071280e2eb27b275
      else
        if (row & 2) == 0 then
          if (row & 1) == 0 then 0x09832c1a1b6e5aa0523bd6b329e32f84 else 0x53d100ed20fcb15b6acbbe394a4c58cf
        else
          if (row & 1) == 0 then 0xd0efaafb434d338545f9027f503c9fa8 else 0x51a3408f929d38f5bcb6da2110fff3d2
    else
      if (row & 4) == 0 then
        if (row & 2) == 0 then
          if (row & 1) == 0 then 0xcd0c13ec5f974417c4a77e3d645d1973 else 0x60814fdc222a908846eeb814de5e0bdb
        else
          if (row & 1) == 0 then 0xe0323a0a4906245cc2d3ac629195e479 else 0xe7c8376d8dd54ea96c56f4ea657aae08
      else
        if (row & 2) == 0 then
          if (row & 1) == 0 then 0xba78252e1ca6b4c6e8dd741f4bbd8b8a else 0x703eb5664803f60e613557b986c11d9e
        else
          if (row & 1) == 0 then 0xe1f8981169d98e949b1e87e9ce5528df else 0x8ca1890dbfe6426841992d0fb054bb16
  }

  function SBox(x: bv8): bv8 {
    Pick(SBoxRow(x >> 4), x)
  }

  function InvSBoxRow(row: bv8): bv128 {
    if (row & 8) == 0 then
      if (row & 4) == 0 then
        if (row & 2) == 0 then
          if (row & 1) == 0 then 0x52096ad53036a538bf40a39e81f3d7fb else 0x7ce339829b2fff87348e4344c4dee9cb
        else
          if (row & 1) == 0 then 0x547b9432a6c2233dee4c950b42fac34e else 0x082ea16628d924b2765ba2496d8bd125
      else
        if (row & 2) == 0 then
          if (row & 1) == 0 then 0x72f8f66486689816d4a45ccc5d65b692 else 0x6c704850fdedb9da5e154657a78d9d84
        else
          if (row & 1) == 0 then 0x90d8ab008cbcd30af7e45805b8b34506 else 0xd02c1e8fca3f0f02c1afbd0301138a6b
    else
      if (row & 4) == 0 then
        if (row & 2) == 0 then
          if (row & 1) == 0 then 0x3a9111414f67dcea97f2cfcef0b4e673 else 0x96ac7422e7ad3585e2f937e81c75df6e
        else
          if (row & 1) == 0 then 0x47f11a711d29c5896fb7620eaa18be1b else 0xfc563e4bc6d279209adbc0fe78cd5af4
      else
        if (row & 2) == 0 then
          if (row & 1) == 0 then 0x1fdda8338807c731b11210592780ec5f else 0x60517fa919b54a0d2de57a9f93c99cef
        else
          if (row & 1) == 0 then 0xa0e03b4dae2af5b0c8ebbb3c83539961 else 0x172b047eba77d626e169146355210c7d
  }

  function InvSBox(x: bv8): bv8 {
    Pick(InvSBoxRow(x >> 4), x)
  }

  lemma InvSBoxOfSBox(x: bv8)
    ensures InvSBox(SBox(x)) == x
  {
  }

  lemma SBoxOfInvSBox(x: bv8)
    ensures SBox(InvSBox(x)) == x
  {
  }

  /** The affine map of section 5.1.1, and its inverse. */
  function RotateLeft(b: bv8, n: bv8): bv8
    requires n < 8
  {
    (b << n) | (b >> (8 - n))
  }

  function Affine(b: bv8): bv8 {
    b ^ RotateLeft(b, 1) ^ RotateLeft(b, 2) ^ RotateLeft(b, 3) ^ RotateLeft(b, 4) ^ 0x63
  }

  function InvAffine(b: bv8): bv8 {
    RotateLeft(b, 1) ^ RotateLeft(b, 3) ^ RotateLeft(b, 6) ^ 0x05
  }

  lemma AffineBits(b: bv8)
    ensures Affine(b) == b ^ ((b << 1) | (b >> 7)) ^ ((b << 2) | (b >> 6)) ^ ((b << 3) | (b >> 5)) ^ ((b << 4) | (b >> 4)) ^ 0x63
  {
  }

  lemma AffineOfInvAffine(b: bv8)
    ensures Affine(InvAffine(b)) == b
  {
  }

  lemma SBoxInverts(x: bv8)
    requires x != 0
    ensures Mul(x, InvAffine(SBox(x))) == 1
  {
    hide Mul;
    MulUnrolled(x, InvAffine(SBox(x)));
  }

  lemma SBoxOfZero()
    ensures InvAffine(SBox(0)) == 0
  {
  }

  /** Every entry of the table is the affine map of the field inverse (section 5.1.1). */
  lemma SBoxIsAffineOfInverse(x: bv8)
    ensures exists y ::
      && (if x == 0 then y == 0 else Mul(x, y) == 1)
      && SBox(x) == y ^ ((y << 1) | (y >> 7)) ^ ((y << 2) | (y >> 6)) ^ ((y << 3) | (y >> 5)) ^ ((y << 4) | (y >> 4)) ^ 0x63
  {
    hide *;
    var y := InvAffine(SBox(x));
    if x != 0 {
      SBoxInverts(x);
    } else {
      SBoxOfZero();
    }
    AffineOfInvAffine(SBox(x));
    AffineBits(y);
    assert x == 0 || Mul(x, y) == 1;
  }
}
