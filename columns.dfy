// One column of the state under mixColumn and mixColumnInv of
// utils/pyAES.py: the column is multiplied by the circulant matrices with rows
// (2 3 1 1) and (14 11 13 9) over GF(2^8), and each undoes the other.

module Columns {
  import opened Bytes
  import opened Galois

  /**
   * Entry j of mixColumn's result, for p, q, r, s the entries j, j+1, j+2 and
   * j+3 (mod 4) of the column, in the order the source adds the products.
   */
  function MixEntry(p: Byte, q: Byte, r: Byte, s: Byte): Byte
  {
    FieldMul(p, 2) ^ FieldMul(s, 1) ^ FieldMul(r, 1) ^ FieldMul(q, 3)
  }

  /** Entry j of mixColumnInv's result, with p, q, r, s as for MixEntry. */
  function InvMixEntry(p: Byte, q: Byte, r: Byte, s: Byte): Byte
  {
    FieldMul(p, 14) ^ FieldMul(s, 9) ^ FieldMul(r, 13) ^ FieldMul(q, 11)
  }

  /** mixColumn on a column of four bytes. */
  function MixColumn(c: seq<Byte>): (r: seq<Byte>)
    requires |c| == 4
    ensures |r| == 4
  {
    [ MixEntry(c[0], c[1], c[2], c[3]), MixEntry(c[1], c[2], c[3], c[0]),
      MixEntry(c[2], c[3], c[0], c[1]), MixEntry(c[3], c[0], c[1], c[2]) ]
  }

  /** mixColumnInv on a column of four bytes. */
  function MixColumnInv(c: seq<Byte>): (r: seq<Byte>)
    requires |c| == 4
    ensures |r| == 4
  {
    [ InvMixEntry(c[0], c[1], c[2], c[3]), InvMixEntry(c[1], c[2], c[3], c[0]),
      InvMixEntry(c[2], c[3], c[0], c[1]), InvMixEntry(c[3], c[0], c[1], c[2]) ]
  }

  /** mixColumnInv undoes mixColumn. */
  lemma MixColumnInvMixColumn(c: seq<Byte>)
    requires |c| == 4
    ensures MixColumnInv(MixColumn(c)) == c
  {
    hide MixEntry;
    hide InvMixEntry;
    FourEntries(c);
    InvMixOfMixColumn(c[0], c[1], c[2], c[3]);
  }

  /** mixColumn undoes mixColumnInv. */
  lemma MixColumnMixColumnInv(c: seq<Byte>)
    requires |c| == 4
    ensures MixColumn(MixColumnInv(c)) == c
  {
    hide MixEntry;
    hide InvMixEntry;
    FourEntries(c);
    MixOfInvMixColumn(c[0], c[1], c[2], c[3]);
  }

  lemma InvMixOfMixColumn(a: Byte, b: Byte, c: Byte, d: Byte)
    ensures MixColumnInv(MixColumn([a, b, c, d])) == [a, b, c, d]
  {
    hide MixEntry;
    hide InvMixEntry;
    InvMixOfMixEntries(a, b, c, d);
    InvMixOfMixEntries(b, c, d, a);
    InvMixOfMixEntries(c, d, a, b);
    InvMixOfMixEntries(d, a, b, c);
  }

  lemma MixOfInvMixColumn(a: Byte, b: Byte, c: Byte, d: Byte)
    ensures MixColumn(MixColumnInv([a, b, c, d])) == [a, b, c, d]
  {
    hide MixEntry;
    hide InvMixEntry;
    MixOfInvMixEntries(a, b, c, d);
    MixOfInvMixEntries(b, c, d, a);
    MixOfInvMixEntries(c, d, a, b);
    MixOfInvMixEntries(d, a, b, c);
  }

  /** A column is the sequence of its four entries. */
  lemma FourEntries(c: seq<Byte>)
    requires |c| == 4
    ensures c == [c[0], c[1], c[2], c[3]]
  {
  }

  // The entry lemmas. Each product is rewritten as an XOR-and-shift term of
  // the column's own bytes (the FieldMulBy*Wired lemmas); the composition then becomes one
  // term that cancels to the input byte. The written-out terms sit in the
  // lemmas' postconditions only, and the lemma bodies instantiate the entry
  // facts for all arguments, so that every product is rewritten on whole
  // terms rather than on names standing for them.

  /** XOR of four bytes, kept as one application while a proof rewrites its arguments. */
  function Xor4(a: Byte, b: Byte, c: Byte, d: Byte): Byte
  {
    a ^ b ^ c ^ d
  }

  lemma MixEntryXor4(p: Byte, q: Byte, r: Byte, s: Byte)
    ensures MixEntry(p, q, r, s) == Xor4(FieldMul(p, 2), FieldMul(s, 1), FieldMul(r, 1), FieldMul(q, 3))
  {
  }

  lemma InvMixEntryXor4(p: Byte, q: Byte, r: Byte, s: Byte)
    ensures InvMixEntry(p, q, r, s) == Xor4(FieldMul(p, 14), FieldMul(s, 9), FieldMul(r, 13), FieldMul(q, 11))
  {
  }

  lemma MixEntryWired(p: Byte, q: Byte, r: Byte, s: Byte)
    ensures MixEntry(p, q, r, s) ==
      var p1 := (p << 1) ^ (p >> 7) ^ ((p >> 7) << 1) ^ ((p >> 7) << 3) ^ ((p >> 7) << 4);
      var q1 := (q << 1) ^ (q >> 7) ^ ((q >> 7) << 1) ^ ((q >> 7) << 3) ^ ((q >> 7) << 4);
      p1 ^ s ^ r ^ (q1 ^ q)
  {
    MixEntryXor4(p, q, r, s);
    FieldMulByTwoWired(p);
    FieldMulByOne(s);
    FieldMulByOne(r);
    FieldMulByThreeWired(q);
  }

  lemma InvMixEntryWired(p: Byte, q: Byte, r: Byte, s: Byte)
    ensures InvMixEntry(p, q, r, s) ==
      var p1 := (p << 1) ^ (p >> 7) ^ ((p >> 7) << 1) ^ ((p >> 7) << 3) ^ ((p >> 7) << 4);
      var p2 := (p1 << 1) ^ (p1 >> 7) ^ ((p1 >> 7) << 1) ^ ((p1 >> 7) << 3) ^ ((p1 >> 7) << 4);
      var p3 := (p2 << 1) ^ (p2 >> 7) ^ ((p2 >> 7) << 1) ^ ((p2 >> 7) << 3) ^ ((p2 >> 7) << 4);
      var q1 := (q << 1) ^ (q >> 7) ^ ((q >> 7) << 1) ^ ((q >> 7) << 3) ^ ((q >> 7) << 4);
      var q2 := (q1 << 1) ^ (q1 >> 7) ^ ((q1 >> 7) << 1) ^ ((q1 >> 7) << 3) ^ ((q1 >> 7) << 4);
      var q3 := (q2 << 1) ^ (q2 >> 7) ^ ((q2 >> 7) << 1) ^ ((q2 >> 7) << 3) ^ ((q2 >> 7) << 4);
      var r1 := (r << 1) ^ (r >> 7) ^ ((r >> 7) << 1) ^ ((r >> 7) << 3) ^ ((r >> 7) << 4);
      var r2 := (r1 << 1) ^ (r1 >> 7) ^ ((r1 >> 7) << 1) ^ ((r1 >> 7) << 3) ^ ((r1 >> 7) << 4);
      var r3 := (r2 << 1) ^ (r2 >> 7) ^ ((r2 >> 7) << 1) ^ ((r2 >> 7) << 3) ^ ((r2 >> 7) << 4);
      var s1 := (s << 1) ^ (s >> 7) ^ ((s >> 7) << 1) ^ ((s >> 7) << 3) ^ ((s >> 7) << 4);
      var s2 := (s1 << 1) ^ (s1 >> 7) ^ ((s1 >> 7) << 1) ^ ((s1 >> 7) << 3) ^ ((s1 >> 7) << 4);
      var s3 := (s2 << 1) ^ (s2 >> 7) ^ ((s2 >> 7) << 1) ^ ((s2 >> 7) << 3) ^ ((s2 >> 7) << 4);
      (p3 ^ p2 ^ p1) ^ (s3 ^ s) ^ (r3 ^ r2 ^ r) ^ (q3 ^ q1 ^ q)
  {
    InvMixEntryXor4(p, q, r, s);
    FieldMulByFourteenWired(p);
    FieldMulByNineWired(s);
    FieldMulByThirteenWired(r);
    FieldMulByElevenWired(q);
  }

  lemma MixEntriesWired(a: Byte, b: Byte, c: Byte, d: Byte)
    ensures InvMixEntry(MixEntry(a, b, c, d), MixEntry(b, c, d, a), MixEntry(c, d, a, b), MixEntry(d, a, b, c)) ==
      var a1 := (a << 1) ^ (a >> 7) ^ ((a >> 7) << 1) ^ ((a >> 7) << 3) ^ ((a >> 7) << 4);
      var b1 := (b << 1) ^ (b >> 7) ^ ((b >> 7) << 1) ^ ((b >> 7) << 3) ^ ((b >> 7) << 4);
      var c1 := (c << 1) ^ (c >> 7) ^ ((c >> 7) << 1) ^ ((c >> 7) << 3) ^ ((c >> 7) << 4);
      var d1 := (d << 1) ^ (d >> 7) ^ ((d >> 7) << 1) ^ ((d >> 7) << 3) ^ ((d >> 7) << 4);
      InvMixEntry(
        a1 ^ d ^ c ^ (b1 ^ b),
        b1 ^ a ^ d ^ (c1 ^ c),
        c1 ^ b ^ a ^ (d1 ^ d),
        d1 ^ c ^ b ^ (a1 ^ a))
  {
    hide MixEntry;
    hide InvMixEntry;
    forall p, q, r, s { MixEntryWired(p, q, r, s); }
  }

  lemma InvMixOfWired(a: Byte, b: Byte, c: Byte, d: Byte)
    ensures
      var a1 := (a << 1) ^ (a >> 7) ^ ((a >> 7) << 1) ^ ((a >> 7) << 3) ^ ((a >> 7) << 4);
      var b1 := (b << 1) ^ (b >> 7) ^ ((b >> 7) << 1) ^ ((b >> 7) << 3) ^ ((b >> 7) << 4);
      var c1 := (c << 1) ^ (c >> 7) ^ ((c >> 7) << 1) ^ ((c >> 7) << 3) ^ ((c >> 7) << 4);
      var d1 := (d << 1) ^ (d >> 7) ^ ((d >> 7) << 1) ^ ((d >> 7) << 3) ^ ((d >> 7) << 4);
      InvMixEntry(
        a1 ^ d ^ c ^ (b1 ^ b),
        b1 ^ a ^ d ^ (c1 ^ c),
        c1 ^ b ^ a ^ (d1 ^ d),
        d1 ^ c ^ b ^ (a1 ^ a)) == a
  {
    hide MixEntry;
    hide InvMixEntry;
    forall p, q, r, s { InvMixEntryWired(p, q, r, s); }
  }

  /** Entry j of mixColumnInv(mixColumn(c)) is c[j]. */
  lemma InvMixOfMixEntries(a: Byte, b: Byte, c: Byte, d: Byte)
    ensures InvMixEntry(MixEntry(a, b, c, d), MixEntry(b, c, d, a), MixEntry(c, d, a, b), MixEntry(d, a, b, c)) == a
  {
    hide MixEntry;
    hide InvMixEntry;
    MixEntriesWired(a, b, c, d);
    InvMixOfWired(a, b, c, d);
  }

  lemma InvEntriesWired(a: Byte, b: Byte, c: Byte, d: Byte)
    ensures MixEntry(InvMixEntry(a, b, c, d), InvMixEntry(b, c, d, a), InvMixEntry(c, d, a, b), InvMixEntry(d, a, b, c)) ==
      var a1 := (a << 1) ^ (a >> 7) ^ ((a >> 7) << 1) ^ ((a >> 7) << 3) ^ ((a >> 7) << 4);
      var a2 := (a1 << 1) ^ (a1 >> 7) ^ ((a1 >> 7) << 1) ^ ((a1 >> 7) << 3) ^ ((a1 >> 7) << 4);
      var a3 := (a2 << 1) ^ (a2 >> 7) ^ ((a2 >> 7) << 1) ^ ((a2 >> 7) << 3) ^ ((a2 >> 7) << 4);
      var b1 := (b << 1) ^ (b >> 7) ^ ((b >> 7) << 1) ^ ((b >> 7) << 3) ^ ((b >> 7) << 4);
      var b2 := (b1 << 1) ^ (b1 >> 7) ^ ((b1 >> 7) << 1) ^ ((b1 >> 7) << 3) ^ ((b1 >> 7) << 4);
      var b3 := (b2 << 1) ^ (b2 >> 7) ^ ((b2 >> 7) << 1) ^ ((b2 >> 7) << 3) ^ ((b2 >> 7) << 4);
      var c1 := (c << 1) ^ (c >> 7) ^ ((c >> 7) << 1) ^ ((c >> 7) << 3) ^ ((c >> 7) << 4);
      var c2 := (c1 << 1) ^ (c1 >> 7) ^ ((c1 >> 7) << 1) ^ ((c1 >> 7) << 3) ^ ((c1 >> 7) << 4);
      var c3 := (c2 << 1) ^ (c2 >> 7) ^ ((c2 >> 7) << 1) ^ ((c2 >> 7) << 3) ^ ((c2 >> 7) << 4);
      var d1 := (d << 1) ^ (d >> 7) ^ ((d >> 7) << 1) ^ ((d >> 7) << 3) ^ ((d >> 7) << 4);
      var d2 := (d1 << 1) ^ (d1 >> 7) ^ ((d1 >> 7) << 1) ^ ((d1 >> 7) << 3) ^ ((d1 >> 7) << 4);
      var d3 := (d2 << 1) ^ (d2 >> 7) ^ ((d2 >> 7) << 1) ^ ((d2 >> 7) << 3) ^ ((d2 >> 7) << 4);
      MixEntry(
        (a3 ^ a2 ^ a1) ^ (d3 ^ d) ^ (c3 ^ c2 ^ c) ^ (b3 ^ b1 ^ b),
        (b3 ^ b2 ^ b1) ^ (a3 ^ a) ^ (d3 ^ d2 ^ d) ^ (c3 ^ c1 ^ c),
        (c3 ^ c2 ^ c1) ^ (b3 ^ b) ^ (a3 ^ a2 ^ a) ^ (d3 ^ d1 ^ d),
        (d3 ^ d2 ^ d1) ^ (c3 ^ c) ^ (b3 ^ b2 ^ b) ^ (a3 ^ a1 ^ a))
  {
    hide MixEntry;
    hide InvMixEntry;
    forall p, q, r, s { InvMixEntryWired(p, q, r, s); }
  }

  lemma MixOfWired(a: Byte, b: Byte, c: Byte, d: Byte)
    ensures
      var a1 := (a << 1) ^ (a >> 7) ^ ((a >> 7) << 1) ^ ((a >> 7) << 3) ^ ((a >> 7) << 4);
      var a2 := (a1 << 1) ^ (a1 >> 7) ^ ((a1 >> 7) << 1) ^ ((a1 >> 7) << 3) ^ ((a1 >> 7) << 4);
      var a3 := (a2 << 1) ^ (a2 >> 7) ^ ((a2 >> 7) << 1) ^ ((a2 >> 7) << 3) ^ ((a2 >> 7) << 4);
      var b1 := (b << 1) ^ (b >> 7) ^ ((b >> 7) << 1) ^ ((b >> 7) << 3) ^ ((b >> 7) << 4);
      var b2 := (b1 << 1) ^ (b1 >> 7) ^ ((b1 >> 7) << 1) ^ ((b1 >> 7) << 3) ^ ((b1 >> 7) << 4);
      var b3 := (b2 << 1) ^ (b2 >> 7) ^ ((b2 >> 7) << 1) ^ ((b2 >> 7) << 3) ^ ((b2 >> 7) << 4);
      var c1 := (c << 1) ^ (c >> 7) ^ ((c >> 7) << 1) ^ ((c >> 7) << 3) ^ ((c >> 7) << 4);
      var c2 := (c1 << 1) ^ (c1 >> 7) ^ ((c1 >> 7) << 1) ^ ((c1 >> 7) << 3) ^ ((c1 >> 7) << 4);
      var c3 := (c2 << 1) ^ (c2 >> 7) ^ ((c2 >> 7) << 1) ^ ((c2 >> 7) << 3) ^ ((c2 >> 7) << 4);
      var d1 := (d << 1) ^ (d >> 7) ^ ((d >> 7) << 1) ^ ((d >> 7) << 3) ^ ((d >> 7) << 4);
      var d2 := (d1 << 1) ^ (d1 >> 7) ^ ((d1 >> 7) << 1) ^ ((d1 >> 7) << 3) ^ ((d1 >> 7) << 4);
      var d3 := (d2 << 1) ^ (d2 >> 7) ^ ((d2 >> 7) << 1) ^ ((d2 >> 7) << 3) ^ ((d2 >> 7) << 4);
      MixEntry(
        (a3 ^ a2 ^ a1) ^ (d3 ^ d) ^ (c3 ^ c2 ^ c) ^ (b3 ^ b1 ^ b),
        (b3 ^ b2 ^ b1) ^ (a3 ^ a) ^ (d3 ^ d2 ^ d) ^ (c3 ^ c1 ^ c),
        (c3 ^ c2 ^ c1) ^ (b3 ^ b) ^ (a3 ^ a2 ^ a) ^ (d3 ^ d1 ^ d),
        (d3 ^ d2 ^ d1) ^ (c3 ^ c) ^ (b3 ^ b2 ^ b) ^ (a3 ^ a1 ^ a)) == a
  {
    hide MixEntry;
    hide InvMixEntry;
    forall p, q, r, s { MixEntryWired(p, q, r, s); }
  }

  /** Entry j of mixColumn(mixColumnInv(c)) is c[j]. */
  lemma MixOfInvMixEntries(a: Byte, b: Byte, c: Byte, d: Byte)
    ensures MixEntry(InvMixEntry(a, b, c, d), InvMixEntry(b, c, d, a), InvMixEntry(c, d, a, b), InvMixEntry(d, a, b, c)) == a
  {
    hide MixEntry;
    hide InvMixEntry;
    InvEntriesWired(a, b, c, d);
    MixOfWired(a, b, c, d);
  }
}
