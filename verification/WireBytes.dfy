/** Bytes, fixed-width words in either byte order, and UTF-8. */
module WireBytes {
  import opened Basics

  /** The machine's native order: the same on both sides of the bridge, but not fixed. */
  datatype Order = LittleEndian | BigEndian

  function Pow256(n: nat): (p: nat)
    ensures p > 0
  {
    if n == 0 then 1 else 0x100 * Pow256(n - 1)
  }

  /** The `w` low-order bytes of `n`, least significant first. */
  function LowBytes(n: nat, w: nat): (bs: Bytes)
    ensures |bs| == w
  {
    if w == 0 then [] else [n % 0x100] + LowBytes(n / 0x100, w - 1)
  }

  function NatOf(bs: Bytes): nat {
    if bs == [] then 0 else bs[0] + 0x100 * NatOf(bs[1..])
  }

  lemma {:induction false} NatOfLowBytes(n: nat, w: nat)
    ensures NatOf(LowBytes(n, w)) == n % Pow256(w)
  {
    if w > 0 {
      NatOfLowBytes(n / 0x100, w - 1);
      assert LowBytes(n, w)[1..] == LowBytes(n / 0x100, w - 1);
      ModSplit(n, Pow256(w - 1));
    }
  }

  lemma ModSplit(n: nat, p: nat)
    requires p > 0
    ensures n % (0x100 * p) == n % 0x100 + 0x100 * (n / 0x100 % p)
  {
    var q, r := n / 0x100 / p, n / 0x100 % p;
    assert n / 0x100 == q * p + r;
    assert n == q * (0x100 * p) + (0x100 * r + n % 0x100);
    assert r <= p - 1;
    DivModUnique(n, 0x100 * p, q, 0x100 * r + n % 0x100);
  }

  lemma DivModUnique(n: nat, d: nat, q: nat, r: nat)
    requires r < d && n == q * d + r
    ensures n % d == r
  {
    var q', r' := n / d, n % d;
    assert n == q' * d + r';
    assert (q - q') * d == q * d - q' * d == r' - r;
    if q != q' {
      LargeMultiple(q - q', d);
    }
  }

  lemma LargeMultiple(k: int, d: int)
    requires k != 0 && d > 0
    ensures k * d >= d || k * d <= -d
  {
    if k >= 1 {
      assert (k - 1) * d >= 0;
      assert k * d == (k - 1) * d + d;
    } else {
      assert (-k - 1) * d >= 0;
      assert k * d == -((-k - 1) * d) - d;
    }
  }

  lemma {:induction false} NatOfBound(bs: Bytes)
    ensures NatOf(bs) < Pow256(|bs|)
  {
    if bs != [] {
      NatOfBound(bs[1..]);
    }
  }

  function Reverse(bs: Bytes): (r: Bytes)
    ensures |r| == |bs|
    ensures forall k :: 0 <= k < |bs| ==> r[k] == bs[|bs| - 1 - k]
  {
    if bs == [] then [] else Reverse(bs[1..]) + [bs[0]]
  }

  function Ordered(order: Order, bs: Bytes): (r: Bytes)
    ensures |r| == |bs|
  {
    if order.LittleEndian? then bs else Reverse(bs)
  }

  lemma OrderedTwice(order: Order, bs: Bytes)
    ensures Ordered(order, Ordered(order, bs)) == bs
  {
  }

  // ----- integers of a given width, two's complement when signed -----

  predicate InRange(n: int, w: nat, signed: bool) {
    var p: int := Pow256(w);
    if signed then -p <= 2 * n < p else 0 <= n < p
  }

  /** The cast `as` to a type of this width: reduced modulo 2^(8w) into its range. */
  function Wrap(n: int, w: nat, signed: bool): int {
    var m := n % Pow256(w);
    if signed && 2 * m >= Pow256(w) then m - Pow256(w) else m
  }

  function WriteWord(order: Order, n: int, w: nat): (bs: Bytes)
    ensures |bs| == w
  {
    Ordered(order, LowBytes(n % Pow256(w), w))
  }

  function ReadWord(order: Order, bs: Bytes, signed: bool): int {
    Wrap(NatOf(Ordered(order, bs)), |bs|, signed)
  }

  /** Writing a number and reading it back is the cast to that width. */
  lemma WordRoundTrip(order: Order, n: int, w: nat, signed: bool)
    ensures ReadWord(order, WriteWord(order, n, w), signed) == Wrap(n, w, signed)
  {
    var m := n % Pow256(w);
    OrderedTwice(order, LowBytes(m, w));
    NatOfLowBytes(m, w);
    DivModUnique(m, Pow256(w), 0, m);
  }

  lemma WrapInRange(n: int, w: nat, signed: bool)
    requires w > 0
    ensures InRange(Wrap(n, w, signed), w, signed)
    ensures InRange(n, w, signed) ==> Wrap(n, w, signed) == n
  {
    var p := Pow256(w);
    assert p == 0x100 * Pow256(w - 1);
    if InRange(n, w, signed) {
      if n >= 0 {
        DivModUnique(n, p, 0, n);
      } else {
        ModOfNegative(n, p);
      }
    }
  }

  lemma ModOfNegative(n: int, p: int)
    requires -p <= n < 0
    ensures n % p == n + p
  {
    var q, r := n / p, n % p;
    assert n == q * p + r;
    assert (q + 1) * p == q * p + p == n + p - r;
    if q + 1 != 0 {
      LargeMultiple(q + 1, p);
    }
  }

  // ----- the bytes themselves -----

  lemma DivDiv(n: nat, p: nat)
    requires p > 0
    ensures n / 0x100 / p == n / (0x100 * p)
  {
    var q, r := n / 0x100 / p, n / 0x100 % p;
    assert n / 0x100 == q * p + r;
    assert n == q * (0x100 * p) + (0x100 * r + n % 0x100);
    QuotientUnique(n, 0x100 * p, q, 0x100 * r + n % 0x100);
  }

  lemma QuotientUnique(n: nat, d: nat, q: nat, r: nat)
    requires r < d && n == q * d + r
    ensures n / d == q
  {
    DivModUnique(n, d, q, r);
    var e := n / d - q;
    assert e * d == n / d * d - q * d == 0;
    if e != 0 {
      LargeMultiple(e, d);
    }
  }

  lemma {:induction false} LowByteAt(n: nat, w: nat, k: nat)
    requires k < w
    ensures LowBytes(n, w)[k] == n / Pow256(k) % 0x100
  {
    if k > 0 {
      LowByteAt(n / 0x100, w - 1, k - 1);
      DivDiv(n, Pow256(k - 1));
    }
  }

  /** The byte of weight 256^k stands at index `k` in little-endian order, and counted from the end in
      big-endian order. */
  lemma WordBytes(n: int, w: nat, k: nat)
    requires k < w
    ensures WriteWord(LittleEndian, n, w)[k] == n % Pow256(w) / Pow256(k) % 0x100
    ensures WriteWord(BigEndian, n, w)[w - 1 - k] == n % Pow256(w) / Pow256(k) % 0x100
  {
    LowByteAt(n % Pow256(w), w, k);
    hide LowBytes, Pow256;
  }

  lemma {:induction false} LowBytesOfNat(bs: Bytes)
    ensures LowBytes(NatOf(bs), |bs|) == bs
  {
    if bs != [] {
      LowBytesOfNat(bs[1..]);
      QuotientUnique(NatOf(bs), 0x100, NatOf(bs[1..]), bs[0]);
      DivModUnique(NatOf(bs), 0x100, NatOf(bs[1..]), bs[0]);
    }
  }

  /** The cast changes a number by a multiple of the modulus. */
  lemma WrapCongruent(n: int, w: nat, signed: bool)
    ensures Wrap(n, w, signed) % Pow256(w) == n % Pow256(w)
  {
    var p := Pow256(w);
    var m := n % p;
    DivModUnique(m, p, 0, m);
    if Wrap(n, w, signed) != m {
      ModOfNegative(m - p, p);
    }
  }

  /** The byte of weight 256^k. */
  function ByteOfWeight(order: Order, bs: Bytes, k: nat): Byte
    requires k < |bs|
  {
    if order.LittleEndian? then bs[k] else bs[|bs| - 1 - k]
  }

  /** Reading bytes gives the number of the type that is written as these bytes, so bytes of weight 256^k
      are read from where they are written. */
  lemma ReadWordBytes(order: Order, bs: Bytes, signed: bool)
    requires bs != []
    ensures InRange(ReadWord(order, bs, signed), |bs|, signed)
    ensures WriteWord(order, ReadWord(order, bs, signed), |bs|) == bs
    ensures forall k :: 0 <= k < |bs| ==>
              ByteOfWeight(order, bs, k) == ReadWord(order, bs, signed) % Pow256(|bs|) / Pow256(k) % 0x100
  {
    var w, n, v := |bs|, NatOf(Ordered(order, bs)), ReadWord(order, bs, signed);
    WrapInRange(n, w, signed);
    WrapCongruent(n, w, signed);
    NatOfBound(Ordered(order, bs));
    DivModUnique(n, Pow256(w), 0, n);
    LowBytesOfNat(Ordered(order, bs));
    OrderedTwice(order, bs);
    forall k | 0 <= k < w ensures ByteOfWeight(order, bs, k) == v % Pow256(w) / Pow256(k) % 0x100 {
      WordBytes(v, w, k);
    }
  }

  // ----- UTF-8, RFC 3629 -----

  predicate Tail(b: Byte) {
    0x80 <= b <= 0xBF
  }

  /** The length of the well-formed sequence that starts the bytes, or 0 (RFC 3629, section 4). */
  function CharLength(bs: Bytes): (n: nat)
    ensures n <= |bs|
  {
    if bs == [] then 0
    else if bs[0] <= 0x7F then 1
    else if 0xC2 <= bs[0] <= 0xDF && |bs| >= 2 && Tail(bs[1]) then 2
    else if 0xE0 <= bs[0] <= 0xEF && |bs| >= 3 && Tail(bs[1]) && Tail(bs[2])
            && (bs[0] == 0xE0 ==> 0xA0 <= bs[1]) && (bs[0] == 0xED ==> bs[1] <= 0x9F) then 3
    else if 0xF0 <= bs[0] <= 0xF4 && |bs| >= 4 && Tail(bs[1]) && Tail(bs[2]) && Tail(bs[3])
            && (bs[0] == 0xF0 ==> 0x90 <= bs[1]) && (bs[0] == 0xF4 ==> bs[1] <= 0x8F) then 4
    else 0
  }

  predicate ValidUtf8(bs: Bytes) {
    bs == [] || (var n := CharLength(bs); n > 0 && ValidUtf8(bs[n..]))
  }

  /** A Unicode scalar value: no surrogates. */
  predicate Scalar(c: int) {
    0 <= c < 0xD800 || 0xDFFF < c <= 0x10FFFF
  }

  /** The octets of one character (RFC 3629, section 3). */
  function EncodeChar(c: int): (bs: Bytes)
    requires Scalar(c)
  {
    if c <= 0x7F then [c]
    else if c <= 0x7FF then [0xC0 + c / 0x40, 0x80 + c % 0x40]
    else if c <= 0xFFFF then [0xE0 + c / 0x1000, 0x80 + c / 0x40 % 0x40, 0x80 + c % 0x40]
    else [0xF0 + c / 0x40000, 0x80 + c / 0x1000 % 0x40, 0x80 + c / 0x40 % 0x40, 0x80 + c % 0x40]
  }

  function EncodeChars(cs: seq<int>): Bytes
    requires forall k :: 0 <= k < |cs| ==> Scalar(cs[k])
  {
    if cs == [] then [] else EncodeChar(cs[0]) + EncodeChars(cs[1..])
  }

  /** The character in a well-formed sequence. */
  function DecodeChar(bs: Bytes): int
    requires CharLength(bs) > 0
  {
    var n := CharLength(bs);
    if n == 1 then bs[0]
    else if n == 2 then Join(0, 0, bs[0] as int - 0xC0, Bits(bs[1]))
    else if n == 3 then Join(0, bs[0] as int - 0xE0, Bits(bs[1]), Bits(bs[2]))
    else Join(bs[0] as int - 0xF0, Bits(bs[1]), Bits(bs[2]), Bits(bs[3]))
  }

  /** The payload of a continuation octet. */
  function Bits(b: Byte): (x: nat)
    ensures x < 0x40 && (Tail(b) ==> b == 0x80 + x)
  {
    b % 0x40
  }

  function Join(a: nat, x: nat, y: nat, z: nat): nat {
    a * 0x40000 + x * 0x1000 + y * 0x40 + z
  }

  lemma EncodeCharWellFormed(c: int, rest: Bytes)
    requires Scalar(c)
    ensures CharLength(EncodeChar(c) + rest) == |EncodeChar(c)|
  {
    var bs := EncodeChar(c);
    if 0x7FF < c <= 0xFFFF {
      assert bs[0] == 0xE0 ==> c < 0x1000;
      assert bs[0] == 0xED ==> 0xD000 <= c < 0xE000;
    } else if 0xFFFF < c {
      assert bs[0] == 0xF0 ==> c < 0x40000;
      assert bs[0] == 0xF4 ==> 0x100000 <= c;
    }
    LengthFromStart(bs, rest);
  }

  /** The length is decided by the sequence itself. */
  lemma LengthFromStart(bs: Bytes, rest: Bytes)
    requires CharLength(bs) == |bs| > 0
    ensures CharLength(bs + rest) == |bs|
  {
    assert forall k :: 0 <= k < |bs| ==> (bs + rest)[k] == bs[k];
  }

  /** Reading back the six-bit groups of a number. */
  lemma JoinGroups(a: nat, x: nat, y: nat, z: nat)
    requires x < 0x40 && y < 0x40 && z < 0x40
    ensures var c := Join(a, x, y, z);
            c / 0x40000 == a && c / 0x1000 == a * 0x40 + x && c / 0x1000 % 0x40 == x
            && c / 0x40 == a * 0x1000 + x * 0x40 + y && c / 0x40 % 0x40 == y && c % 0x40 == z
  {
  }

  lemma DecodeCharSound(bs: Bytes)
    requires CharLength(bs) > 0
    ensures Scalar(DecodeChar(bs)) && EncodeChar(DecodeChar(bs)) == bs[..CharLength(bs)]
  {
    var n := CharLength(bs);
    if n == 2 {
      TwoOctets(bs);
    } else if n == 3 {
      ThreeOctets(bs);
    } else if n == 4 {
      FourOctets(bs);
    }
  }

  lemma TwoOctets(bs: Bytes)
    requires CharLength(bs) == 2
    ensures Scalar(DecodeChar(bs)) && EncodeChar(DecodeChar(bs)) == bs[..2]
  {
    var y, z := bs[0] as int - 0xC0, Bits(bs[1]);
    JoinGroups(0, 0, y, z);
    assert 0x80 <= DecodeChar(bs) <= 0x7FF;
  }

  lemma ThreeOctets(bs: Bytes)
    requires CharLength(bs) == 3
    ensures Scalar(DecodeChar(bs)) && EncodeChar(DecodeChar(bs)) == bs[..3]
  {
    var x, y, z := bs[0] as int - 0xE0, Bits(bs[1]), Bits(bs[2]);
    JoinGroups(0, x, y, z);
    assert 0x800 <= DecodeChar(bs) <= 0xFFFF;
  }

  lemma FourOctets(bs: Bytes)
    requires CharLength(bs) == 4
    ensures Scalar(DecodeChar(bs)) && EncodeChar(DecodeChar(bs)) == bs[..4]
  {
    var a, x, y, z := bs[0] as int - 0xF0, Bits(bs[1]), Bits(bs[2]), Bits(bs[3]);
    JoinGroups(a, x, y, z);
    assert 0x10000 <= DecodeChar(bs) <= 0x10FFFF;
  }

  /** Validity by the byte ranges of section 4 is exactly being the encoding of some characters by
      the bit layout of section 3. */
  lemma {:induction false} EncodedIsValid(cs: seq<int>)
    requires forall k :: 0 <= k < |cs| ==> Scalar(cs[k])
    ensures ValidUtf8(EncodeChars(cs))
  {
    if cs != [] {
      EncodedIsValid(cs[1..]);
      EncodeCharWellFormed(cs[0], EncodeChars(cs[1..]));
      assert EncodeChars(cs)[|EncodeChar(cs[0])|..] == EncodeChars(cs[1..]);
    }
  }

  lemma {:induction false} ValidIsEncoded(bs: Bytes) returns (cs: seq<int>)
    requires ValidUtf8(bs)
    ensures forall k :: 0 <= k < |cs| ==> Scalar(cs[k])
    ensures EncodeChars(cs) == bs
  {
    if bs == [] {
      cs := [];
    } else {
      var n := CharLength(bs);
      var rest := ValidIsEncoded(bs[n..]);
      DecodeCharSound(bs);
      cs := [DecodeChar(bs)] + rest;
      assert cs[1..] == rest;
      assert bs == bs[..n] + bs[n..];
    }
  }

  /** The characters of section 7 of RFC 3629, and what its section 10 warns of: overlong forms, surrogates
      and characters beyond U+10FFFF are refused. */
  lemma Utf8Examples()
    ensures EncodeChar(0x41) == [0x41] && EncodeChar(0x391) == [0xCE, 0x91]
    ensures EncodeChar(0x2262) == [0xE2, 0x89, 0xA2] && EncodeChar(0x233B4) == [0xF0, 0xA3, 0x8E, 0xB4]
    ensures !ValidUtf8([0xC0, 0x80]) && !ValidUtf8([0xE0, 0x80, 0x80]) && !ValidUtf8([0xF0, 0x80, 0x80, 0x80])
    ensures !ValidUtf8([0xED, 0xA0, 0x80]) && !ValidUtf8([0xF4, 0x90, 0x80, 0x80]) && !ValidUtf8([0x80])
  {
  }
}
