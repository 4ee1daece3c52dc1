/** The serialization-based wire codec (rust/src/frb_generated.rs:1327-1883, 2313-2753). The source
    has one generated encoder and decoder per type, all built from the same few shapes; a `Schema`
    is such a type, and the codec is defined once for all of them. */
module SseCodec {
  import opened Basics
  import opened WireBytes

  /** The list and string length limit: lengths travel as `i32`. */
  const LENGTH_LIMIT: nat := 0x8000_0000

  datatype Schema =
    | Word(width: nat, signed: bool)  // u8, u16, u32, u64, usize, i32, i64; f64 as its bit pattern
    | Bool
    | Str
    | Variant(count: nat)             // a field-less enum, as an i32
    | Opt(elem: Schema)
    | List(elem: Schema)
    | Record(fields: seq<Schema>)     // tuples and structs

  /** Words are not empty and enums are small enough for an `i32`. */
  predicate WellFormed(s: Schema)
    decreases s, 0
  {
    match s
    case Word(w, _) => 0 < w
    case Variant(n) => n <= LENGTH_LIMIT
    case Opt(e) => WellFormed(e)
    case List(e) => WellFormed(e)
    case Record(ss) => AllWellFormed(ss)
    case _ => true
  }

  predicate AllWellFormed(ss: seq<Schema>)
    decreases ss, 0
  {
    ss == [] || (WellFormed(ss[0]) && AllWellFormed(ss[1..]))
  }

  datatype Value =
    | Num(n: int)
    | Flag(b: bool)
    | Text(bytes: Bytes)
    | Tag(index: nat)
    | Absent
    | Present(value: Value)
    | Items(items: seq<Value>)
    | Fields(fields: seq<Value>)

  /** The value belongs to the type. Every Rust `String` is valid UTF-8. */
  predicate Conforms(s: Schema, v: Value)
    decreases s, 0, 0
  {
    match s
    case Word(w, signed) => v.Num? && InRange(v.n, w, signed)
    case Bool => v.Flag?
    case Str => v.Text? && ValidUtf8(v.bytes)
    case Variant(n) => v.Tag? && v.index < n
    case Opt(e) => v.Absent? || (v.Present? && Conforms(e, v.value))
    case List(e) => v.Items? && ItemsConform(e, v.items)
    case Record(ss) => v.Fields? && FieldsConform(ss, v.fields)
  }

  predicate ItemsConform(e: Schema, xs: seq<Value>)
    decreases e, 1, |xs|
  {
    xs == [] || (Conforms(e, xs[0]) && ItemsConform(e, xs[1..]))
  }

  predicate FieldsConform(ss: seq<Schema>, xs: seq<Value>)
    decreases ss, 1, 0
  {
    |ss| == |xs| && (ss == [] || (Conforms(ss[0], xs[0]) && FieldsConform(ss[1..], xs[1..])))
  }

  /** Every string and list in the value is short enough for its length to survive the cast. */
  predicate Fits(v: Value)
    decreases v, 0
  {
    match v
    case Text(bs) => |bs| < LENGTH_LIMIT
    case Present(x) => Fits(x)
    case Items(xs) => |xs| < LENGTH_LIMIT && AllFit(xs)
    case Fields(xs) => AllFit(xs)
    case _ => true
  }

  predicate AllFit(xs: seq<Value>)
    decreases xs, 0
  {
    xs == [] || (Fits(xs[0]) && AllFit(xs[1..]))
  }

  // ----- the printer -----

  function EncodeLength(order: Order, n: nat): (bs: Bytes)
    ensures |bs| == 4
  {
    WriteWord(order, n, 4)
  }

  function EncodeString(order: Order, bs: Bytes): Bytes {
    EncodeLength(order, |bs|) + bs
  }

  function Encode(order: Order, s: Schema, v: Value): Bytes
    requires Conforms(s, v)
    decreases s, 0, 0
  {
    match s
    case Word(w, _) => WriteWord(order, v.n, w)
    case Bool => [if v.b then 1 else 0]
    case Str => EncodeString(order, v.bytes)
    case Variant(_) => WriteWord(order, v.index, 4)
    case Opt(e) => if v.Absent? then [0] else [1] + Encode(order, e, v.value)
    case List(e) => EncodeLength(order, |v.items|) + EncodeItems(order, e, v.items)
    case Record(ss) => EncodeFields(order, ss, v.fields)
  }

  function EncodeItems(order: Order, e: Schema, xs: seq<Value>): Bytes
    requires ItemsConform(e, xs)
    decreases e, 1, |xs|
  {
    if xs == [] then [] else Encode(order, e, xs[0]) + EncodeItems(order, e, xs[1..])
  }

  function EncodeFields(order: Order, ss: seq<Schema>, xs: seq<Value>): Bytes
    requires FieldsConform(ss, xs)
    decreases ss, 1, 0
  {
    if ss == [] then [] else Encode(order, ss[0], xs[0]) + EncodeFields(order, ss[1..], xs[1..])
  }

  // ----- the parser -----

  /** A failed `unwrap` or an unreachable variant panics. */
  datatype Parsed<+T> = Panic | Done(value: T, rest: Bytes) {
    predicate IsFailure() { Panic? }
    function PropagateFailure<U>(): Parsed<U>
      requires Panic?
    {
      Panic
    }
    function Extract(): (T, Bytes)
      requires Done?
    {
      (value, rest)
    }
  }

  function ParseBytes(n: nat, input: Bytes): (r: Parsed<Bytes>)
  {
    if |input| < n then Panic else Done(input[..n], input[n..])
  }

  function ParseWord(order: Order, w: nat, signed: bool, input: Bytes): (r: Parsed<int>)
  {
    var (bs, rest) :- ParseBytes(w, input);
    Done(ReadWord(order, bs, signed), rest)
  }

  /** `0..len_` is empty for a negative length. */
  function LoopCount(len: int): nat {
    if len < 0 then 0 else len
  }

  function ParseLength(order: Order, input: Bytes): Parsed<nat> {
    var (len, rest) :- ParseWord(order, 4, true, input);
    Done(LoopCount(len), rest)
  }

  function ParseString(order: Order, input: Bytes): Parsed<Bytes> {
    var (len, rest) :- ParseLength(order, input);
    ParseText(len, rest)
  }

  function ParseText(len: nat, input: Bytes): Parsed<Bytes> {
    var (bs, rest) :- ParseBytes(len, input);
    if ValidUtf8(bs) then Done(bs, rest) else Panic
  }

  function Parse(order: Order, s: Schema, input: Bytes): (r: Parsed<Value>)
    decreases s, 0, 0
  {
    match s
    case Word(w, signed) =>
      var (n, rest) :- ParseWord(order, w, signed, input);
      Done(Num(n), rest)
    case Bool =>
      var (b, rest) :- ParseBytes(1, input);
      Done(Flag(b[0] != 0), rest)
    case Str =>
      var (bs, rest) :- ParseString(order, input);
      Done(Text(bs), rest)
    case Variant(n) =>
      var (tag, rest) :- ParseWord(order, 4, true, input);
      if 0 <= tag < n then Done(Tag(tag), rest) else Panic
    case Opt(e) =>
      var (b, rest) :- ParseBytes(1, input);
      if b[0] == 0 then Done(Absent, rest) else
        var (v, rest2) :- Parse(order, e, rest);
        Done(Present(v), rest2)
    case List(e) =>
      var (len, rest) :- ParseLength(order, input);
      var (vs, rest2) :- ParseItems(order, e, len, rest);
      Done(Items(vs), rest2)
    case Record(ss) =>
      var (vs, rest) :- ParseFields(order, ss, input);
      Done(Fields(vs), rest)
  }

  function ParseItems(order: Order, e: Schema, n: nat, input: Bytes): (r: Parsed<seq<Value>>)
    decreases e, 1, n
  {
    if n == 0 then Done([], input) else
      var (v, rest) :- Parse(order, e, input);
      var (vs, rest2) :- ParseItems(order, e, n - 1, rest);
      Done([v] + vs, rest2)
  }

  function ParseFields(order: Order, ss: seq<Schema>, input: Bytes): (r: Parsed<seq<Value>>)
    decreases ss, 1, 0
  {
    if ss == [] then Done([], input) else
      var (v, rest) :- Parse(order, ss[0], input);
      var (vs, rest2) :- ParseFields(order, ss[1..], rest);
      Done([v] + vs, rest2)
  }

  // ----- round trip -----

  /** Decoding gives the value back, and leaves exactly the trailing bytes. */
  ghost predicate Returns<T>(r: Parsed<T>, v: T, rest: Bytes) {
    r == Done(v, rest)
  }

  /** Decoding does not give the value back, whatever it leaves. */
  ghost predicate Loses<T>(r: Parsed<T>, v: T) {
    r.Done? ==> r.value != v
  }

  lemma WordBack(order: Order, n: int, w: nat, signed: bool, rest: Bytes)
    ensures ParseWord(order, w, signed, WriteWord(order, n, w) + rest) == Done(Wrap(n, w, signed), rest)
  {
    var bs := WriteWord(order, n, w);
    assert (bs + rest)[..w] == bs && (bs + rest)[w..] == rest;
    WordRoundTrip(order, n, w, signed);
  }

  /** A length survives the cast to `i32` and the loop from zero exactly below 2^31. */
  lemma LengthBack(order: Order, n: nat, rest: Bytes)
    ensures var r := ParseLength(order, EncodeLength(order, n) + rest);
            r.Done? && r.rest == rest && (r.value == n <==> n < LENGTH_LIMIT)
  {
    WordBack(order, n, 4, true, rest);
    Pow256Of4();
    WrapInRange(n, 4, true);
  }

  lemma Pow256Of4()
    ensures Pow256(4) == 0x1_0000_0000
  {
    assert Pow256(2) == 0x10000;
    assert Pow256(3) == 0x1000000;
  }

  /** The exact round trip, for every type: with any trailing bytes, decoding an encoded value gives
      it back and leaves those bytes if all its lengths are below 2^31, and never gives it back
      otherwise. */
  lemma RoundTrip(order: Order, s: Schema, v: Value, rest: Bytes)
    requires WellFormed(s) && Conforms(s, v)
    ensures var r := Parse(order, s, Encode(order, s, v) + rest);
            if Fits(v) then Returns(r, v, rest) else Loses(r, v)
  {
    ParseEncoded(order, s, v, rest, Encode(order, s, v) + rest);
  }

  lemma {:induction false} ParseEncoded(order: Order, s: Schema, v: Value, rest: Bytes, input: Bytes)
    requires WellFormed(s) && Conforms(s, v) && input == Encode(order, s, v) + rest
    ensures var r := Parse(order, s, input);
            if Fits(v) then Returns(r, v, rest) else Loses(r, v)
    decreases s, 0, 0
  {
    hide WriteWord, ParseWord, ParseLength, ParseString, EncodeLength, InRange, ValidUtf8;
    hide ParseItems, ParseFields, EncodeItems, EncodeFields, ItemsConform, FieldsConform, AllFit, AllWellFormed;
    match s
    case Word(w, signed) => ParseEncodedWord(order, v.n, w, signed, rest, input);
    case Bool => assert input[1..] == rest;
    case Str =>
      assert input == EncodeLength(order, |v.bytes|) + (v.bytes + rest);
      ParseEncodedString(order, v.bytes, rest, input);
    case Variant(_) =>
      TagInRange(v.index);
      ParseEncodedWord(order, v.index, 4, true, rest, input);
    case Opt(e) =>
      if v.Present? {
        assert input[1..] == Encode(order, e, v.value) + rest;
        ParseEncoded(order, e, v.value, rest, input[1..]);
      } else {
        assert input[1..] == rest;
      }
    case List(e) =>
      var body := EncodeItems(order, e, v.items) + rest;
      assert input == EncodeLength(order, |v.items|) + body;
      LengthBack(order, |v.items|, body);
      ItemsLength(order, e, ParseLength(order, input).value, body);
      ParseEncodedItems(order, e, v.items, rest, body);
    case Record(ss) => ParseEncodedFields(order, ss, v.fields, rest, input);
  }

  lemma ParseEncodedWord(order: Order, n: int, w: nat, signed: bool, rest: Bytes, input: Bytes)
    requires 0 < w && InRange(n, w, signed) && input == WriteWord(order, n, w) + rest
    ensures ParseWord(order, w, signed, input) == Done(n, rest)
  {
    WordBack(order, n, w, signed, rest);
    WrapInRange(n, w, signed);
  }

  lemma TagInRange(index: nat)
    requires index < LENGTH_LIMIT
    ensures InRange(index, 4, true)
  {
    Pow256Of4();
  }

  lemma ParseEncodedString(order: Order, bs: Bytes, rest: Bytes, input: Bytes)
    requires ValidUtf8(bs) && input == EncodeLength(order, |bs|) + (bs + rest)
    ensures var r := ParseString(order, input);
            if |bs| < LENGTH_LIMIT then Returns(r, bs, rest) else Loses(r, bs)
  {
    LengthBack(order, |bs|, bs + rest);
    ParseEncodedText(bs, rest, ParseLength(order, input).value);
  }

  lemma ParseEncodedText(bs: Bytes, rest: Bytes, len: nat)
    requires ValidUtf8(bs)
    ensures var r := ParseText(len, bs + rest);
            if len == |bs| then Returns(r, bs, rest) else Loses(r, bs)
  {
    if len == |bs| {
      assert (bs + rest)[..len] == bs && (bs + rest)[len..] == rest;
    }
  }

  lemma {:induction false} ParseEncodedItems(order: Order, e: Schema, xs: seq<Value>, rest: Bytes, input: Bytes)
    requires WellFormed(e) && ItemsConform(e, xs) && input == EncodeItems(order, e, xs) + rest
    ensures var r := ParseItems(order, e, |xs|, input);
            if AllFit(xs) then Returns(r, xs, rest) else Loses(r, xs)
    decreases e, 1, |xs|
  {
    hide Parse, Encode, Conforms, Fits, WellFormed;
    if xs == [] {
      assert input == rest;
    } else {
      var after := EncodeItems(order, e, xs[1..]) + rest;
      assert input == Encode(order, e, xs[0]) + after;
      ParseEncoded(order, e, xs[0], after, input);
      if Fits(xs[0]) {
        ParseEncodedItems(order, e, xs[1..], rest, after);
        assert xs == [xs[0]] + xs[1..];
      }
    }
  }

  lemma {:induction false} ItemsLength(order: Order, e: Schema, n: nat, input: Bytes)
    ensures var r := ParseItems(order, e, n, input); r.Done? ==> |r.value| == n
  {
    if n > 0 && Parse(order, e, input).Done? {
      ItemsLength(order, e, n - 1, Parse(order, e, input).rest);
    }
  }

  lemma {:induction false} ParseEncodedFields(order: Order, ss: seq<Schema>, xs: seq<Value>, rest: Bytes, input: Bytes)
    requires AllWellFormed(ss) && FieldsConform(ss, xs) && input == EncodeFields(order, ss, xs) + rest
    ensures var r := ParseFields(order, ss, input);
            if AllFit(xs) then Returns(r, xs, rest) else Loses(r, xs)
    decreases ss, 1, 0
  {
    hide Parse, Encode, Conforms, Fits, WellFormed;
    if ss == [] {
      assert input == rest;
    } else {
      var after := EncodeFields(order, ss[1..], xs[1..]) + rest;
      assert input == Encode(order, ss[0], xs[0]) + after;
      ParseEncoded(order, ss[0], xs[0], after, input);
      if Fits(xs[0]) {
        ParseEncodedFields(order, ss[1..], xs[1..], rest, after);
        assert xs == [xs[0]] + xs[1..];
      }
    }
  }

  /** The list codec's exact limit: a list of elements that round-trip comes back if and only if it
      has fewer than 2^31 of them. */
  lemma ListLimit(order: Order, e: Schema, xs: seq<Value>, rest: Bytes)
    requires WellFormed(e) && ItemsConform(e, xs) && AllFit(xs)
    ensures Parse(order, List(e), Encode(order, List(e), Items(xs)) + rest) == Done(Items(xs), rest)
            <==> |xs| < LENGTH_LIMIT
  {
    RoundTrip(order, List(e), Items(xs), rest);
  }

  /** Two encodings followed by anything are the same bytes only for the same value and the same
      continuation; in particular no encoding is a proper prefix of another. */
  lemma PrefixFree(order: Order, s: Schema, v: Value, w: Value, x: Bytes, y: Bytes)
    requires WellFormed(s) && Conforms(s, v) && Conforms(s, w) && Fits(v) && Fits(w)
    requires Encode(order, s, v) + x == Encode(order, s, w) + y
    ensures v == w && x == y
  {
    RoundTrip(order, s, v, x);
    RoundTrip(order, s, w, y);
  }

  /** Whatever bytes are decoded, the result is a value of the type that encodes again. */
  lemma {:induction false} ParsedConforms(order: Order, s: Schema, input: Bytes)
    requires WellFormed(s)
    ensures var r := Parse(order, s, input); r.Done? ==> Conforms(s, r.value) && Fits(r.value)
    decreases s, 0, 0
  {
    if Parse(order, s, input).Done? {
      match s
      case Word(w, signed) =>
        WrapInRange(NatOf(Ordered(order, input[..w])), w, signed);
      case Str => LengthBound(order, input);
      case Opt(e) => ParsedConforms(order, e, input[1..]);
      case List(e) =>
        LengthBound(order, input);
        ParsedItemsConform(order, e, ParseLength(order, input).value, input[4..]);
      case Record(ss) => ParsedFieldsConform(order, ss, input);
      case _ =>
    }
  }

  lemma LengthBound(order: Order, input: Bytes)
    requires |input| >= 4
    ensures var r := ParseLength(order, input); r.Done? && r.value < LENGTH_LIMIT && r.rest == input[4..]
  {
    Pow256Of4();
    WrapInRange(NatOf(Ordered(order, input[..4])), 4, true);
  }

  lemma {:induction false} ParsedItemsConform(order: Order, e: Schema, n: nat, input: Bytes)
    requires WellFormed(e)
    ensures var r := ParseItems(order, e, n, input);
            r.Done? ==> |r.value| == n && ItemsConform(e, r.value) && AllFit(r.value)
    decreases e, 1, n
  {
    if n > 0 && Parse(order, e, input).Done? {
      ParsedConforms(order, e, input);
      ParsedItemsConform(order, e, n - 1, Parse(order, e, input).rest);
    }
  }

  lemma {:induction false} ParsedFieldsConform(order: Order, ss: seq<Schema>, input: Bytes)
    requires AllWellFormed(ss)
    ensures var r := ParseFields(order, ss, input);
            r.Done? ==> FieldsConform(ss, r.value) && AllFit(r.value)
    decreases ss, 1, 0
  {
    if ss != [] && Parse(order, ss[0], input).Done? {
      ParsedConforms(order, ss[0], input);
      ParsedFieldsConform(order, ss[1..], Parse(order, ss[0], input).rest);
    }
  }

  // ----- the format on the wire, which the Dart side has to agree with -----

  lemma {:induction false} FieldsByIndex(ss: seq<Schema>, xs: seq<Value>)
    ensures FieldsConform(ss, xs) <==> |ss| == |xs| && forall k :: 0 <= k < |ss| ==> Conforms(ss[k], xs[k])
  {
    hide Conforms;
    if ss != [] && |ss| == |xs| {
      FieldsByIndex(ss[1..], xs[1..]);
      assert forall k :: 0 < k < |ss| ==> ss[k] == ss[1..][k - 1] && xs[k] == xs[1..][k - 1];
    }
  }

  lemma {:induction false} ItemsByIndex(e: Schema, xs: seq<Value>)
    ensures ItemsConform(e, xs) <==> forall k :: 0 <= k < |xs| ==> Conforms(e, xs[k])
  {
    hide Conforms;
    if xs != [] {
      ItemsByIndex(e, xs[1..]);
      assert forall k :: 0 < k < |xs| ==> xs[k] == xs[1..][k - 1];
    }
  }

  /** All the parts, one after another. */
  function Joined(parts: seq<Bytes>): Bytes {
    if parts == [] then [] else parts[0] + Joined(parts[1..])
  }

  /** A word is its bytes, an enum the four bytes of its index. */
  lemma WordFormat(order: Order, n: int, w: nat, signed: bool, index: nat, count: nat)
    requires InRange(n, w, signed) && index < count
    ensures Encode(order, Word(w, signed), Num(n)) == WriteWord(order, n, w)
    ensures Encode(order, Variant(count), Tag(index)) == WriteWord(order, index, 4)
  {
  }

  /** A truth value is the byte 1 or 0; every byte but 0 is read as true. */
  lemma BoolFormat(order: Order, b: Byte, rest: Bytes)
    ensures Encode(order, Bool, Flag(true)) == [1] && Encode(order, Bool, Flag(false)) == [0]
    ensures Parse(order, Bool, [b] + rest) == Done(Flag(b != 0), rest)
  {
    assert ([b] + rest)[1..] == rest;
  }

  /** An absent value is the byte 0, a present one the byte 1 and the value; every byte but 0 is read as
      announcing a value. */
  lemma OptFormat(order: Order, e: Schema, v: Value, b: Byte, rest: Bytes)
    requires Conforms(e, v)
    ensures Encode(order, Opt(e), Absent) == [0]
    ensures Encode(order, Opt(e), Present(v)) == [1] + Encode(order, e, v)
    ensures var p := Parse(order, e, rest);
            Parse(order, Opt(e), [b] + rest) ==
            if b == 0 then Done(Absent, rest) else if p.Panic? then Panic else Done(Present(p.value), p.rest)
  {
    assert ([b] + rest)[1..] == rest;
  }

  /** A string is its length in four bytes and its own bytes. Any four bytes are read as a signed length, of
      which nothing is left if it is negative; too few bytes after it, or bytes that are not UTF-8, panic. */
  lemma StringFormat(order: Order, bs: Bytes, head: Bytes, rest: Bytes)
    requires ValidUtf8(bs) && |head| == 4
    ensures Encode(order, Str, Text(bs)) == WriteWord(order, |bs|, 4) + bs
    ensures var len := ReadWord(order, head, true);
            Parse(order, Str, head + rest) ==
            if len <= 0 then Done(Text([]), rest)
            else if len > |rest| || !ValidUtf8(rest[..len]) then Panic
            else Done(Text(rest[..len]), rest[len..])
  {
    assert (head + rest)[..4] == head && (head + rest)[4..] == rest;
  }

  /** A list is its length in four bytes and its elements in order. */
  lemma ListFormat(order: Order, e: Schema, xs: seq<Value>, parts: seq<Bytes>)
    requires |parts| == |xs|
    requires forall k :: 0 <= k < |xs| ==> Conforms(e, xs[k]) && parts[k] == Encode(order, e, xs[k])
    ensures Conforms(List(e), Items(xs))
    ensures Encode(order, List(e), Items(xs)) == WriteWord(order, |xs|, 4) + Joined(parts)
  {
    ItemsByIndex(e, xs);
    ItemsJoined(order, e, xs, parts);
  }

  /** Read, a list has as many elements as any four bytes say, none if they say a negative number. */
  lemma ListCount(order: Order, e: Schema, head: Bytes, rest: Bytes)
    requires |head| == 4
    ensures var len, p := ReadWord(order, head, true), Parse(order, List(e), head + rest);
            && (len <= 0 ==> p == Done(Items([]), rest))
            && (len > 0 && p.Done? ==> p.value.Items? && |p.value.items| == len)
  {
    assert (head + rest)[..4] == head && (head + rest)[4..] == rest;
    ItemsLength(order, e, LoopCount(ReadWord(order, head, true)), rest);
  }

  lemma {:induction false} ItemsJoined(order: Order, e: Schema, xs: seq<Value>, parts: seq<Bytes>)
    requires |parts| == |xs| && ItemsConform(e, xs)
    requires forall k :: 0 <= k < |xs| ==> Conforms(e, xs[k]) && parts[k] == Encode(order, e, xs[k])
    ensures EncodeItems(order, e, xs) == Joined(parts)
  {
    hide Conforms, Encode;
    if xs != [] {
      assert forall k :: 0 <= k < |xs[1..]| ==> xs[1..][k] == xs[k + 1] && parts[1..][k] == parts[k + 1];
      ItemsJoined(order, e, xs[1..], parts[1..]);
    }
  }

  /** A record is its fields in order. */
  lemma {:induction false} RecordFormat(order: Order, ss: seq<Schema>, xs: seq<Value>, parts: seq<Bytes>)
    requires |parts| == |xs| == |ss|
    requires forall k :: 0 <= k < |ss| ==> Conforms(ss[k], xs[k]) && parts[k] == Encode(order, ss[k], xs[k])
    ensures Conforms(Record(ss), Fields(xs))
    ensures Encode(order, Record(ss), Fields(xs)) == Joined(parts)
  {
    FieldsByIndex(ss, xs);
    FieldsJoined(order, ss, xs, parts);
  }

  lemma {:induction false} FieldsJoined(order: Order, ss: seq<Schema>, xs: seq<Value>, parts: seq<Bytes>)
    requires |parts| == |xs| == |ss| && FieldsConform(ss, xs)
    requires forall k :: 0 <= k < |ss| ==> Conforms(ss[k], xs[k]) && parts[k] == Encode(order, ss[k], xs[k])
    ensures EncodeFields(order, ss, xs) == Joined(parts)
  {
    hide Conforms, Encode;
    if ss != [] {
      assert forall k :: 0 <= k < |ss[1..]| ==>
               ss[1..][k] == ss[k + 1] && xs[1..][k] == xs[k + 1] && parts[1..][k] == parts[k + 1];
      FieldsJoined(order, ss[1..], xs[1..], parts[1..]);
    }
  }
}
