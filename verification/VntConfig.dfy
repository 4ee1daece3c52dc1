/** The network configuration that crosses the bridge and its 28-field layout
    (rust/src/frb_generated.rs:1821-1883, 2720-2753; rust/src/api/vnt_api.rs:81-110). */
module VntConfig {
  import opened Basics
  import opened WireBytes
  import opened SseCodec
  import opened SseCursor

  type U16 = n: int | 0 <= n < 0x1_0000
  type U32 = n: int | 0 <= n < 0x1_0000_0000
  type U64 = n: int | 0 <= n < 0x1_0000_0000_0000_0000
  type Utf8 = bs: Bytes | ValidUtf8(bs)

  datatype VntConfig = VntConfig(
    tap: bool,
    token: Utf8,
    deviceId: Utf8,
    name: Utf8,
    serverAddressStr: Utf8,
    nameServers: seq<Utf8>,
    stunServer: seq<Utf8>,
    inIps: seq<(U32, U32, Utf8)>,
    outIps: seq<(U32, U32)>,
    password: Option<Utf8>,
    mtu: Option<U32>,
    ip: Option<Utf8>,
    noProxy: bool,
    serverEncrypt: bool,
    cipherModel: Utf8,
    finger: bool,
    punchModel: Utf8,
    ports: Option<seq<U16>>,
    firstLatency: bool,
    deviceName: Option<Utf8>,
    useChannelType: Utf8,
    packetLossRate: Option<U64>,  // the bits of an f64
    packetDelay: U32,
    portMappingList: seq<Utf8>,
    compressor: Utf8,
    allowWireGuard: bool,
    localDev: Option<Utf8>,
    disableRelay: bool)

  const WORD_U8: Schema := Word(1, false)
  const WORD_U16: Schema := Word(2, false)
  const WORD_U32: Schema := Word(4, false)
  const WORD_I64: Schema := Word(8, true)
  const WORD_F64: Schema := Word(8, false)
  const U32_PAIR: Schema := Record([WORD_U32, WORD_U32])
  const U32_PAIR_TEXT: Schema := Record([WORD_U32, WORD_U32, Str])

  // The other shapes of the same file, all instances of the codec.
  const RUST_ERROR_TYPE: Schema := Variant(9)
  const RUST_ROUTE: Schema := Record([Str, Str, WORD_U8, WORD_I64])
  const ROUTE_TABLE: Schema := List(Record([Str, List(RUST_ROUTE)]))

  /** The field types in the order the generated code reads and writes them, seven at a time. */
  const FIELDS_A: seq<Schema> := [Bool, Str, Str, Str, Str, List(Str), List(Str)]
  const FIELDS_B: seq<Schema> := [List(U32_PAIR_TEXT), List(U32_PAIR), Opt(Str), Opt(WORD_U32), Opt(Str), Bool, Bool]
  const FIELDS_C: seq<Schema> := [Str, Bool, Str, Opt(List(WORD_U16)), Bool, Opt(Str), Str]
  const FIELDS_D: seq<Schema> := [Opt(WORD_F64), WORD_U32, List(Str), Str, Bool, Opt(Str), Bool]
  const FIELDS: seq<Schema> := FIELDS_A + FIELDS_B + FIELDS_C + FIELDS_D

  const VNT_CONFIG: Schema := Record(FIELDS)

  // ----- between Rust values and wire values -----

  function Map<A, B>(f: A -> B, xs: seq<A>): (r: seq<B>)
    ensures |r| == |xs| && forall k :: 0 <= k < |xs| ==> r[k] == f(xs[k])
  {
    seq(|xs|, k requires 0 <= k < |xs| => f(xs[k]))
  }

  function FromOption<A>(f: A -> Value, x: Option<A>): Value {
    if x.None? then Absent else Present(f(x.value))
  }

  function ToOption<A>(f: Value -> A, v: Value): Option<A> {
    if v.Present? then Some(f(v.value)) else None
  }

  function FromBool(b: bool): Value { Flag(b) }
  function FromText(s: Utf8): Value { Text(s) }

  function FromList<A>(f: A -> Value, xs: seq<A>): Value { Items(Map(f, xs)) }

  function ToList<A>(f: Value -> A, v: Value): seq<A> {
    if v.Items? then Map(f, v.items) else []
  }

  function FromU16(n: U16): Value { Num(n) }
  function FromU32(n: U32): Value { Num(n) }
  function FromU64(n: U64): Value { Num(n) }
  function FromPair(p: (U32, U32)): Value { Fields([Num(p.0), Num(p.1)]) }
  function FromTriple(p: (U32, U32, Utf8)): Value { Fields([Num(p.0), Num(p.1), Text(p.2)]) }

  function FromPorts(ports: seq<U16>): Value { FromList(FromU16, ports) }

  // The readers have a default for values of another type, which decoding never produces.
  function ToBool(v: Value): bool { v.Flag? && v.b }
  function ToText(v: Value): Utf8 { if v.Text? && ValidUtf8(v.bytes) then v.bytes else [] }
  function ToU16(v: Value): U16 { if v.Num? && 0 <= v.n < 0x1_0000 then v.n else 0 }
  function ToU32(v: Value): U32 { if v.Num? && 0 <= v.n < 0x1_0000_0000 then v.n else 0 }
  function ToU64(v: Value): U64 { if v.Num? && 0 <= v.n < 0x1_0000_0000_0000_0000 then v.n else 0 }
  function ToPair(v: Value): (U32, U32) {
    if v.Fields? && |v.fields| == 2 then (ToU32(v.fields[0]), ToU32(v.fields[1])) else (0, 0)
  }
  function ToTriple(v: Value): (U32, U32, Utf8) {
    if v.Fields? && |v.fields| == 3 then (ToU32(v.fields[0]), ToU32(v.fields[1]), ToText(v.fields[2]))
    else (0, 0, [])
  }

  function ToPorts(v: Value): seq<U16> { ToList(ToU16, v) }

  function ValuesA(c: VntConfig): (vs: seq<Value>)
    ensures |vs| == 7
  {
    [ FromBool(c.tap), FromText(c.token), FromText(c.deviceId), FromText(c.name), FromText(c.serverAddressStr),
      FromList(FromText, c.nameServers), FromList(FromText, c.stunServer) ]
  }

  function ValuesB(c: VntConfig): (vs: seq<Value>)
    ensures |vs| == 7
  {
    [ FromList(FromTriple, c.inIps), FromList(FromPair, c.outIps), FromOption(FromText, c.password),
      FromOption(FromU32, c.mtu), FromOption(FromText, c.ip), FromBool(c.noProxy), FromBool(c.serverEncrypt) ]
  }

  function ValuesC(c: VntConfig): (vs: seq<Value>)
    ensures |vs| == 7
  {
    [ FromText(c.cipherModel), FromBool(c.finger), FromText(c.punchModel), FromOption(FromPorts, c.ports),
      FromBool(c.firstLatency), FromOption(FromText, c.deviceName), FromText(c.useChannelType) ]
  }

  function ValuesD(c: VntConfig): (vs: seq<Value>)
    ensures |vs| == 7
  {
    [ FromOption(FromU64, c.packetLossRate), FromU32(c.packetDelay), FromList(FromText, c.portMappingList),
      FromText(c.compressor), FromBool(c.allowWireGuard), FromOption(FromText, c.localDev), FromBool(c.disableRelay) ]
  }

  function FieldValues(c: VntConfig): (vs: seq<Value>)
    ensures |vs| == 28
  {
    ValuesA(c) + ValuesB(c) + ValuesC(c) + ValuesD(c)
  }

  function FromFieldValues(vs: seq<Value>): VntConfig
    requires |vs| == 28
  {
    VntConfig(
      ToBool(vs[0]), ToText(vs[1]), ToText(vs[2]), ToText(vs[3]), ToText(vs[4]),
      ToList(ToText, vs[5]), ToList(ToText, vs[6]),
      ToList(ToTriple, vs[7]), ToList(ToPair, vs[8]),
      ToOption(ToText, vs[9]), ToOption(ToU32, vs[10]), ToOption(ToText, vs[11]),
      ToBool(vs[12]), ToBool(vs[13]), ToText(vs[14]), ToBool(vs[15]), ToText(vs[16]),
      ToOption(ToPorts, vs[17]),
      ToBool(vs[18]), ToOption(ToText, vs[19]), ToText(vs[20]),
      ToOption(ToU64, vs[21]), ToU32(vs[22]), ToList(ToText, vs[23]),
      ToText(vs[24]), ToBool(vs[25]), ToOption(ToText, vs[26]), ToBool(vs[27]))
  }

  function ToValue(c: VntConfig): Value {
    Fields(FieldValues(c))
  }

  /** What stands for each Rust value on the wire: tuples and lists in their own order. */
  lemma Representations(n: U32, m: U32, t: Utf8, ports: seq<U16>, k: nat)
    requires k < |ports|
    ensures FromBool(true) == Flag(true) && FromBool(false) == Flag(false) && FromText(t) == Text(t)
    ensures FromPair((n, m)) == Fields([Num(n), Num(m)]) && FromTriple((n, m, t)) == Fields([Num(n), Num(m), Text(t)])
    ensures FromU32(n) == Num(n) && FromOption(FromU32, Some(n)) == Present(Num(n))
    ensures FromOption(FromU32, None) == Absent
    ensures var v := FromPorts(ports); v.Items? && |v.items| == |ports| && v.items[k] == Num(ports[k])
  {
  }

  // ----- the conversions are inverse to each other on the values of each type -----

  ghost predicate Inverse<A(!new)>(e: Schema, from: A -> Value, to: Value -> A) {
    && (forall a :: Conforms(e, from(a)) && to(from(a)) == a)
    && (forall v :: Conforms(e, v) ==> from(to(v)) == v)
  }

  lemma Pow256Values()
    ensures Pow256(1) == 0x100 && Pow256(2) == 0x1_0000 && Pow256(4) == 0x1_0000_0000
    ensures Pow256(8) == 0x1_0000_0000_0000_0000
  {
    assert Pow256(3) == 0x100_0000;
    assert Pow256(5) == 0x100_0000_0000;
    assert Pow256(6) == 0x1_0000_0000_0000;
    assert Pow256(7) == 0x100_0000_0000_0000;
  }

  lemma ScalarsInverse()
    ensures Inverse(Bool, FromBool, ToBool)
    ensures Inverse(Str, FromText, ToText)
    ensures Inverse(WORD_U16, FromU16, ToU16)
    ensures Inverse(WORD_U32, FromU32, ToU32)
    ensures Inverse(WORD_F64, FromU64, ToU64)
  {
    hide ValidUtf8;
    Pow256Values();
  }

  lemma TuplesInverse()
    ensures Inverse(U32_PAIR, FromPair, ToPair)
    ensures Inverse(U32_PAIR_TEXT, FromTriple, ToTriple)
  {
    ScalarsInverse();
    hide ValidUtf8;
    forall p ensures Conforms(U32_PAIR, FromPair(p)) {
      FieldsByIndex([WORD_U32, WORD_U32], FromPair(p).fields);
    }
    forall v | Conforms(U32_PAIR, v) ensures FromPair(ToPair(v)) == v {
      FieldsByIndex([WORD_U32, WORD_U32], v.fields);
    }
    forall p ensures Conforms(U32_PAIR_TEXT, FromTriple(p)) {
      FieldsByIndex([WORD_U32, WORD_U32, Str], FromTriple(p).fields);
    }
    forall v | Conforms(U32_PAIR_TEXT, v) ensures FromTriple(ToTriple(v)) == v {
      FieldsByIndex([WORD_U32, WORD_U32, Str], v.fields);
    }
  }

  lemma ListInverse<A(!new)>(e: Schema, from: A -> Value, to: Value -> A)
    requires Inverse(e, from, to)
    ensures forall xs: seq<A> :: Conforms(List(e), FromList(from, xs)) && ToList(to, FromList(from, xs)) == xs
    ensures forall v :: Conforms(List(e), v) ==> FromList(from, ToList(to, v)) == v
  {
    forall xs: seq<A> ensures Conforms(List(e), FromList(from, xs)) && ToList(to, FromList(from, xs)) == xs {
      ItemsByIndex(e, FromList(from, xs).items);
    }
    forall v | Conforms(List(e), v) ensures FromList(from, ToList(to, v)) == v {
      ItemsByIndex(e, v.items);
      assert FromList(from, ToList(to, v)).items == v.items;
    }
  }

  lemma OptionInverse<A(!new)>(e: Schema, from: A -> Value, to: Value -> A)
    requires Inverse(e, from, to)
    ensures forall x: Option<A> :: Conforms(Opt(e), FromOption(from, x)) && ToOption(to, FromOption(from, x)) == x
    ensures forall v :: Conforms(Opt(e), v) ==> FromOption(from, ToOption(to, v)) == v
  {
  }

  lemma AllInverse()
    ensures Inverse(Bool, FromBool, ToBool)
    ensures Inverse(Str, FromText, ToText) && Inverse(WORD_U16, FromU16, ToU16)
    ensures Inverse(WORD_U32, FromU32, ToU32) && Inverse(WORD_F64, FromU64, ToU64)
    ensures Inverse(U32_PAIR, FromPair, ToPair) && Inverse(U32_PAIR_TEXT, FromTriple, ToTriple)
    ensures Inverse(List(WORD_U16), FromPorts, ToPorts)
  {
    ScalarsInverse();
    TuplesInverse();
    ListInverse(WORD_U16, FromU16, ToU16);
  }

  // ----- the layout, seven fields at a time -----

  lemma SevenFields(ss: seq<Schema>, xs: seq<Value>)
    requires |ss| == |xs| == 7
    ensures FieldsConform(ss, xs) <==>
            && Conforms(ss[0], xs[0]) && Conforms(ss[1], xs[1]) && Conforms(ss[2], xs[2]) && Conforms(ss[3], xs[3])
            && Conforms(ss[4], xs[4]) && Conforms(ss[5], xs[5]) && Conforms(ss[6], xs[6])
  {
    hide Conforms;
    FieldsByIndex(ss, xs);
  }

  lemma GroupAConforms(c: VntConfig)
    ensures FieldsConform(FIELDS_A, ValuesA(c))
  {
    hide Conforms, FieldsConform;
    AllInverse();
    ListInverse(Str, FromText, ToText);
    SevenFields(FIELDS_A, ValuesA(c));
  }

  lemma GroupABack(vs: seq<Value>)
    requires |vs| == 28 && FieldsConform(FIELDS_A, vs[0..7])
    ensures ValuesA(FromFieldValues(vs)) == vs[0..7]
  {
    hide Conforms, FieldsConform;
    AllInverse();
    ListInverse(Str, FromText, ToText);
    SevenFields(FIELDS_A, vs[0..7]);
  }

  lemma GroupBConforms(c: VntConfig)
    ensures FieldsConform(FIELDS_B, ValuesB(c))
  {
    hide Conforms, FieldsConform;
    AllInverse();
    ListInverse(U32_PAIR, FromPair, ToPair);
    ListInverse(U32_PAIR_TEXT, FromTriple, ToTriple);
    OptionInverse(Str, FromText, ToText);
    OptionInverse(WORD_U32, FromU32, ToU32);
    SevenFields(FIELDS_B, ValuesB(c));
  }

  lemma GroupBBack(vs: seq<Value>)
    requires |vs| == 28 && FieldsConform(FIELDS_B, vs[7..14])
    ensures ValuesB(FromFieldValues(vs)) == vs[7..14]
  {
    hide Conforms, FieldsConform;
    AllInverse();
    ListInverse(U32_PAIR, FromPair, ToPair);
    ListInverse(U32_PAIR_TEXT, FromTriple, ToTriple);
    OptionInverse(Str, FromText, ToText);
    OptionInverse(WORD_U32, FromU32, ToU32);
    SevenFields(FIELDS_B, vs[7..14]);
  }

  lemma GroupCConforms(c: VntConfig)
    ensures FieldsConform(FIELDS_C, ValuesC(c))
  {
    hide Conforms, FieldsConform;
    AllInverse();
    OptionInverse(List(WORD_U16), FromPorts, ToPorts);
    OptionInverse(Str, FromText, ToText);
    SevenFields(FIELDS_C, ValuesC(c));
  }

  lemma GroupCBack(vs: seq<Value>)
    requires |vs| == 28 && FieldsConform(FIELDS_C, vs[14..21])
    ensures ValuesC(FromFieldValues(vs)) == vs[14..21]
  {
    hide Conforms, FieldsConform;
    AllInverse();
    OptionInverse(List(WORD_U16), FromPorts, ToPorts);
    OptionInverse(Str, FromText, ToText);
    SevenFields(FIELDS_C, vs[14..21]);
  }

  lemma GroupDConforms(c: VntConfig)
    ensures FieldsConform(FIELDS_D, ValuesD(c))
  {
    hide Conforms, FieldsConform;
    AllInverse();
    OptionInverse(WORD_F64, FromU64, ToU64);
    ListInverse(Str, FromText, ToText);
    OptionInverse(Str, FromText, ToText);
    SevenFields(FIELDS_D, ValuesD(c));
  }

  lemma GroupDBack(vs: seq<Value>)
    requires |vs| == 28 && FieldsConform(FIELDS_D, vs[21..28])
    ensures ValuesD(FromFieldValues(vs)) == vs[21..28]
  {
    hide Conforms, FieldsConform;
    AllInverse();
    OptionInverse(WORD_F64, FromU64, ToU64);
    ListInverse(Str, FromText, ToText);
    OptionInverse(Str, FromText, ToText);
    SevenFields(FIELDS_D, vs[21..28]);
  }

  lemma {:induction false} FieldsAppend(ss: seq<Schema>, tt: seq<Schema>, xs: seq<Value>, ys: seq<Value>)
    requires |ss| == |xs|
    ensures FieldsConform(ss + tt, xs + ys) <==> FieldsConform(ss, xs) && FieldsConform(tt, ys)
  {
    hide Conforms;
    if ss == [] {
      assert ss + tt == tt && xs + ys == ys;
    } else {
      assert (ss + tt)[1..] == ss[1..] + tt && (xs + ys)[1..] == xs[1..] + ys;
      FieldsAppend(ss[1..], tt, xs[1..], ys);
    }
  }

  /** The record is written as a value of the layout's type. */
  lemma LayoutConforms(c: VntConfig)
    ensures Conforms(VNT_CONFIG, ToValue(c))
  {
    hide FieldsConform;
    GroupAConforms(c);
    GroupBConforms(c);
    GroupCConforms(c);
    GroupDConforms(c);
    FieldsAppend(FIELDS_A, FIELDS_B, ValuesA(c), ValuesB(c));
    FieldsAppend(FIELDS_A + FIELDS_B, FIELDS_C, ValuesA(c) + ValuesB(c), ValuesC(c));
    FieldsAppend(FIELDS_A + FIELDS_B + FIELDS_C, FIELDS_D, ValuesA(c) + ValuesB(c) + ValuesC(c), ValuesD(c));
  }

  /** Reading the fields back gives the record. */
  lemma LayoutInverse(c: VntConfig)
    ensures FromFieldValues(FieldValues(c)) == c
  {
    hide Conforms;
    AllInverse();
    ListInverse(Str, FromText, ToText);
    ListInverse(U32_PAIR, FromPair, ToPair);
    ListInverse(U32_PAIR_TEXT, FromTriple, ToTriple);
    OptionInverse(Str, FromText, ToText);
    OptionInverse(WORD_U32, FromU32, ToU32);
    OptionInverse(WORD_F64, FromU64, ToU64);
    OptionInverse(List(WORD_U16), FromPorts, ToPorts);
  }

  /** Any value of the layout's type is the record read from it, written again. */
  lemma LayoutBack(v: Value)
    requires Conforms(VNT_CONFIG, v)
    ensures |v.fields| == 28 && ToValue(FromFieldValues(v.fields)) == v
  {
    hide FieldsConform, FromFieldValues, ValuesA, ValuesB, ValuesC, ValuesD;
    var vs := v.fields;
    FieldsByIndex(FIELDS, vs);
    var a, b, c, d := vs[0..7], vs[7..14], vs[14..21], vs[21..28];
    assert vs == a + b + c + d;
    FieldsAppend(FIELDS_A, FIELDS_B, a, b);
    FieldsAppend(FIELDS_A + FIELDS_B, FIELDS_C, a + b, c);
    FieldsAppend(FIELDS_A + FIELDS_B + FIELDS_C, FIELDS_D, a + b + c, d);
    GroupABack(vs);
    GroupBBack(vs);
    GroupCBack(vs);
    GroupDBack(vs);
  }

  // ----- the main theorem -----

  ghost function DecodeConfig(order: Order, input: Bytes): Parsed<VntConfig>
  {
    var p := Parse(order, VNT_CONFIG, input);
    if p.Panic? || !p.value.Fields? || |p.value.fields| != 28 then Panic
    else Done(FromFieldValues(p.value.fields), p.rest)
  }

  ghost function EncodeConfig(order: Order, c: VntConfig): Bytes {
    LayoutConforms(c);
    Encode(order, VNT_CONFIG, ToValue(c))
  }

  /** The bytes of a configuration are those of its 28 fields, one after another. */
  lemma ConfigFormat(order: Order, c: VntConfig, parts: seq<Bytes>)
    requires |parts| == 28
    requires forall k :: 0 <= k < 28 ==>
               Conforms(FIELDS[k], FieldValues(c)[k]) && parts[k] == Encode(order, FIELDS[k], FieldValues(c)[k])
    ensures EncodeConfig(order, c) == Joined(parts)
  {
    RecordFormat(order, FIELDS, FieldValues(c), parts);
  }

  lemma LayoutWellFormed()
    ensures WellFormed(VNT_CONFIG)
  {
    WellFormedByIndex(FIELDS);
    WellFormedByIndex([WORD_U32, WORD_U32]);
    WellFormedByIndex([WORD_U32, WORD_U32, Str]);
    assert WellFormed(U32_PAIR) && WellFormed(U32_PAIR_TEXT);
  }

  lemma {:induction false} WellFormedByIndex(ss: seq<Schema>)
    ensures AllWellFormed(ss) <==> forall k :: 0 <= k < |ss| ==> WellFormed(ss[k])
  {
    hide WellFormed;
    if ss != [] {
      WellFormedByIndex(ss[1..]);
      assert forall k :: 0 < k < |ss| ==> ss[k] == ss[1..][k - 1];
    }
  }

  /** For every configuration and any trailing bytes, decoding the encoding gives the configuration
      and leaves those bytes if and only if all its strings and lists are shorter than 2^31; in that
      case no read fails. */
  lemma VntConfigRoundTrip(order: Order, c: VntConfig, rest: Bytes)
    ensures DecodeConfig(order, EncodeConfig(order, c) + rest) == Done(c, rest) <==> Fits(ToValue(c))
  {
    hide Parse, Encode, Fits, Conforms, WellFormed, FromFieldValues, FieldValues;
    LayoutConforms(c);
    LayoutInverse(c);
    LayoutWellFormed();
    RoundTrip(order, VNT_CONFIG, ToValue(c), rest);
    var p := Parse(order, VNT_CONFIG, EncodeConfig(order, c) + rest);
    if p.Done? {
      ParsedConforms(order, VNT_CONFIG, EncodeConfig(order, c) + rest);
      LayoutBack(p.value);
    }
  }

  /** No configuration's encoding is a proper prefix of another's. */
  lemma VntConfigPrefixFree(order: Order, c: VntConfig, d: VntConfig, x: Bytes)
    requires Fits(ToValue(c)) && Fits(ToValue(d)) && EncodeConfig(order, c) + x == EncodeConfig(order, d)
    ensures c == d && x == []
  {
    hide DecodeConfig, EncodeConfig, Fits;
    VntConfigRoundTrip(order, c, x);
    VntConfigRoundTrip(order, d, []);
    assert EncodeConfig(order, d) + [] == EncodeConfig(order, d);
  }

  // ----- the generated code, field by field -----

  /** The type of field `k`. */
  ghost predicate IsField(k: nat, s: Schema) {
    k < 28 && FIELDS[k] == s
  }

  lemma FieldTypes()
    ensures IsField(0, Bool) && IsField(1, Str) && IsField(2, Str) && IsField(3, Str)
    ensures IsField(4, Str) && IsField(5, List(Str)) && IsField(6, List(Str)) && IsField(7, List(U32_PAIR_TEXT))
    ensures IsField(8, List(U32_PAIR)) && IsField(9, Opt(Str)) && IsField(10, Opt(WORD_U32)) && IsField(11, Opt(Str))
    ensures IsField(12, Bool) && IsField(13, Bool) && IsField(14, Str) && IsField(15, Bool)
    ensures IsField(16, Str) && IsField(17, Opt(List(WORD_U16))) && IsField(18, Bool) && IsField(19, Opt(Str))
    ensures IsField(20, Str) && IsField(21, Opt(WORD_F64)) && IsField(22, WORD_U32) && IsField(23, List(Str))
    ensures IsField(24, Str) && IsField(25, Bool) && IsField(26, Opt(Str)) && IsField(27, Bool)
  {
  }

  /** The cursor stands before field `k` of what parses as `all`. */
  ghost predicate Before(deserializer: SseDeserializer, k: nat, all: Parsed<seq<Value>>)
    reads deserializer
  {
    && deserializer.Valid() && k <= 28
    && var rest := ParseFields(deserializer.order, FIELDS[k..], deserializer.Remaining());
       if all.Panic? then rest.Panic? else |all.value| == 28 && rest == Done(all.value[k..], all.rest)
  }

  /** Field `k` was read as `v`. */
  ghost predicate Is(all: Parsed<seq<Value>>, k: nat, v: Value) {
    all.Done? ==> |all.value| == 28 && k < 28 && all.value[k] == v
  }

  /** One read of the generated decoder. */
  method ReadField(deserializer: SseDeserializer, ghost k: nat, s: Schema, ghost all: Parsed<seq<Value>>)
    returns (v: Option<Value>)
    requires IsField(k, s) && Before(deserializer, k, all)
    modifies deserializer
    ensures deserializer.Valid() && (v.None? ==> all.Panic?)
    ensures v.Some? ==> Before(deserializer, k + 1, all) && Is(all, k, v.value)
  {
    hide Parse;
    assert FIELDS[k..][1..] == FIELDS[k + 1..];
    assert all.Done? ==> all.value[k..][1..] == all.value[k + 1..];
    v := deserializer.Decode(s);
  }

  lemma BeforeFirst(deserializer: SseDeserializer) returns (all: Parsed<seq<Value>>)
    requires deserializer.Valid()
    ensures Before(deserializer, 0, all)
    ensures DecodeConfig(deserializer.order, deserializer.Remaining())
            == if all.Panic? then Panic else Done(FromFieldValues(all.value), all.rest)
    ensures all.Done? ==> |all.value| == 28
  {
    hide FromFieldValues, Conforms, WellFormed;
    LayoutWellFormed();
    ParsedConforms(deserializer.order, VNT_CONFIG, deserializer.Remaining());
    all := ParseFields(deserializer.order, FIELDS, deserializer.Remaining());
    assert FIELDS[0..] == FIELDS;
    if all.Done? {
      FieldsByIndex(FIELDS, all.value);
      assert all.value[0..] == all.value;
      assert Parse(deserializer.order, VNT_CONFIG, deserializer.Remaining()) == Done(Fields(all.value), all.rest);
    }
  }

  lemma AfterLast(deserializer: SseDeserializer, all: Parsed<seq<Value>>)
    requires Before(deserializer, 28, all)
    ensures all.Done? && deserializer.Remaining() == all.rest
  {
    assert FIELDS[28..] == [];
  }

  // The reads of the generated decoder, seven at a time.

  method ReadFieldsA(deserializer: SseDeserializer, ghost all: Parsed<seq<Value>>)
    returns (r: Option<(bool, Utf8, Utf8, Utf8, Utf8, seq<Utf8>, seq<Utf8>)>)
    requires Before(deserializer, 0, all)
    modifies deserializer
    ensures deserializer.Valid() && (r.None? ==> all.Panic?)
    ensures r.Some? ==> Before(deserializer, 7, all)
    ensures r.Some? && all.Done? ==>
              && |all.value| == 28
              && r.value == (ToBool(all.value[0]), ToText(all.value[1]), ToText(all.value[2]), ToText(all.value[3]),
                             ToText(all.value[4]), ToList(ToText, all.value[5]), ToList(ToText, all.value[6]))
  {
    hide IsField, Before;
    FieldTypes();
    var tap :- ReadField(deserializer, 0, Bool, all);
    var token :- ReadField(deserializer, 1, Str, all);
    var deviceId :- ReadField(deserializer, 2, Str, all);
    var name :- ReadField(deserializer, 3, Str, all);
    var serverAddressStr :- ReadField(deserializer, 4, Str, all);
    var nameServers :- ReadField(deserializer, 5, List(Str), all);
    var stunServer :- ReadField(deserializer, 6, List(Str), all);
    r := Some((ToBool(tap), ToText(token), ToText(deviceId), ToText(name), ToText(serverAddressStr),
               ToList(ToText, nameServers), ToList(ToText, stunServer)));
  }

  method ReadFieldsB(deserializer: SseDeserializer, ghost all: Parsed<seq<Value>>)
    returns (r: Option<(seq<(U32, U32, Utf8)>, seq<(U32, U32)>, Option<Utf8>, Option<U32>, Option<Utf8>, bool, bool)>)
    requires Before(deserializer, 7, all)
    modifies deserializer
    ensures deserializer.Valid() && (r.None? ==> all.Panic?)
    ensures r.Some? ==> Before(deserializer, 14, all)
    ensures r.Some? && all.Done? ==>
              && |all.value| == 28
              && r.value == (ToList(ToTriple, all.value[7]), ToList(ToPair, all.value[8]), ToOption(ToText,
                             all.value[9]),
                             ToOption(ToU32, all.value[10]), ToOption(ToText, all.value[11]), ToBool(all.value[12]),
                             ToBool(all.value[13]))
  {
    hide IsField, Before;
    FieldTypes();
    var inIps :- ReadField(deserializer, 7, List(U32_PAIR_TEXT), all);
    var outIps :- ReadField(deserializer, 8, List(U32_PAIR), all);
    var password :- ReadField(deserializer, 9, Opt(Str), all);
    var mtu :- ReadField(deserializer, 10, Opt(WORD_U32), all);
    var ip :- ReadField(deserializer, 11, Opt(Str), all);
    var noProxy :- ReadField(deserializer, 12, Bool, all);
    var serverEncrypt :- ReadField(deserializer, 13, Bool, all);
    r := Some((ToList(ToTriple, inIps), ToList(ToPair, outIps), ToOption(ToText, password), ToOption(ToU32, mtu),
               ToOption(ToText, ip), ToBool(noProxy), ToBool(serverEncrypt)));
  }

  method ReadFieldsC(deserializer: SseDeserializer, ghost all: Parsed<seq<Value>>)
    returns (r: Option<(Utf8, bool, Utf8, Option<seq<U16>>, bool, Option<Utf8>, Utf8)>)
    requires Before(deserializer, 14, all)
    modifies deserializer
    ensures deserializer.Valid() && (r.None? ==> all.Panic?)
    ensures r.Some? ==> Before(deserializer, 21, all)
    ensures r.Some? && all.Done? ==>
              && |all.value| == 28
              && r.value == (ToText(all.value[14]), ToBool(all.value[15]), ToText(all.value[16]), ToOption(ToPorts,
                             all.value[17]),
                             ToBool(all.value[18]), ToOption(ToText, all.value[19]), ToText(all.value[20]))
  {
    hide IsField, Before;
    FieldTypes();
    var cipherModel :- ReadField(deserializer, 14, Str, all);
    var finger :- ReadField(deserializer, 15, Bool, all);
    var punchModel :- ReadField(deserializer, 16, Str, all);
    var ports :- ReadField(deserializer, 17, Opt(List(WORD_U16)), all);
    var firstLatency :- ReadField(deserializer, 18, Bool, all);
    var deviceName :- ReadField(deserializer, 19, Opt(Str), all);
    var useChannelType :- ReadField(deserializer, 20, Str, all);
    r := Some((ToText(cipherModel), ToBool(finger), ToText(punchModel), ToOption(ToPorts, ports),
               ToBool(firstLatency), ToOption(ToText, deviceName), ToText(useChannelType)));
  }

  method ReadFieldsD(deserializer: SseDeserializer, ghost all: Parsed<seq<Value>>)
    returns (r: Option<(Option<U64>, U32, seq<Utf8>, Utf8, bool, Option<Utf8>, bool)>)
    requires Before(deserializer, 21, all)
    modifies deserializer
    ensures deserializer.Valid() && (r.None? ==> all.Panic?)
    ensures r.Some? ==> Before(deserializer, 28, all)
    ensures r.Some? && all.Done? ==>
              && |all.value| == 28
              && r.value == (ToOption(ToU64, all.value[21]), ToU32(all.value[22]), ToList(ToText, all.value[23]),
                             ToText(all.value[24]), ToBool(all.value[25]), ToOption(ToText, all.value[26]),
                             ToBool(all.value[27]))
  {
    hide IsField, Before;
    FieldTypes();
    var packetLossRate :- ReadField(deserializer, 21, Opt(WORD_F64), all);
    var packetDelay :- ReadField(deserializer, 22, WORD_U32, all);
    var portMappingList :- ReadField(deserializer, 23, List(Str), all);
    var compressor :- ReadField(deserializer, 24, Str, all);
    var allowWireGuard :- ReadField(deserializer, 25, Bool, all);
    var localDev :- ReadField(deserializer, 26, Opt(Str), all);
    var disableRelay :- ReadField(deserializer, 27, Bool, all);
    r := Some((ToOption(ToU64, packetLossRate), ToU32(packetDelay), ToList(ToText, portMappingList),
               ToText(compressor), ToBool(allowWireGuard), ToOption(ToText, localDev), ToBool(disableRelay)));
  }

  /** The generated decoder. */
  method SseDecode(deserializer: SseDeserializer) returns (r: Option<VntConfig>)
    requires deserializer.Valid()
    modifies deserializer
    ensures deserializer.Follows(r, DecodeConfig(deserializer.order, old(deserializer.Remaining())))
  {
    hide DecodeConfig, Before;
    ghost var all := BeforeFirst(deserializer);
    var a :- ReadFieldsA(deserializer, all);
    var b :- ReadFieldsB(deserializer, all);
    var c :- ReadFieldsC(deserializer, all);
    var d :- ReadFieldsD(deserializer, all);
    AfterLast(deserializer, all);
    var (tap, token, deviceId, name, serverAddressStr, nameServers, stunServer) := a;
    var (inIps, outIps, password, mtu, ip, noProxy, serverEncrypt) := b;
    var (cipherModel, finger, punchModel, ports, firstLatency, deviceName, useChannelType) := c;
    var (packetLossRate, packetDelay, portMappingList, compressor, allowWireGuard, localDev, disableRelay) := d;
    r := Some(VntConfig(
      tap, token, deviceId, name, serverAddressStr, nameServers, stunServer, inIps, outIps, password, mtu, ip,
      noProxy, serverEncrypt, cipherModel, finger, punchModel, ports, firstLatency, deviceName, useChannelType,
      packetLossRate, packetDelay, portMappingList, compressor, allowWireGuard, localDev, disableRelay));
  }

  /** Field `k` is the next to be written, towards `all`. */
  ghost predicate Towards(serializer: SseSerializer, c: VntConfig, k: nat, all: Bytes)
    reads serializer
  {
    && k <= 28
    && FieldsConform(FIELDS[k..], FieldValues(c)[k..])
    && all == serializer.out + EncodeFields(serializer.order, FIELDS[k..], FieldValues(c)[k..])
  }

  /** Field `k` of the record is written as `v`. */
  ghost predicate IsValue(c: VntConfig, k: nat, v: Value) {
    k < 28 && FieldValues(c)[k] == v
  }

  // The value written for each field, seven at a time.

  lemma FieldsOfA(c: VntConfig)
    ensures IsValue(c, 0, FromBool(c.tap))
    ensures IsValue(c, 1, FromText(c.token))
    ensures IsValue(c, 2, FromText(c.deviceId))
    ensures IsValue(c, 3, FromText(c.name))
    ensures IsValue(c, 4, FromText(c.serverAddressStr))
    ensures IsValue(c, 5, FromList(FromText, c.nameServers))
    ensures IsValue(c, 6, FromList(FromText, c.stunServer))
  {
    hide ValuesB, ValuesC, ValuesD, FromBool, FromText, FromList, FromOption, FromU32;
    assert FieldValues(c)[0..7] == ValuesA(c);
  }

  lemma FieldsOfB(c: VntConfig)
    ensures IsValue(c, 7, FromList(FromTriple, c.inIps))
    ensures IsValue(c, 8, FromList(FromPair, c.outIps))
    ensures IsValue(c, 9, FromOption(FromText, c.password))
    ensures IsValue(c, 10, FromOption(FromU32, c.mtu))
    ensures IsValue(c, 11, FromOption(FromText, c.ip))
    ensures IsValue(c, 12, FromBool(c.noProxy))
    ensures IsValue(c, 13, FromBool(c.serverEncrypt))
  {
    hide ValuesA, ValuesC, ValuesD, FromBool, FromText, FromList, FromOption, FromU32;
    assert FieldValues(c)[7..14] == ValuesB(c);
  }

  lemma FieldsOfC(c: VntConfig)
    ensures IsValue(c, 14, FromText(c.cipherModel))
    ensures IsValue(c, 15, FromBool(c.finger))
    ensures IsValue(c, 16, FromText(c.punchModel))
    ensures IsValue(c, 17, FromOption(FromPorts, c.ports))
    ensures IsValue(c, 18, FromBool(c.firstLatency))
    ensures IsValue(c, 19, FromOption(FromText, c.deviceName))
    ensures IsValue(c, 20, FromText(c.useChannelType))
  {
    hide ValuesA, ValuesB, ValuesD, FromBool, FromText, FromList, FromOption, FromU32;
    assert FieldValues(c)[14..21] == ValuesC(c);
  }

  lemma FieldsOfD(c: VntConfig)
    ensures IsValue(c, 21, FromOption(FromU64, c.packetLossRate))
    ensures IsValue(c, 22, FromU32(c.packetDelay))
    ensures IsValue(c, 23, FromList(FromText, c.portMappingList))
    ensures IsValue(c, 24, FromText(c.compressor))
    ensures IsValue(c, 25, FromBool(c.allowWireGuard))
    ensures IsValue(c, 26, FromOption(FromText, c.localDev))
    ensures IsValue(c, 27, FromBool(c.disableRelay))
  {
    hide ValuesA, ValuesB, ValuesC, FromBool, FromText, FromList, FromOption, FromU32;
    assert FieldValues(c)[21..28] == ValuesD(c);
  }

  /** One write of the generated encoder. */
  method WriteField(serializer: SseSerializer, c: VntConfig, ghost k: nat, s: Schema, v: Value, ghost all: Bytes)
    requires IsField(k, s) && IsValue(c, k, v) && Towards(serializer, c, k, all)
    modifies serializer
    ensures Towards(serializer, c, k + 1, all)
  {
    hide Encode, Conforms, FieldValues;
    assert FIELDS[k..][1..] == FIELDS[k + 1..];
    assert FieldValues(c)[k..][1..] == FieldValues(c)[k + 1..];
    serializer.EncodeValue(s, v);
  }

  lemma TowardsFirst(serializer: SseSerializer, c: VntConfig)
    ensures Towards(serializer, c, 0, serializer.out + EncodeConfig(serializer.order, c))
  {
    hide FieldValues;
    LayoutConforms(c);
    assert FIELDS[0..] == FIELDS && FieldValues(c)[0..] == FieldValues(c);
  }

  lemma TowardsLast(serializer: SseSerializer, c: VntConfig, all: Bytes)
    requires Towards(serializer, c, 28, all)
    ensures serializer.out == all
  {
  }

  // The writes of the generated encoder, seven at a time.

  method WriteFieldsA(serializer: SseSerializer, c: VntConfig, ghost all: Bytes)
    requires Towards(serializer, c, 0, all)
    modifies serializer
    ensures Towards(serializer, c, 7, all)
  {
    hide IsField, IsValue, Towards, FromBool, FromText, FromList, FromOption, FromU32;
    FieldTypes();
    FieldsOfA(c);
    WriteField(serializer, c, 0, Bool, FromBool(c.tap), all);
    WriteField(serializer, c, 1, Str, FromText(c.token), all);
    WriteField(serializer, c, 2, Str, FromText(c.deviceId), all);
    WriteField(serializer, c, 3, Str, FromText(c.name), all);
    WriteField(serializer, c, 4, Str, FromText(c.serverAddressStr), all);
    WriteField(serializer, c, 5, List(Str), FromList(FromText, c.nameServers), all);
    WriteField(serializer, c, 6, List(Str), FromList(FromText, c.stunServer), all);
  }

  method WriteFieldsB(serializer: SseSerializer, c: VntConfig, ghost all: Bytes)
    requires Towards(serializer, c, 7, all)
    modifies serializer
    ensures Towards(serializer, c, 14, all)
  {
    hide IsField, IsValue, Towards, FromBool, FromText, FromList, FromOption, FromU32;
    FieldTypes();
    FieldsOfB(c);
    WriteField(serializer, c, 7, List(U32_PAIR_TEXT), FromList(FromTriple, c.inIps), all);
    WriteField(serializer, c, 8, List(U32_PAIR), FromList(FromPair, c.outIps), all);
    WriteField(serializer, c, 9, Opt(Str), FromOption(FromText, c.password), all);
    WriteField(serializer, c, 10, Opt(WORD_U32), FromOption(FromU32, c.mtu), all);
    WriteField(serializer, c, 11, Opt(Str), FromOption(FromText, c.ip), all);
    WriteField(serializer, c, 12, Bool, FromBool(c.noProxy), all);
    WriteField(serializer, c, 13, Bool, FromBool(c.serverEncrypt), all);
  }

  method WriteFieldsC(serializer: SseSerializer, c: VntConfig, ghost all: Bytes)
    requires Towards(serializer, c, 14, all)
    modifies serializer
    ensures Towards(serializer, c, 21, all)
  {
    hide IsField, IsValue, Towards, FromBool, FromText, FromList, FromOption, FromU32;
    FieldTypes();
    FieldsOfC(c);
    WriteField(serializer, c, 14, Str, FromText(c.cipherModel), all);
    WriteField(serializer, c, 15, Bool, FromBool(c.finger), all);
    WriteField(serializer, c, 16, Str, FromText(c.punchModel), all);
    WriteField(serializer, c, 17, Opt(List(WORD_U16)), FromOption(FromPorts, c.ports), all);
    WriteField(serializer, c, 18, Bool, FromBool(c.firstLatency), all);
    WriteField(serializer, c, 19, Opt(Str), FromOption(FromText, c.deviceName), all);
    WriteField(serializer, c, 20, Str, FromText(c.useChannelType), all);
  }

  method WriteFieldsD(serializer: SseSerializer, c: VntConfig, ghost all: Bytes)
    requires Towards(serializer, c, 21, all)
    modifies serializer
    ensures Towards(serializer, c, 28, all)
  {
    hide IsField, IsValue, Towards, FromBool, FromText, FromList, FromOption, FromU32;
    FieldTypes();
    FieldsOfD(c);
    WriteField(serializer, c, 21, Opt(WORD_F64), FromOption(FromU64, c.packetLossRate), all);
    WriteField(serializer, c, 22, WORD_U32, FromU32(c.packetDelay), all);
    WriteField(serializer, c, 23, List(Str), FromList(FromText, c.portMappingList), all);
    WriteField(serializer, c, 24, Str, FromText(c.compressor), all);
    WriteField(serializer, c, 25, Bool, FromBool(c.allowWireGuard), all);
    WriteField(serializer, c, 26, Opt(Str), FromOption(FromText, c.localDev), all);
    WriteField(serializer, c, 27, Bool, FromBool(c.disableRelay), all);
  }

  /** The generated encoder. */
  method SseEncode(c: VntConfig, serializer: SseSerializer)
    modifies serializer
    ensures serializer.out == old(serializer.out) + EncodeConfig(serializer.order, c)
  {
    hide EncodeConfig, Towards;
    ghost var all := serializer.out + EncodeConfig(serializer.order, c);
    TowardsFirst(serializer, c);
    WriteFieldsA(serializer, c, all);
    WriteFieldsB(serializer, c, all);
    WriteFieldsC(serializer, c, all);
    WriteFieldsD(serializer, c, all);
    TowardsLast(serializer, c, all);
  }

  /** The nested route lists round-trip exactly when the outer list, every inner list and every string
      are short enough. */
  lemma RouteTableRoundTrip(order: Order, v: Value, rest: Bytes)
    requires Conforms(ROUTE_TABLE, v)
    ensures ROUTE_TABLE == List(Record([Str, List(Record([Str, Str, Word(1, false), Word(8, true)]))]))
    ensures Parse(order, ROUTE_TABLE, Encode(order, ROUTE_TABLE, v) + rest) == Done(v, rest) <==> Fits(v)
  {
    WellFormedByIndex([Str, Str, WORD_U8, WORD_I64]);
    WellFormedByIndex([Str, List(RUST_ROUTE)]);
    hide Parse, Encode, Fits, Conforms;
    RoundTrip(order, ROUTE_TABLE, v, rest);
  }

  /** An error code is decoded to its variant if it is one of the nine, and panics otherwise. */
  lemma ErrorTypeDecodes(order: Order, tag: int, rest: Bytes)
    requires InRange(tag, 4, true)
    ensures Parse(order, RUST_ERROR_TYPE, WriteWord(order, tag, 4) + rest) ==
            if 0 <= tag <= 8 then Done(Tag(tag), rest) else Panic
  {
    ParseEncodedWord(order, tag, 4, true, rest, WriteWord(order, tag, 4) + rest);
    hide WriteWord, ParseWord, InRange;
  }
}
