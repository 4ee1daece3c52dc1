/** The codec as the source runs it: a read cursor that advances and a write cursor that grows, with
    a loop for every list (rust/src/frb_generated.rs:1327-1497, 2319-2482). */
module SseCursor {
  import opened Basics
  import opened WireBytes
  import opened SseCodec

  /** Puts values already read in front of what is still to be parsed. */
  ghost function Prepend(vs: seq<Value>, p: Parsed<seq<Value>>): Parsed<seq<Value>> {
    if p.Panic? then Panic else Done(vs + p.value, p.rest)
  }

  lemma PrependNothing(p: Parsed<seq<Value>>)
    ensures Prepend([], p) == p
  {
    assert p.Done? ==> [] + p.value == p.value;
  }

  lemma PrependMore(vs: seq<Value>, v: Value, p: Parsed<seq<Value>>)
    ensures Prepend(vs, Prepend([v], p)) == Prepend(vs + [v], p)
  {
    assert p.Done? ==> vs + ([v] + p.value) == (vs + [v]) + p.value;
  }

  class SseDeserializer {
    const order: Order
    const data: Bytes
    var cursor: nat

    ghost predicate Valid()
      reads this
    {
      cursor <= |data|
    }

    ghost function Remaining(): Bytes
      requires Valid()
      reads this
    {
      data[cursor..]
    }

    /** The call ended as the parser says: with its value and its rest, or in a panic. */
    ghost predicate Follows<T>(r: Option<T>, p: Parsed<T>)
      reads this
    {
      Valid() && if p.Panic? then r.None? else r == Some(p.value) && Remaining() == p.rest
    }

    constructor (order: Order, data: Bytes)
      ensures Valid() && this.order == order && this.data == data && Remaining() == data
    {
      this.order, this.data, cursor := order, data, 0;
    }

    method ReadBytes(n: nat) returns (r: Option<Bytes>)
      requires Valid()
      modifies this
      ensures Follows(r, ParseBytes(n, old(Remaining())))
    {
      if |data| - cursor < n {
        return None;
      }
      r := Some(data[cursor..cursor + n]);
      assert data[cursor..][..n] == r.value && data[cursor..][n..] == data[cursor + n..];
      cursor := cursor + n;
    }

    method ReadWord(w: nat, signed: bool) returns (r: Option<int>)
      requires Valid()
      modifies this
      ensures Follows(r, ParseWord(order, w, signed, old(Remaining())))
    {
      var bs := ReadBytes(w);
      if bs.None? {
        return None;
      }
      r := Some(WireBytes.ReadWord(order, bs.value, signed));
    }

    /** `Vec<u8>` read byte by byte, then checked to be UTF-8. */
    method DecodeString() returns (r: Option<Bytes>)
      requires Valid()
      modifies this
      ensures Follows(r, ParseString(order, old(Remaining())))
    {
      ghost var input := Remaining();
      var len := ReadWord(4, true);
      if len.None? {
        return None;
      }
      var ans := [];
      var start := cursor;
      ghost var rest := Remaining();
      for idx := 0 to LoopCount(len.value)
        invariant Valid() && cursor == start + idx && ans == data[start..cursor]
      {
        var b := ReadBytes(1);
        if b.None? {
          return None;
        }
        ans := ans + b.value;
      }
      assert rest[..|ans|] == ans && rest[|ans|..] == Remaining();
      if !ValidUtf8(ans) {
        return None;
      }
      r := Some(ans);
    }

    method Decode(s: Schema) returns (r: Option<Value>)
      requires Valid()
      modifies this
      ensures Follows(r, Parse(order, s, old(Remaining())))
      decreases s, 0
    {
      hide ParseBytes, ParseWord, ParseString;
      match s
      case Word(w, signed) =>
        var n := ReadWord(w, signed);
        r := if n.Some? then Some(Num(n.value)) else None;
      case Bool =>
        var b := ReadByte();
        r := if b.Some? then Some(Flag(b.value != 0)) else None;
      case Str =>
        var bs := DecodeString();
        r := if bs.Some? then Some(Text(bs.value)) else None;
      case Variant(n) =>
        var tag := ReadWord(4, true);
        r := if tag.Some? && 0 <= tag.value < n then Some(Tag(tag.value)) else None;
      case Opt(e) =>
        var b := ReadByte();
        if b.None? {
          return None;
        }
        if b.value == 0 {
          return Some(Absent);
        }
        var v := Decode(e);
        r := if v.Some? then Some(Present(v.value)) else None;
      case List(e) =>
        var len := ReadWord(4, true);
        if len.None? {
          return None;
        }
        var ans := DecodeItems(e, LoopCount(len.value));
        r := if ans.Some? then Some(Items(ans.value)) else None;
      case Record(ss) =>
        var ans := DecodeFields(ss);
        r := if ans.Some? then Some(Fields(ans.value)) else None;
    }

    method ReadByte() returns (r: Option<Byte>)
      requires Valid()
      modifies this
      ensures var p := ParseBytes(1, old(Remaining()));
              Valid() && if p.Panic? then r.None? else r == Some(p.value[0]) && Remaining() == p.rest
    {
      var bs := ReadBytes(1);
      r := if bs.None? then None else Some(bs.value[0]);
    }

    /** The loop that pushes each decoded element. */
    method DecodeItems(e: Schema, len: nat) returns (r: Option<seq<Value>>)
      requires Valid()
      modifies this
      ensures Follows(r, ParseItems(order, e, len, old(Remaining())))
      decreases e, 1
    {
      hide Parse;
      ghost var p := ParseItems(order, e, len, Remaining());
      var ans: seq<Value> := [];
      PrependNothing(p);
      for idx := 0 to len
        invariant Valid()
        invariant p == Prepend(ans, ParseItems(order, e, len - idx, Remaining()))
      {
        var v := Decode(e);
        if v.None? {
          return None;
        }
        PrependMore(ans, v.value, ParseItems(order, e, len - idx - 1, Remaining()));
        ans := ans + [v.value];
      }
      assert ans + [] == ans;
      r := Some(ans);
    }

    /** One read per field, in declaration order. */
    method DecodeFields(ss: seq<Schema>) returns (r: Option<seq<Value>>)
      requires Valid()
      modifies this
      ensures Follows(r, ParseFields(order, ss, old(Remaining())))
      decreases ss, 1
    {
      hide Parse;
      ghost var p := ParseFields(order, ss, Remaining());
      var ans: seq<Value> := [];
      PrependNothing(p);
      assert ss[0..] == ss;
      for k := 0 to |ss|
        invariant Valid()
        invariant p == Prepend(ans, ParseFields(order, ss[k..], Remaining()))
      {
        var v := Decode(ss[k]);
        assert ss[k..][1..] == ss[k + 1..];
        if v.None? {
          return None;
        }
        PrependMore(ans, v.value, ParseFields(order, ss[k + 1..], Remaining()));
        ans := ans + [v.value];
      }
      assert ans + [] == ans;
      r := Some(ans);
    }
  }

  class SseSerializer {
    const order: Order
    var out: Bytes

    constructor (order: Order)
      ensures this.order == order && out == []
    {
      this.order, out := order, [];
    }

    method Write(bs: Bytes)
      modifies this
      ensures out == old(out) + bs
    {
      out := out + bs;
    }

    method EncodeValue(s: Schema, v: Value)
      requires Conforms(s, v)
      modifies this
      ensures out == old(out) + Encode(order, s, v)
      decreases s, 0
    {
      hide WriteWord, EncodeLength, InRange, ValidUtf8;
      match s
      case Word(w, _) => Write(WriteWord(order, v.n, w));
      case Bool => Write([if v.b then 1 else 0]);
      case Str =>
        Write(EncodeLength(order, |v.bytes|));
        Write(v.bytes);
      case Variant(_) => Write(WriteWord(order, v.index, 4));
      case Opt(e) =>
        Write([if v.Present? then 1 else 0]);
        if v.Present? {
          EncodeValue(e, v.value);
        }
      case List(e) =>
        Write(EncodeLength(order, |v.items|));
        EncodeAllItems(e, v.items);
      case Record(ss) => EncodeAllFields(ss, v.fields);
    }

    method EncodeAllItems(e: Schema, xs: seq<Value>)
      requires ItemsConform(e, xs)
      modifies this
      ensures out == old(out) + EncodeItems(order, e, xs)
      decreases e, 1
    {
      hide Encode, Conforms;
      ghost var all := out + EncodeItems(order, e, xs);
      for k := 0 to |xs|
        invariant ItemsConform(e, xs[k..])
        invariant all == out + EncodeItems(order, e, xs[k..])
      {
        assert xs[k..][1..] == xs[k + 1..];
        EncodeValue(e, xs[k]);
      }
    }

    method EncodeAllFields(ss: seq<Schema>, xs: seq<Value>)
      requires FieldsConform(ss, xs)
      modifies this
      ensures out == old(out) + EncodeFields(order, ss, xs)
      decreases ss, 1
    {
      hide Encode, Conforms;
      ghost var all := out + EncodeFields(order, ss, xs);
      for k := 0 to |ss|
        invariant FieldsConform(ss[k..], xs[k..])
        invariant all == out + EncodeFields(order, ss[k..], xs[k..])
      {
        assert xs[k..][1..] == xs[k + 1..] && ss[k..][1..] == ss[k + 1..];
        EncodeValue(ss[k], xs[k]);
      }
    }
  }
}
