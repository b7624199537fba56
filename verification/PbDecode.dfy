/** The decoder of pb_decode.c, statement by statement, proved to read what PbSpec.DecMsg says.
    Streams are objects; the struct being filled is a value that the decoder takes and gives back. */
module PbDecode {
  import opened Wrappers
  import opened PbTypes
  import opened PbWire
  import opened PbSpec
  import opened PbIter
  import Bits

  /** pb_istream_t over a memory buffer */
  class IStream {
    const data: seq<byte>
    var state: nat
    var bytesLeft: nat

    ghost predicate Valid()
      reads this
    {
      state + bytesLeft <= |data|
    }

    /** What is left to read. */
    ghost function Rest(): seq<byte>
      requires Valid()
      reads this
    {
      data[state..state + bytesLeft]
    }

    /** Where the stream ends in its data. */
    ghost function End(): nat
      reads this
    {
      state + bytesLeft
    }

    /** pb_istream_from_buffer */
    constructor (buf: seq<byte>, start: nat, size: nat)
      requires start + size <= |buf|
      ensures Valid() && data == buf && state == start && bytesLeft == size && Rest() == buf[start..start + size]
    {
      data, state, bytesLeft := buf, start, size;
    }
  }

  /** The outcome of reading what p describes: it succeeds exactly when p does, leaves what p leaves, and does not
      look past the end of the stream. */
  twostate predicate Consumed<T>(s: IStream, new ok: bool, new p: Parsed<T>)
    reads s
  {
    && s.Valid() && s.End() <= old(s.End())
    && (ok <==> p.Ok?)
    && (ok ==> s.Rest() == p.rest && s.End() == old(s.End()))
  }

  /** pb_read */
  method Read(s: IStream, count: nat) returns (ok: bool, buf: seq<byte>)
    requires s.Valid()
    modifies s
    ensures Consumed(s, ok, Take(old(s.Rest()), count))
    ensures ok ==> buf == Take(old(s.Rest()), count).v
    ensures s.End() == old(s.End())
  {
    buf := [];
    if s.bytesLeft < count {
      return false, buf;
    }
    buf := s.data[s.state..s.state + count];
    s.state := s.state + count;
    s.bytesLeft := s.bytesLeft - count;
    return true, buf;
  }

  /** pb_readbyte */
  method ReadByte(s: IStream) returns (ok: bool, b: byte)
    requires s.Valid()
    modifies s
    ensures s.Valid() && (ok <==> old(s.Rest()) != [])
    ensures ok ==> b == old(s.Rest())[0] && s.Rest() == old(s.Rest())[1..]
    ensures !ok ==> s.Rest() == []
    ensures s.End() == old(s.End())
  {
    if s.bytesLeft == 0 {
      return false, 0;
    }
    b := s.data[s.state];
    s.state := s.state + 1;
    s.bytesLeft := s.bytesLeft - 1;
    return true, b;
  }

  // ----- varints -----

  /** n continuation bytes with the low bits acc have been read; the number goes on in `rest`. */
  ghost predicate ReadSoFar(all: seq<byte>, limit: nat, n: nat, acc: nat, rest: seq<byte>) {
    && n <= limit && acc < Bits.Pow2(7 * n)
    && ReadVarint(all, limit)
       == var p := ReadVarint(rest, limit - n);
          if p.Ok? then Ok(acc + Bits.Pow2(7 * n) * p.v, p.rest) else Fail
  }

  lemma Seven(n: nat)
    ensures Bits.Pow2(7 * (n + 1)) == 128 * Bits.Pow2(7 * n)
  {
    Bits.PowSum(7, 7 * n);
    assert Bits.Pow2(3) == 8;
    assert Bits.Pow2(7) == 128;
  }

  lemma ReadNone(all: seq<byte>, limit: nat)
    ensures ReadSoFar(all, limit, 0, 0, all)
  {
  }

  /** One more byte: either the number is complete or another continuation byte has been read. */
  lemma ReadOne(all: seq<byte>, limit: nat, n: nat, acc: nat, rest: seq<byte>)
    requires ReadSoFar(all, limit, n, acc, rest) && n < limit && rest != []
    ensures rest[0] < 128 ==> ReadVarint(all, limit) == Ok(acc + Bits.Pow2(7 * n) * rest[0], rest[1..])
    ensures rest[0] >= 128 ==>
              ReadSoFar(all, limit, n + 1, acc + Bits.Pow2(7 * n) * (rest[0] % 128), rest[1..])
  {
    if rest[0] >= 128 { ReadMore(all, limit, n, acc, rest); }
  }

  lemma ReadMore(all: seq<byte>, limit: nat, n: nat, acc: nat, rest: seq<byte>)
    requires ReadSoFar(all, limit, n, acc, rest) && n < limit && rest != [] && rest[0] >= 128
    ensures ReadSoFar(all, limit, n + 1, acc + Bits.Pow2(7 * n) * (rest[0] % 128), rest[1..])
  {
    var place, next, b := Bits.Pow2(7 * n), Bits.Pow2(7 * (n + 1)), rest[0] % 128;
    assert next == 128 * place by { Seven(n); }
    assert acc + place * b < next by { PlaceBound(acc, place, b); }
    PlaceStep(ReadVarint(all, limit), ReadVarint(rest, limit - n), ReadVarint(rest[1..], limit - (n + 1)),
              acc, place, next, b);
  }

  /** What one continuation byte b adds, `place` being the weight of its bits and `next` that of the following ones. */
  lemma PlaceStep(all: Parsed<nat>, here: Parsed<nat>, further: Parsed<nat>, acc: nat, place: nat, next: nat, b: nat)
    requires next == 128 * place
    requires here == if further.Ok? then Ok(b + 128 * further.v, further.rest) else Fail
    requires all == if here.Ok? then Ok(acc + place * here.v, here.rest) else Fail
    ensures all == if further.Ok? then Ok(acc + place * b + next * further.v, further.rest) else Fail
  {
    if further.Ok? { PlaceValue(acc, place, next, b, further.v); }
  }

  lemma PlaceBound(acc: nat, p: nat, b: nat)
    requires acc < p && b < 128
    ensures acc + p * b < 128 * p
  {
    AtMost(p, b, 127);
  }

  lemma PlaceValue(acc: nat, p: nat, q: nat, b: nat, v: nat)
    requires q == 128 * p
    ensures acc + p * (b + 128 * v) == acc + p * b + q * v
  {
    Distribute(p, b, 128 * v);
    assert p * (128 * v) == 128 * p * v;
  }

  lemma Distribute(p: nat, a: nat, b: nat)
    ensures p * (a + b) == p * a + p * b
  {
  }

  lemma AtMost(p: nat, b: nat, c: nat)
    requires b <= c
    ensures p * b <= p * c
  {
  }

  lemma ReadFails(all: seq<byte>, limit: nat, n: nat, acc: nat, rest: seq<byte>)
    requires ReadSoFar(all, limit, n, acc, rest) && (n == limit || rest == [])
    ensures ReadVarint(all, limit).Fail?
  {
  }

  /** result |= (byte & 0x7F) << bitpos adds the seven bits at their place, modulo the width of result. */
  lemma OrPlace(acc: nat, x: nat, n: nat, width: nat)
    requires 7 * n < width && acc < Bits.Pow2(7 * n)
    ensures Bits.Or(acc % Bits.Pow2(width), Bits.Shl(x, 7 * n, width))
         == (acc + Bits.Pow2(7 * n) * x) % Bits.Pow2(width)
  {
    var p, q := Bits.Pow2(7 * n), Bits.Pow2(width - 7 * n);
    Bits.PowSum(7 * n, width - 7 * n);
    PlaceMod(0, x, p, q);
    PlaceMod(acc, x, p, q);
    PlaceMod(acc, 0, p, q);
    Bits.OrPlus(acc, x % q, 7 * n);
  }

  lemma PlaceMod(acc: nat, x: nat, p: nat, q: nat)
    requires acc < p && 1 <= q
    ensures (acc + p * x) % (p * q) == acc + x % q * p
    ensures x * p == p * x
  {
    var h, low := x / q, x % q;
    AtMost(p, low + 1, q);
    Distribute(p, low, 1);
    Distribute(p, q * h, low);
    assert p * (q * h) == p * q * h;
    Bits.Remainder(acc + p * x, p * q, h, acc + p * low);
  }

  /** The decoding loop from byte number n on, `bitpos` being 7 * n, in the C operators. */
  function Accumulate(s: seq<byte>, width: nat, n: nat, result: nat): Parsed<nat>
    decreases |s|
  {
    if 7 * n >= width || s == [] then Fail
    else
      var result' := Bits.Or(result, Bits.Shl(s[0] % 0x80, 7 * n, width));
      if s[0] < 0x80 then Ok(result', s[1..]) else Accumulate(s[1..], width, n + 1, result')
  }

  lemma {:induction false} AccumulateReads(all: seq<byte>, limit: nat, width: nat, n: nat, acc: nat, rest: seq<byte>)
    requires ReadSoFar(all, limit, n, acc, rest)
    requires width <= 7 * limit < width + 7
    ensures Accumulate(rest, width, n, acc % Bits.Pow2(width))
         == var p := ReadVarint(all, limit); if p.Ok? then Ok(p.v % Bits.Pow2(width), p.rest) else Fail
    decreases |rest|
  {
    if n == limit || rest == [] {
      ReadFails(all, limit, n, acc, rest);
    } else {
      ReadOne(all, limit, n, acc, rest);
      OrPlace(acc, rest[0] % 0x80, n, width);
      if rest[0] >= 128 {
        AccumulateReads(all, limit, width, n + 1, acc + Bits.Pow2(7 * n) * (rest[0] % 128), rest[1..]);
      }
    }
  }

  /** Both decoding loops compute the decoders of the wire format. */
  lemma LoopsDecode(s: seq<byte>)
    ensures Accumulate(s, 64, 0, 0) == DecVarint64(s)
    ensures Accumulate(s, 32, 0, 0) == DecVarint32(s)
  {
    Pow2Of32();
    Bits.PowSum(32, 32);
    ReadNone(s, 10);
    ReadNone(s, 5);
    AccumulateReads(s, 10, 64, 0, 0, s);
    AccumulateReads(s, 5, 32, 0, 0, s);
  }

  /** pb_decode_varint */
  method DecodeVarint(s: IStream) returns (ok: bool, dest: nat)
    requires s.Valid()
    modifies s
    ensures Consumed(s, ok, DecVarint64(old(s.Rest())))
    ensures ok ==> dest == DecVarint64(old(s.Rest())).v
  {
    LoopsDecode(s.Rest());
    var n, result := 0, 0;     // bitpos == 7 * n
    while true
      invariant s.Valid() && s.End() == old(s.End())
      invariant Accumulate(s.Rest(), 64, n, result) == DecVarint64(old(s.Rest()))
      decreases s.bytesLeft
    {
      if 7 * n >= 64 {
        return false, 0;
      }
      var b;
      ok, b := ReadByte(s);
      if !ok {
        return false, 0;
      }
      result := Bits.Or(result, Bits.Shl(b % 0x80, 7 * n, 64));
      n := n + 1;
      if b < 0x80 {
        return true, result;
      }
    }
  }

  /** pb_decode_varint32.  After a failure the stream is empty exactly when it had at most five bytes. */
  method DecodeVarint32(s: IStream) returns (ok: bool, dest: nat)
    requires s.Valid()
    modifies s
    ensures Consumed(s, ok, DecVarint32(old(s.Rest())))
    ensures ok ==> dest == DecVarint32(old(s.Rest())).v
    ensures !ok ==> (s.bytesLeft == 0 <==> |old(s.Rest())| <= 5)
    ensures s.End() == old(s.End())
  {
    ghost var all := s.Rest();
    LoopsDecode(all);
    var b;
    ok, b := ReadByte(s);
    if !ok {
      return false, 0;
    }
    FirstByte(b);
    if b < 0x80 {
      return true, b;
    }
    ok, dest := DecodeMultibyte(s, b % 0x80);
  }

  /** The multibyte case of pb_decode_varint32, after the first byte. */
  method DecodeMultibyte(s: IStream, first: nat) returns (ok: bool, result: nat)
    requires s.Valid()
    modifies s
    ensures Consumed(s, ok, Accumulate(old(s.Rest()), 32, 1, first))
    ensures ok ==> result == Accumulate(old(s.Rest()), 32, 1, first).v
    ensures !ok ==> (s.bytesLeft == 0 <==> |old(s.Rest())| <= 4)
    ensures s.End() == old(s.End())
  {
    var n := 1;     // bitpos == 7 * n
    result := first;
    while true
      invariant s.Valid() && s.End() == old(s.End()) && 1 <= n <= 5 && s.bytesLeft + n == old(s.bytesLeft) + 1
      invariant Accumulate(s.Rest(), 32, n, result) == Accumulate(old(s.Rest()), 32, 1, first)
      decreases s.bytesLeft
    {
      if 7 * n >= 32 {
        return false, 0;
      }
      var b;
      ok, b := ReadByte(s);
      if !ok {
        return false, 0;
      }
      result := Bits.Or(result, Bits.Shl(b % 0x80, 7 * n, 32));
      n := n + 1;
      if b < 0x80 {
        return true, result;
      }
    }
  }

  lemma FirstByte(b: byte)
    ensures Bits.Or(0, Bits.Shl(b % 0x80, 0, 32)) == b % 0x80
  {
    Pow2Of32();
    assert b % 0x80 * Bits.Pow2(0) == b % 0x80;
    SmallMod(b % 0x80, Bits.Pow2(32));
  }

  // ----- skipping, tags and substreams -----

  /** pb_skip_varint */
  method SkipVarintBytes(s: IStream) returns (ok: bool)
    requires s.Valid()
    modifies s
    ensures Consumed(s, ok, SkipVarint(old(s.Rest())))
  {
    while true
      invariant s.Valid() && s.End() == old(s.End()) && SkipVarint(s.Rest()) == SkipVarint(old(s.Rest()))
      decreases s.bytesLeft
    {
      ghost var rest := s.Rest();
      var buf;
      ok, buf := Read(s, 1);
      if !ok {
        return;
      }
      assert buf[0] == rest[0];
      if buf[0] < 0x80 {
        return;
      }
    }
  }

  /** pb_skip_string */
  method SkipString(s: IStream) returns (ok: bool)
    requires s.Valid()
    modifies s
    ensures Consumed(s, ok, TakeString(old(s.Rest())))
  {
    var length;
    ok, length := DecodeVarint32(s);
    if ok {
      var skipped;
      ok, skipped := Read(s, length);
    }
  }

  /** pb_skip_field */
  method Skip(s: IStream, wireType: nat) returns (ok: bool)
    requires s.Valid()
    modifies s
    ensures Consumed(s, ok, SkipField(wireType, old(s.Rest())))
  {
    var skipped;
    if wireType == WT_VARINT {
      ok := SkipVarintBytes(s);
    } else if wireType == WT_64BIT {
      ok, skipped := Read(s, 8);
    } else if wireType == WT_STRING {
      ok := SkipString(s);
    } else if wireType == WT_32BIT {
      ok, skipped := Read(s, 4);
    } else {
      ok := false;
    }
  }

  /** pb_decode_tag */
  method DecodeTag(s: IStream) returns (ok: bool, wireType: nat, tag: nat, eof: bool)
    requires s.Valid()
    modifies s
    ensures s.Valid() && s.End() == old(s.End())
    ensures var t := DecTag(old(s.Rest()));
            && (ok <==> t.Tagged?)
            && (ok ==> wireType == t.wt && tag == t.tag && s.Rest() == t.rest)
            && (!ok ==> (eof <==> t.End?))
  {
    var temp;
    ok, temp := DecodeVarint32(s);
    if !ok {
      return false, 0, 0, s.bytesLeft == 0;
    }
    if temp == 0 {
      return false, 0, 0, true;
    }
    return true, temp % 8, temp / 8, false;
  }

  /** pb_make_string_substream: the parent gives up the bytes, the substream stands on them. */
  method MakeSubstream(s: IStream) returns (ok: bool, sub: IStream)
    requires s.Valid()
    modifies s
    ensures s.Valid() && s.End() <= old(s.End()) && (ok <==> TakeString(old(s.Rest())).Ok?)
    ensures ok ==> fresh(sub) && sub.Valid() && sub.data == s.data && sub.Rest() == TakeString(old(s.Rest())).v
    ensures ok ==> sub.state == s.state && sub.End() + s.bytesLeft == old(s.End())
    ensures ok ==> s.data[s.state + sub.bytesLeft..][..s.bytesLeft] == TakeString(old(s.Rest())).rest
  {
    var size;
    ok, size := DecodeVarint32(s);
    if !ok {
      return false, s;
    }
    if s.bytesLeft < size {
      return false, s;
    }
    sub := new IStream(s.data, s.state, size);
    assert s.Rest()[..size] == sub.Rest();
    assert s.Rest()[size..] == s.data[s.state + size..][..s.bytesLeft - size];
    s.bytesLeft := s.bytesLeft - size;
    return true, sub;
  }

  /** pb_close_string_substream: skips what the substream left and moves the parent behind it. */
  method CloseSubstream(s: IStream, sub: IStream)
    requires s.Valid() && sub.Valid() && s != sub
    requires sub.End() + s.bytesLeft <= |s.data|
    modifies s, sub
    ensures s.Valid() && s.Rest() == old(s.data[sub.state + sub.bytesLeft..][..s.bytesLeft])
    ensures s.End() == old(sub.End() + s.bytesLeft)
  {
    if sub.bytesLeft != 0 {
      var _, _ := Read(sub, sub.bytesLeft);
    }
    s.state := sub.state;
  }

  // ----- values -----

  /** The casts of pb_dec_varint, pb_dec_uvarint and pb_dec_svarint; false is "integer too large" or a bad size. */
  method CastNumber(f: Field, value: nat) returns (ok: bool, n: int)
    requires value < U64 && (f.ltype.Varint? || f.ltype.UVarint? || f.ltype.SVarint?)
    ensures ok <==> Cast(f, value).Some?
    ensures ok ==> n == Cast(f, value).value
  {
    var svalue: int;
    if f.ltype.Varint? {
      svalue := if f.dataSize == 8 then Signed(value, 8) else Signed(value, 4);
    } else if f.ltype.UVarint? {
      svalue := value;
    } else {
      svalue := if value % 2 == 1 then Signed(U64 - 1 - value / 2, 8) else Signed(value / 2, 8);
    }
    if !IntSize(f.dataSize) {
      return false, 0;
    }
    var clamped := if f.ltype.UVarint? then svalue % Range(f.dataSize) else Signed(svalue, f.dataSize);
    return clamped == svalue, clamped;
  }

  /** pb_decode_fixed32 and pb_decode_fixed64 */
  method DecodeWord(s: IStream, size: nat) returns (ok: bool, n: nat)
    requires s.Valid()
    modifies s
    ensures Consumed(s, ok, Take(old(s.Rest()), size))
    ensures ok ==> n == FromLittleEndian(Take(old(s.Rest()), size).v)
  {
    var bytes;
    ok, bytes := Read(s, size);
    n := FromLittleEndian(bytes);
  }

  /** A length and that many bytes, as pb_dec_bytes and its kin read them; `limit` is checked before the bytes are
      read. */
  method DecodeRaw(s: IStream, limit: nat) returns (ok: bool, b: seq<byte>)
    requires s.Valid()
    modifies s
    ensures var p := TakeString(old(s.Rest()));
            && s.Valid() && s.End() <= old(s.End())
            && (ok <==> p.Ok? && |p.v| <= limit)
            && (ok ==> b == p.v && s.Rest() == p.rest && s.End() == old(s.End()))
  {
    var size;
    b := [];
    ok, size := DecodeVarint32(s);
    if !ok {
      return;
    }
    if size > limit {
      return false, b;
    }
    ok, b := Read(s, size);
  }

  /** pb_dec_submessage.  Repeated and union submessages come with a destination at its defaults. */
  method DecodeSubmessage(s: IStream, fields: seq<Field>, dest: seq<Slot>) returns (ok: bool, m: seq<Slot>)
    requires s.Valid() && WfDesc(fields) && Checkable(fields) && Typed(fields, dest)
    modifies s
    ensures var p := TakeString(old(s.Rest()));
            && s.Valid() && s.End() <= old(s.End())
            && (ok <==> p.Ok? && DecMsg(fields, p.v, dest, {}).Some?)
            && (ok ==> m == DecMsg(fields, p.v, dest, {}).value && s.Rest() == p.rest && s.End() == old(s.End()))
    decreases fields, 5, 0
  {
    var sub;
    m := dest;
    ok, sub := MakeSubstream(s);
    if !ok {
      return;
    }
    ok, m := DecodeNoinit(sub, fields, dest);
    CloseSubstream(s, sub);
  }

  /** PB_DECODERS: one value without its tag, decoded into a destination that holds `dest`. */
  method DecodeValue(s: IStream, f: Field, dest: Value) returns (ok: bool, v: Value)
    requires s.Valid() && WfField(f) && Checkable(f.sub) && TypedValue(f, dest)
    modifies s
    ensures Consumed(s, ok, DecValue(f, old(s.Rest()), dest))
    ensures ok ==> v == DecValue(f, old(s.Rest()), dest).v
    decreases f, 0, 0
  {
    v := dest;
    match f.ltype {
      case Varint | UVarint | SVarint =>
        var value, n;
        ok, value := DecodeVarint(s);
        if ok {
          ok, n := CastNumber(f, value);
          v := Num(n);
        }
      case Fixed32 =>
        var word;
        ok, word := DecodeWord(s, 4);
        v := Num(word);
      case Fixed64 =>
        var word;
        ok, word := DecodeWord(s, 8);
        v := Num(word);
      case Bytes =>
        if f.dataSize < BYTES_HEADER {
          return false, v;
        }
        var b;
        ok, b := DecodeRaw(s, f.dataSize - BYTES_HEADER);
        v := Raw(b);
      case String =>
        if f.dataSize == 0 {
          return false, v;
        }
        var b;
        ok, b := DecodeRaw(s, f.dataSize - 1);
        v := Raw(CString(b));
      case FixedBytes =>
        var b;
        ok, b := DecodeRaw(s, PB_SIZE_MAX);
        if !ok {
          return;
        }
        if |b| == 0 {
          return true, Raw(Zeros(f.dataSize));
        }
        return |b| == f.dataSize, Raw(b);
      case Submessage =>
        var m;
        ok, m := DecodeSubmessage(s, f.sub, dest.slots);
        v := Msg(m);
    }
  }

  /** The packed branch of decode_static_field: entries until the substream or the array is used up. */
  method DecodePackedField(s: IStream, f: Field, have: seq<Value>) returns (ok: bool, items: seq<Value>)
    requires s.Valid() && WfField(f) && Checkable(f.sub) && forall k :: 0 <= k < |have| ==> TypedValue(f, have[k])
    modifies s
    ensures var p := TakeString(old(s.Rest()));
            && s.Valid() && s.End() <= old(s.End())
            && (ok <==> p.Ok? && DecPacked(f, p.v, have).Some?)
            && (ok ==> items == DecPacked(f, p.v, have).value && s.Rest() == p.rest && s.End() == old(s.End()))
    decreases f, 2, 0
  {
    var substream;
    items := have;
    ok, substream := MakeSubstream(s);
    if !ok {
      return;
    }
    ghost var b := substream.Rest();
    DefaultValueTyped(f);
    while substream.bytesLeft > 0 && |items| < f.arraySize
      modifies substream
      invariant substream.Valid() && substream.End() + s.bytesLeft == old(s.End())
      invariant s.data[substream.End()..][..s.bytesLeft] == TakeString(old(s.Rest())).rest
      invariant forall k :: 0 <= k < |items| ==> TypedValue(f, items[k])
      invariant DecPacked(f, b, have) == DecPacked(f, substream.Rest(), items)
      decreases substream.bytesLeft
    {
      var item;
      ok, item := DecodeValue(substream, f, DefaultValue(f));
      if !ok {
        return;
      }
      items := items + [item];
    }
    if substream.bytesLeft != 0 {
      return false, items;
    }
    CloseSubstream(s, substream);
    return true, items;
  }

  /** decode_static_field on entry i of the descriptor */
  method DecodeStaticField(s: IStream, wireType: nat, fields: seq<Field>, i: nat, dest: seq<Slot>)
    returns (ok: bool, m: seq<Slot>)
    requires s.Valid() && WfDesc(fields) && Checkable(fields) && Typed(fields, dest) && i < |fields|
    modifies s
    ensures Consumed(s, ok, DecField(fields, i, wireType, old(s.Rest()), dest))
    ensures ok ==> m == DecField(fields, i, wireType, old(s.Rest()), dest).v
    decreases fields, 0, 0
  {
    var f := fields[i];
    DefaultValueTyped(f);
    assert TypedSlot(f, dest[i]);
    assert Checkable(f.sub);
    m := dest;
    var v;
    match f.htype {
      case Required | Singular =>
        ok, v := DecodeValue(s, f, dest[i].v);
        m := dest[i := One(v)];
      case Optional =>
        ok, v := DecodeValue(s, f, dest[i].v);
        m := dest[i := Opt(true, v)];
      case Repeated =>
        if wireType == WT_STRING && Packable(f.ltype) {
          var items;
          ok, items := DecodePackedField(s, f, dest[i].items);
          m := dest[i := Many(items)];
        } else {
          if |dest[i].items| >= f.arraySize {
            return false, m;
          }
          ok, v := DecodeValue(s, f, DefaultValue(f));
          m := dest[i := Many(dest[i].items + [v])];
        }
      case Oneof =>
        ok, v := DecodeValue(s, f, DefaultValue(f));
        if ok {
          m := SetMember(fields, dest, i, v);
        }
    }
  }

  /** One turn of the decoding loop after the tag. */
  datatype Turn = Stuck | Went(m: seq<Slot>, seen: set<nat>, rest: seq<byte>)

  ghost function TurnOf(d: seq<Field>, wt: nat, tag: nat, s: seq<byte>, m: seq<Slot>, seen: set<nat>): (t: Turn)
    requires WfDesc(d) && Typed(d, m)
    ensures t.Went? ==> Typed(d, t.m) && |t.rest| <= |s|
  {
    match Find(d, tag)
    case Some(i) =>
      var p := DecField(d, i, wt, s, m);
      if p.Ok? then Went(p.v, seen + {i}, p.rest) else Stuck
    case None =>
      var p := SkipField(wt, s);
      if p.Ok? && (d != [] || tag != 0) then Went(m, seen, p.rest) else Stuck
  }

  lemma TurnStep(d: seq<Field>, s: seq<byte>, m: seq<Slot>, seen: set<nat>)
    requires WfDesc(d) && Typed(d, m) && s != [] && DecTag(s).Tagged?
    ensures DecMsg(d, s, m, seen)
         == var t := TurnOf(d, DecTag(s).wt, DecTag(s).tag, DecTag(s).rest, m, seen);
            if t.Went? then DecMsg(d, t.rest, t.m, t.seen) else None
  {
  }

  /** Marks the entry under the iterator, if it is required. */
  method MarkRequired(iter: FieldIter, fieldsSeen: array<nat>, ghost seen: set<nat>)
    requires iter.Valid() && iter.start != []
    requires HoldsBits(fieldsSeen[..], Numbers(iter.start, seen))
    modifies fieldsSeen
    ensures HoldsBits(fieldsSeen[..], Numbers(iter.start, seen + {iter.pos}))
  {
    var d, i := iter.start, iter.pos;
    if d[i].htype.Required? && iter.requiredFieldIndex < MAX_REQUIRED {
      MarkSeen(fieldsSeen, iter.requiredFieldIndex, Numbers(d, seen));
      assert Numbers(d, seen + {i}) == Numbers(d, seen) + {RequiredBefore(d, i)};
    } else {
      assert Numbers(d, seen + {i}) <= Numbers(d, seen) + {RequiredBefore(d, i)};
      assert Numbers(d, seen) <= Numbers(d, seen + {i});
      assert !d[i].htype.Required? ==> Numbers(d, seen + {i}) == Numbers(d, seen);
    }
  }

  /** pb_field_iter_find, against the search on values.  Only the empty descriptor has a tag 0. */
  method Seek(iter: FieldIter, tag: nat) returns (found: bool)
    requires iter.Valid() && WfDesc(iter.start)
    modifies iter
    ensures iter.Valid()
    ensures if iter.start == [] then found <==> tag == 0
            else Find(iter.start, tag) == if found then Some(iter.pos) else None
  {
    found := iter.Find(tag);
    if found && iter.start != [] {
      FindUnique(iter.start, iter.pos);
    }
  }

  /** After the tag: the entry is found, marked and decoded, or the payload is skipped. */
  method DecodeRecord(s: IStream, wireType: nat, tag: nat, iter: FieldIter, fieldsSeen: array<nat>,
                      dest: seq<Slot>, ghost seen: set<nat>)
    returns (ok: bool, m: seq<Slot>, ghost more: set<nat>)
    requires s.Valid() && iter.Valid()
    requires WfDesc(iter.start) && Checkable(iter.start) && Typed(iter.start, dest)
    requires HoldsBits(fieldsSeen[..], Numbers(iter.start, seen))
    modifies s, iter, fieldsSeen
    ensures s.Valid() && s.End() <= old(s.End()) && (ok ==> s.End() == old(s.End()))
    ensures iter.Valid()
    ensures ok ==> HoldsBits(fieldsSeen[..], Numbers(iter.start, more))
    ensures var t := TurnOf(iter.start, wireType, tag, old(s.Rest()), dest, seen);
            if ok then t == Went(m, more, s.Rest()) else t == Stuck
    decreases iter.start, 1, 0
  {
    more, m := seen, dest;
    var found := Seek(iter, tag);
    if !found {
      ok := Skip(s, wireType);
      return;
    }
    if iter.start == [] {
      // The terminator looks like a required integer field of size 0: a varint is read, then its size is refused.
      var _, _ := DecodeVarint(s);
      return false, m, more;
    }
    more := seen + {iter.pos};
    MarkRequired(iter, fieldsSeen, seen);
    ok, m := DecodeStaticField(s, wireType, iter.start, iter.pos, dest);
  }

  datatype Progress = Further | AtEnd | Broken

  /** One pass of the loop of pb_decode_noinit: a record, the end of the message, or an error. */
  method DecodeOne(s: IStream, iter: FieldIter, fieldsSeen: array<nat>, dest: seq<Slot>, ghost seen: set<nat>)
    returns (p: Progress, m: seq<Slot>, ghost more: set<nat>)
    requires s.Valid() && iter.Valid() && s.Rest() != []
    requires WfDesc(iter.start) && Checkable(iter.start) && Typed(iter.start, dest)
    requires HoldsBits(fieldsSeen[..], Numbers(iter.start, seen))
    modifies s, iter, fieldsSeen
    ensures s.Valid() && iter.Valid() && s.End() <= old(s.End()) && (!p.Broken? ==> s.End() == old(s.End()))
    ensures !p.Broken? ==> HoldsBits(fieldsSeen[..], Numbers(iter.start, more))
    ensures p.Further? ==> Typed(iter.start, m) && |s.Rest()| < |old(s.Rest())|
    ensures var r := DecMsg(iter.start, old(s.Rest()), dest, seen);
            match p
            case Further => r == DecMsg(iter.start, s.Rest(), m, more)
            case AtEnd => r == Finish(iter.start, m, more)
            case Broken => r == None
    decreases iter.start, 2, 0
  {
    ghost var rest := s.Rest();
    var tagged, wireType, tag, eof := DecodeTag(s);
    if !tagged {
      return if eof then AtEnd else Broken, dest, seen;
    }
    TurnStep(iter.start, rest, dest, seen);
    var ok;
    ok, m, more := DecodeRecord(s, wireType, tag, iter, fieldsSeen, dest, seen);
    p := if ok then Further else Broken;
  }

  /** The loop of pb_decode_noinit, up to the end of the input or a terminator. */
  method DecodeLoop(s: IStream, iter: FieldIter, fieldsSeen: array<nat>, dest: seq<Slot>)
    returns (ok: bool, m: seq<Slot>, ghost seen: set<nat>)
    requires s.Valid() && iter.Valid()
    requires WfDesc(iter.start) && Checkable(iter.start) && Typed(iter.start, dest)
    requires HoldsBits(fieldsSeen[..], Numbers(iter.start, {}))
    modifies s, iter, fieldsSeen
    ensures s.Valid() && iter.Valid() && s.End() <= old(s.End()) && (ok ==> s.End() == old(s.End()))
    ensures var r := DecMsg(iter.start, old(s.Rest()), dest, {});
            if ok then r == Finish(iter.start, m, seen) && HoldsBits(fieldsSeen[..], Numbers(iter.start, seen))
            else r == None
    decreases iter.start, 3, 0
  {
    m, seen := dest, {};
    while s.bytesLeft != 0
      invariant s.Valid() && s.End() == old(s.End())
      invariant iter.Valid() && Typed(iter.start, m)
      invariant HoldsBits(fieldsSeen[..], Numbers(iter.start, seen))
      invariant DecMsg(iter.start, old(s.Rest()), dest, {}) == DecMsg(iter.start, s.Rest(), m, seen)
      decreases |s.Rest()|
    {
      var p;
      p, m, seen := DecodeOne(s, iter, fieldsSeen, m, seen);
      if !p.Further? {
        return p.AtEnd?, m, seen;
      }
    }
    return true, m, seen;
  }

  /** fields_seen = {0, 0} */
  method NoneSeen() returns (fieldsSeen: array<nat>)
    ensures fresh(fieldsSeen) && HoldsBits(fieldsSeen[..], {})
  {
    fieldsSeen := new nat[2] [0, 0];
    assert fieldsSeen[..] == [0, 0];
    NoBitsHeld();
  }

  /** pb_decode_noinit */
  method DecodeNoinit(s: IStream, fields: seq<Field>, dest: seq<Slot>) returns (ok: bool, m: seq<Slot>)
    requires s.Valid() && WfDesc(fields) && Checkable(fields) && Typed(fields, dest)
    modifies s
    ensures s.Valid() && s.End() <= old(s.End()) && (ok ==> s.End() == old(s.End()))
    ensures var r := DecMsg(fields, old(s.Rest()), dest, {}); (ok <==> r.Some?) && (ok ==> m == r.value)
    decreases fields, 4, 0
  {
    ghost var seen;
    var fieldsSeen := NoneSeen();
    assert Numbers(fields, {}) == {};
    var iter := new FieldIter(fields, 0);
    ok, m, seen := DecodeLoop(s, iter, fieldsSeen, dest);
    if ok {
      var v := CheckRequired(iter, fieldsSeen, seen);
      ok := v.Complete?;
    }
  }

  /** pb_message_set_to_defaults and then pb_decode_noinit */
  method DecodeMessage(s: IStream, fields: seq<Field>) returns (ok: bool, m: seq<Slot>)
    requires s.Valid() && WfDesc(fields) && Checkable(fields)
    modifies s
    ensures var r := Decode(fields, old(s.Rest())); (ok <==> r.Some?) && (ok ==> m == r.value)
  {
    DefaultTyped(fields);
    ok, m := DecodeNoinit(s, fields, Defaults(fields));
  }
}
