/** The encoder of pb_encode.c, statement by statement, proved to write what PbSpec.Encode says. */
module PbEncode {
  import opened Wrappers
  import opened PbTypes
  import opened PbWire
  import opened PbSpec
  import opened PbIter

  /** pb_ostream_t over a memory buffer, or without one: PB_OSTREAM_SIZING only counts. */
  class OStream {
    const buf: array?<byte>        // null stands for callback == NULL
    ghost const base: nat          // where in buf this stream began
    const maxSize: nat
    var state: nat
    var bytesWritten: nat
    ghost var written: seq<byte>   // every byte since the stream began

    ghost predicate Valid()
      reads this, buf
    {
      && bytesWritten == |written|
      && (buf != null ==>
            && base + maxSize <= buf.Length
            && bytesWritten <= maxSize
            && state == base + bytesWritten
            && buf[base..state] == written)
    }

    /** Whether n more bytes can be written. */
    predicate Room(n: int)
      reads this
    {
      buf == null || bytesWritten + n <= maxSize
    }

    constructor Sizing()
      ensures Valid() && buf == null && written == [] && fresh(this)
    {
      buf, base, maxSize, state, bytesWritten, written := null, 0, 0, 0, 0, [];
    }

    /** pb_ostream_from_buffer, and the substream of pb_encode_submessage */
    constructor Over(b: array<byte>, start: nat, size: nat)
      requires start + size <= b.Length
      ensures Valid() && buf == b && base == start && maxSize == size && written == [] && fresh(this)
    {
      buf, base, maxSize, state, bytesWritten, written := b, start, size, start, 0, [];
    }
  }

  /** Nothing in the buffer changed except from the stream's position up to its end. */
  twostate predicate Confined(s: OStream)
    reads s, s.buf
  {
    s.buf != null ==>
      forall k :: 0 <= k < s.buf.Length && (k < old(s.state) || s.base + s.maxSize <= k) ==> s.buf[k] == old(s.buf[k])
  }

  /** The outcome of writing b: it succeeds if and only if there is room, and then b has been appended. */
  twostate predicate Wrote(s: OStream, new ok: bool, new b: Option<seq<byte>>)
    reads s, s.buf
  {
    && s.Valid() && Confined(s)
    && old(s.written) <= s.written
    && (ok <==> b.Some? && old(s.Room(|b.value|)))
    && (ok ==> s.written == old(s.written) + b.value)
  }

  /** pb_write with data */
  method Write(s: OStream, data: seq<byte>) returns (ok: bool)
    requires s.Valid()
    modifies s, s.buf
    ensures Wrote(s, ok, Some(data))
    ensures !ok ==> s.written == old(s.written)
  {
    if s.buf != null {
      if s.bytesWritten + |data| > s.maxSize {
        return false;
      }
      var dest := s.state;
      s.state := dest + |data|;
      for i := 0 to |data|
        modifies s.buf
        invariant s.buf[..dest] == old(s.buf[..s.state])
        invariant s.buf[dest..dest+i] == data[..i]
        invariant forall k :: dest + |data| <= k < s.buf.Length ==> s.buf[k] == old(s.buf[k])
      {
        s.buf[dest + i] := data[i];
      }
      assert s.buf[s.base..s.state] == s.buf[..dest][s.base..] + s.buf[dest..s.state];
      assert old(s.buf[..s.state])[s.base..] == old(s.written);
      assert forall k :: 0 <= k < dest ==> s.buf[k] == s.buf[..dest][k];
    }
    s.bytesWritten := s.bytesWritten + |data|;
    s.written := s.written + data;
    return true;
  }

  /** pb_write with a null pointer on a sizing stream: the bytes are counted, not seen. */
  method Count(s: OStream, count: nat, ghost data: seq<byte>)
    requires s.Valid() && s.buf == null && count == |data|
    modifies s
    ensures s.Valid() && s.written == old(s.written) + data
  {
    s.bytesWritten := s.bytesWritten + count;
    s.written := s.written + data;
  }

  /** pb_encode_varint */
  method EncodeVarint(s: OStream, number: nat) returns (ok: bool)
    requires s.Valid() && number < U64
    modifies s, s.buf
    ensures Wrote(s, ok, Some(EncVarint(number)))
  {
    if number <= 0x7F {
      ok := Write(s, [number]);
      return;
    }
    VarintFits(number);
    var buffer := new byte[10];
    var i := FillVarint(buffer, number);
    ghost var done := buffer[..i];
    buffer[i-1] := buffer[i-1] % 0x80;
    assert buffer[..i] == TopOff(done);
    ok := Write(s, buffer[..i]);
  }

  /** Its loop: seven bits a byte with the top bit set, which the last byte loses afterwards. */
  method FillVarint(buffer: array<byte>, number: nat) returns (i: nat)
    requires number > 0x7F && |EncVarint(number)| <= buffer.Length
    modifies buffer
    ensures i <= buffer.Length && Filled(number, buffer[..i], 0)
  {
    var value := number;
    i := 0;
    while value != 0
      invariant i <= buffer.Length
      invariant Filled(number, buffer[..i], value)
      decreases value
    {
      VarintStep(number, buffer[..i], value);
      buffer[i] := value % 0x80 + 0x80;
      assert buffer[..i+1] == buffer[..i] + [value % 0x80 + 0x80];
      value := value / 0x80;
      i := i + 1;
    }
  }

  /** The loop has produced `done`, all with the top bit, and has `value` left. */
  ghost predicate Filled(number: nat, done: seq<byte>, value: nat) {
    if value != 0 then EncVarint(number) == done + EncVarint(value)
    else done != [] && TopOff(done) == EncVarint(number)
  }

  /** The top bit of the last byte unset. */
  function TopOff(s: seq<byte>): seq<byte>
    requires s != []
  {
    s[..|s|-1] + [s[|s|-1] % 0x80]
  }

  lemma VarintStep(number: nat, done: seq<byte>, value: nat)
    requires value != 0 && Filled(number, done, value)
    ensures |done| < |EncVarint(number)|
    ensures Filled(number, done + [value % 0x80 + 0x80], value / 0x80)
  {
    if value < 128 {
      assert EncVarint(value) == [value];
    } else {
      assert EncVarint(value) == [128 + value % 128] + EncVarint(value / 128);
    }
  }

  /** pb_encode_svarint */
  method EncodeSVarint(s: OStream, value: int) returns (ok: bool)
    requires s.Valid() && Signed(value, 8) == value
    modifies s, s.buf
    ensures Wrote(s, ok, Some(EncVarint(Zigzag(value))))
  {
    ZigzagInverse(value);
    var zigzagged: nat := 2 * (value % U64) % U64;
    if value < 0 {
      zigzagged := U64 - 1 - zigzagged;
    }
    ok := EncodeVarint(s, zigzagged);
  }

  /** pb_encode_fixed32 */
  method EncodeFixed32(s: OStream, val: nat) returns (ok: bool)
    requires s.Valid() && val < U32
    modifies s, s.buf
    ensures Wrote(s, ok, Some(LittleEndian(val, 4)))
  {
    var bytes := [val % 0x100, val / 0x100 % 0x100, val / 0x1_0000 % 0x100, val / 0x100_0000 % 0x100];
    FourBytes(val);
    ok := Write(s, bytes);
  }

  lemma FourBytes(v: nat)
    ensures LittleEndian(v, 4) == [v % 0x100, v / 0x100 % 0x100, v / 0x1_0000 % 0x100, v / 0x100_0000 % 0x100]
  {
    assert v / 0x100 / 0x100 == v / 0x1_0000 && v / 0x1_0000 / 0x100 == v / 0x100_0000;
    assert LittleEndian(v, 4) == [v % 0x100] + LittleEndian(v / 0x100, 3);
    assert LittleEndian(v / 0x100, 3) == [v / 0x100 % 0x100] + LittleEndian(v / 0x1_0000, 2);
    assert LittleEndian(v / 0x1_0000, 2) == [v / 0x1_0000 % 0x100] + LittleEndian(v / 0x100_0000, 1);
  }

  /** pb_encode_fixed64 */
  method EncodeFixed64(s: OStream, val: nat) returns (ok: bool)
    requires s.Valid() && val < U64
    modifies s, s.buf
    ensures Wrote(s, ok, Some(LittleEndian(val, 8)))
  {
    var bytes := [val % 0x100, val / 0x100 % 0x100, val / 0x1_0000 % 0x100, val / 0x100_0000 % 0x100,
                  val / 0x1_0000_0000 % 0x100, val / 0x100_0000_0000 % 0x100,
                  val / 0x1_0000_0000_0000 % 0x100, val / 0x100_0000_0000_0000 % 0x100];
    EightBytes(val);
    HighBytes(val);
    ok := Write(s, bytes);
  }

  lemma EightBytes(v: nat)
    ensures LittleEndian(v, 8)
         == [v % 0x100, v / 0x100 % 0x100, v / 0x1_0000 % 0x100, v / 0x100_0000 % 0x100]
          + LittleEndian(v / 0x1_0000_0000, 4)
  {
    assert v / 0x100 / 0x100 == v / 0x1_0000 && v / 0x1_0000 / 0x100 == v / 0x100_0000;
    assert v / 0x100_0000 / 0x100 == v / 0x1_0000_0000;
    assert LittleEndian(v, 8) == [v % 0x100] + LittleEndian(v / 0x100, 7);
    assert LittleEndian(v / 0x100, 7) == [v / 0x100 % 0x100] + LittleEndian(v / 0x1_0000, 6);
    assert LittleEndian(v / 0x1_0000, 6) == [v / 0x1_0000 % 0x100] + LittleEndian(v / 0x100_0000, 5);
    assert LittleEndian(v / 0x100_0000, 5) == [v / 0x100_0000 % 0x100] + LittleEndian(v / 0x1_0000_0000, 4);
  }

  lemma HighBytes(v: nat)
    ensures LittleEndian(v / 0x1_0000_0000, 4)
         == [v / 0x1_0000_0000 % 0x100, v / 0x100_0000_0000 % 0x100,
             v / 0x1_0000_0000_0000 % 0x100, v / 0x100_0000_0000_0000 % 0x100]
  {
    FourBytes(v / 0x1_0000_0000);
    assert v / 0x1_0000_0000 / 0x100 == v / 0x100_0000_0000;
    assert v / 0x1_0000_0000 / 0x1_0000 == v / 0x1_0000_0000_0000;
    assert v / 0x1_0000_0000 / 0x100_0000 == v / 0x100_0000_0000_0000;
  }

  /** pb_encode_tag */
  method EncodeTag(s: OStream, wireType: nat, fieldNumber: nat) returns (ok: bool)
    requires s.Valid() && wireType < 8 && fieldNumber < U32
    modifies s, s.buf
    ensures Wrote(s, ok, Some(EncTag(wireType, fieldNumber)))
  {
    ok := EncodeVarint(s, 8 * fieldNumber + wireType);
  }

  /** pb_encode_tag_for_field */
  method EncodeTagForField(s: OStream, f: Field) returns (ok: bool)
    requires s.Valid() && WfField(f)
    modifies s, s.buf
    ensures Wrote(s, ok, Some(TagOf(f)))
  {
    var wireType;
    match f.ltype {
      case Varint | UVarint | SVarint => wireType := WT_VARINT;
      case Fixed32 => wireType := WT_32BIT;
      case Fixed64 => wireType := WT_64BIT;
      case Bytes | String | Submessage | FixedBytes => wireType := WT_STRING;
    }
    ok := EncodeTag(s, wireType, f.tag);
  }

  /** pb_encode_string */
  method EncodeString(s: OStream, buffer: seq<byte>) returns (ok: bool)
    requires s.Valid() && |buffer| < U64
    modifies s, s.buf
    ensures Wrote(s, ok, Some(LenPrefixed(buffer)))
  {
    ok := EncodeVarint(s, |buffer|);
    if ok {
      ok := Write(s, buffer);
    }
  }

  /** pb_encode_submessage: a sizing pass for the length, then the data through a substream of exactly that size.
      The final comparison of the two sizes never fails. */
  method EncodeSubmessage(s: OStream, fields: seq<Field>, src: seq<Slot>) returns (ok: bool)
    requires s.Valid() && WfDesc(fields) && Typed(fields, src) && Sized(fields, src)
    requires Encode(fields, src).Some? ==> |Encode(fields, src).value| < U64
    modifies s, s.buf
    ensures Wrote(s, ok, var b := Encode(fields, src); if b.Some? then Some(LenPrefixed(b.value)) else None)
    decreases fields, 3, 0
  {
    var sizing := new OStream.Sizing();
    var sized := EncodeMessage(sizing, fields, src);
    if !sized {
      return false;
    }
    var size := sizing.bytesWritten;
    ghost var b := Encode(fields, src).value;
    ok := EncodeVarint(s, size);
    if !ok {
      return;
    }
    if s.buf == null {
      Count(s, size, b);
      return true;
    }
    if s.bytesWritten + size > s.maxSize {
      return false;
    }
    ok := EncodeSized(s, fields, src, size);
  }

  /** The writing pass, into a substream that can hold `size` bytes and no more. */
  method EncodeSized(s: OStream, fields: seq<Field>, src: seq<Slot>, size: nat) returns (ok: bool)
    requires s.Valid() && s.buf != null && s.Room(size) && WfDesc(fields) && Typed(fields, src) && Sized(fields, src)
    requires Encode(fields, src).Some? && |Encode(fields, src).value| == size
    modifies s, s.buf
    ensures ok && s.Valid() && Confined(s) && s.written == old(s.written) + Encode(fields, src).value
    decreases fields, 2, 0
  {
    var substream := new OStream.Over(s.buf, s.state, size);
    ghost var before := s.buf[..];
    var status := EncodeMessage(substream, fields, src);
    Extended(before, s.buf[..], s.base, s.state, substream.state);
    s.bytesWritten := s.bytesWritten + substream.bytesWritten;
    s.state := substream.state;
    s.written := s.written + substream.written;
    if substream.bytesWritten != size {
      return false;
    }
    return status;
  }

  lemma Extended(before: seq<byte>, after: seq<byte>, base: nat, from: nat, to: nat)
    requires base <= from <= to <= |before| == |after|
    requires forall k :: 0 <= k < from ==> after[k] == before[k]
    ensures after[base..to] == before[base..from] + after[from..to]
  {
  }

  /** PB_ENCODERS: one value without its tag. */
  method EncodeValue(s: OStream, f: Field, src: Value) returns (ok: bool)
    requires s.Valid() && WfField(f) && TypedValue(f, src) && SizedValue(f, src)
    modifies s, s.buf
    ensures Wrote(s, ok, EncValue(f, src))
    decreases f, 0, 0
  {
    match f.ltype {
      case Varint =>
        if f.dataSize == 1 || f.dataSize == 2 || f.dataSize == 4 || f.dataSize == 8 {
          ok := EncodeVarint(s, src.n % U64);
        } else {
          ok := false;
        }
      case UVarint =>
        if f.dataSize == 1 || f.dataSize == 2 || f.dataSize == 4 || f.dataSize == 8 {
          ok := EncodeVarint(s, src.n);
        } else {
          ok := false;
        }
      case SVarint =>
        if f.dataSize == 1 || f.dataSize == 2 || f.dataSize == 4 || f.dataSize == 8 {
          IntRoundTrip(src.n, f.dataSize);
          ok := EncodeSVarint(s, src.n);
        } else {
          ok := false;
        }
      case Fixed32 => ok := EncodeFixed32(s, src.n);
      case Fixed64 => ok := EncodeFixed64(s, src.n);
      case Bytes =>
        if |src.b| + BYTES_HEADER > f.dataSize {
          return false;
        }
        ok := EncodeString(s, src.b);
      case String => ok := EncodeString(s, src.b);
      case FixedBytes => ok := EncodeString(s, src.b);
      case Submessage => ok := EncodeSubmessage(s, f.sub, src.slots);
    }
  }

  /** The loop over the entries of a packed array. */
  method EncodeEntries(s: OStream, f: Field, items: seq<Value>) returns (ok: bool)
    requires s.Valid() && WfField(f)
    requires forall k :: 0 <= k < |items| ==> TypedValue(f, items[k]) && SizedValue(f, items[k])
    modifies s, s.buf
    ensures Wrote(s, ok, EncPacked(f, items))
    decreases f, 1, 0
  {
    ghost var done: seq<byte> := [];
    assert items[0..] == items;
    CatNothing(EncPacked(f, items));
    for i := 0 to |items|
      invariant s.Valid() && Confined(s)
      invariant s.written == old(s.written) + done
      invariant EncPacked(f, items) == Cat(Some(done), EncPacked(f, items[i..]))
    {
      assert items[i..][0] == items[i] && items[i..][1..] == items[i+1..];
      CatAssociative(done, EncValue(f, items[i]), EncPacked(f, items[i+1..]));
      ok := EncodeValue(s, f, items[i]);
      if !ok {
        return;
      }
      done := done + EncValue(f, items[i]).value;
    }
    assert items[|items|..] == [];
    return true;
  }

  lemma CatAssociative(a: seq<byte>, b: Option<seq<byte>>, c: Option<seq<byte>>)
    ensures Cat(Some(a), Cat(b, c)) == if b.Some? then Cat(Some(a + b.value), c) else None
  {
    if b.Some? && c.Some? {
      assert a + (b.value + c.value) == a + b.value + c.value;
    }
  }

  lemma CatNothing(b: Option<seq<byte>>)
    ensures Cat(Some([]), b) == b
  {
    if b.Some? {
      assert [] + b.value == b.value;
    }
  }

  /** The loop over an array that is not packed: a tag in front of every entry. */
  method EncodeTaggedEntries(s: OStream, f: Field, items: seq<Value>) returns (ok: bool)
    requires s.Valid() && WfField(f)
    requires forall k :: 0 <= k < |items| ==> TypedValue(f, items[k]) && SizedValue(f, items[k])
    modifies s, s.buf
    ensures Wrote(s, ok, EncUnpacked(f, items))
    decreases f, 2, 0
  {
    ghost var done: seq<byte> := [];
    assert items[0..] == items;
    CatNothing(EncUnpacked(f, items));
    for i := 0 to |items|
      invariant s.Valid() && Confined(s)
      invariant s.written == old(s.written) + done
      invariant EncUnpacked(f, items) == Cat(Some(done), EncUnpacked(f, items[i..]))
    {
      assert items[i..][0] == items[i] && items[i..][1..] == items[i+1..];
      CatAssociative(done, EncTagged(f, items[i]), EncUnpacked(f, items[i+1..]));
      ok := EncodeTagged(s, f, items[i]);
      if !ok {
        return;
      }
      done := done + EncTagged(f, items[i]).value;
    }
    assert items[|items|..] == [];
    return true;
  }

  /** pb_encode_tag_for_field and then the encoder of the type */
  method EncodeTagged(s: OStream, f: Field, src: Value) returns (ok: bool)
    requires s.Valid() && WfField(f) && TypedValue(f, src) && SizedValue(f, src)
    modifies s, s.buf
    ensures Wrote(s, ok, EncTagged(f, src))
    decreases f, 1, 0
  {
    ok := EncodeTagForField(s, f);
    if ok {
      ok := EncodeValue(s, f, src);
    }
  }

  lemma {:induction false} FixedSizes(f: Field, items: seq<Value>)
    requires WfField(f) && forall k :: 0 <= k < |items| ==> TypedValue(f, items[k])
    ensures f.ltype.Fixed32? ==> EncPacked(f, items).Some? && |EncPacked(f, items).value| == 4 * |items|
    ensures f.ltype.Fixed64? ==> EncPacked(f, items).Some? && |EncPacked(f, items).value| == 8 * |items|
    decreases |items|
  {
    if items != [] {
      FixedSizes(f, items[1..]);
    }
  }

  /** encode_array */
  method EncodeArray(s: OStream, f: Field, items: seq<Value>) returns (ok: bool)
    requires s.Valid() && WfField(f)
    requires forall k :: 0 <= k < |items| ==> TypedValue(f, items[k]) && SizedValue(f, items[k])
    requires EncPacked(f, items).Some? ==> |EncPacked(f, items).value| < U64
    modifies s, s.buf
    ensures Wrote(s, ok, EncArray(f, items))
    decreases f, 3, 0
  {
    var count := |items|;
    if count == 0 {
      return true;
    }
    if count > f.arraySize {
      return false;
    }
    if !Packable(f.ltype) {
      ok := EncodeTaggedEntries(s, f, items);
      return;
    }
    ok := EncodeTag(s, WT_STRING, f.tag);
    if ok {
      ok := EncodePackedData(s, f, items);
    }
  }

  /** The length of a packed array, found by a sizing pass where it is not fixed, and then its entries. */
  method EncodePackedData(s: OStream, f: Field, items: seq<Value>) returns (ok: bool)
    requires s.Valid() && WfField(f)
    requires forall k :: 0 <= k < |items| ==> TypedValue(f, items[k]) && SizedValue(f, items[k])
    requires EncPacked(f, items).Some? ==> |EncPacked(f, items).value| < U64
    modifies s, s.buf
    ensures Wrote(s, ok, var b := EncPacked(f, items); if b.Some? then Some(LenPrefixed(b.value)) else None)
    decreases f, 2, 0
  {
    FixedSizes(f, items);
    var size := |items| * (if f.ltype.Fixed32? then 4 else 8);
    if !f.ltype.Fixed32? && !f.ltype.Fixed64? {
      var sizestream := new OStream.Sizing();
      var sized := EncodeEntries(sizestream, f, items);
      if !sized {
        return false;
      }
      size := sizestream.bytesWritten;
    }
    ok := EncodeVarint(s, size);
    if !ok {
      return;
    }
    if s.buf == null {
      Count(s, size, EncPacked(f, items).value);
      return true;
    }
    ok := EncodeEntries(s, f, items);
  }

  /** encode_basic_field */
  method EncodeBasicField(s: OStream, f: Field, slot: Slot) returns (ok: bool)
    requires s.Valid() && WfField(f) && TypedSlot(f, slot) && SizedField(f, slot)
    modifies s, s.buf
    ensures Wrote(s, ok, EncField(f, slot))
    decreases f, 4, 0
  {
    ghost var vs := Carried(f, slot);
    match f.htype {
      case Required =>
        assert vs[0] == slot.v;
        ok := EncodeTagged(s, f, slot.v);
      case Optional =>
        if !slot.has {
          return true;
        }
        assert vs[0] == slot.v;
        ok := EncodeTagged(s, f, slot.v);
      case Singular =>
        if IsZero(f, slot.v) {
          return true;
        }
        assert vs[0] == slot.v;
        ok := EncodeTagged(s, f, slot.v);
      case Repeated =>
        assert slot.items != [] ==> vs == slot.items;
        ok := EncodeArray(s, f, slot.items);
      case Oneof =>
        if slot.held.None? {
          return true;
        }
        assert vs[0] == slot.held.value;
        ok := EncodeTagged(s, f, slot.held.value);
    }
  }

  /** `done` is what fields before i have written; with the rest it makes the whole message. */
  ghost predicate Progress(fields: seq<Field>, src: seq<Slot>, i: nat, done: seq<byte>)
    requires WfDesc(fields) && Typed(fields, src) && i <= |fields|
  {
    Encode(fields, src) == Cat(Some(done), EncFrom(fields, src, i))
  }

  lemma AllWritten(fields: seq<Field>, src: seq<Slot>, done: seq<byte>)
    requires WfDesc(fields) && Typed(fields, src) && Progress(fields, src, |fields|, done)
    ensures Encode(fields, src) == Some(done)
  {
    assert done + [] == done;
  }

  /** One turn of pb_encode's loop. */
  method EncodeAt(s: OStream, fields: seq<Field>, src: seq<Slot>, i: nat, ghost done: seq<byte>)
    returns (ok: bool, ghost more: seq<byte>)
    requires s.Valid() && WfDesc(fields) && Typed(fields, src) && Sized(fields, src) && i < |fields|
    requires Progress(fields, src, i, done)
    modifies s, s.buf
    ensures s.Valid() && Confined(s) && old(s.written) + more == s.written
    ensures ok ==> Progress(fields, src, i + 1, done + more)
    ensures !ok ==> var b := Encode(fields, src); b.Some? ==> !old(s.Room(|b.value| - |done|))
    decreases fields, 0, 1
  {
    assert TypedSlot(fields[i], src[i]);
    more := s.written;
    ok := EncodeBasicField(s, fields[i], src[i]);
    more := s.written[|more|..];
    CatAssociative(done, EncField(fields[i], src[i]), EncFrom(fields, src, i + 1));
  }

  /** pb_encode: the fields in the order of the descriptor.  Into a buffer it succeeds if and only if the message can
      be encoded and the buffer has room for it, and it never touches anything outside the buffer's free part. */
  method EncodeMessage(s: OStream, fields: seq<Field>, src: seq<Slot>) returns (ok: bool)
    requires s.Valid() && WfDesc(fields) && Typed(fields, src) && Sized(fields, src)
    modifies s, s.buf
    ensures Wrote(s, ok, Encode(fields, src))
    decreases fields, 1, 0
  {
    var iter := new FieldIter(fields, 0);
    if fields == [] {
      return true;
    }
    ok := EncodeFields(s, src, iter);
  }

  /** The loop of pb_encode. */
  method EncodeFields(s: OStream, src: seq<Slot>, iter: FieldIter) returns (ok: bool)
    requires s.Valid() && iter.Valid() && iter.pos == 0 && iter.start != []
    requires WfDesc(iter.start) && Typed(iter.start, src) && Sized(iter.start, src)
    modifies s, s.buf, iter
    ensures Wrote(s, ok, Encode(iter.start, src))
    decreases iter.start, 0, 2
  {
    ghost var done, more: seq<byte> := [], [];
    CatNothing(Encode(iter.start, src));
    var again := true;
    while again
      invariant iter.Valid() && s.Valid() && Confined(s)
      invariant s.written == old(s.written) + done
      invariant Progress(iter.start, src, if again then iter.pos else |iter.start|, done)
      decreases again, |iter.start| - iter.pos
    {
      ok, more := EncodeAt(s, iter.start, src, iter.pos, done);
      if !ok {
        return;
      }
      done := done + more;
      again := iter.Next();
    }
    AllWritten(iter.start, src, done);
    return true;
  }

  /** pb_get_encoded_size: exactly the number of bytes that pb_encode writes. */
  method GetEncodedSize(fields: seq<Field>, src: seq<Slot>) returns (ok: bool, size: nat)
    requires WfDesc(fields) && Typed(fields, src) && Sized(fields, src)
    ensures ok <==> Encode(fields, src).Some?
    ensures ok ==> size == |Encode(fields, src).value|
  {
    var stream := new OStream.Sizing();
    ok := EncodeMessage(stream, fields, src);
    size := stream.bytesWritten;
  }

  /** Encoding into a buffer: it works if and only if the buffer has at least the size that the sizing pass reports,
      and then the buffer starts with the encoding. */
  method EncodeToBuffer(buf: array<byte>, fields: seq<Field>, src: seq<Slot>) returns (ok: bool, length: nat)
    requires WfDesc(fields) && Typed(fields, src) && Sized(fields, src)
    modifies buf
    ensures ok <==> Encode(fields, src).Some? && |Encode(fields, src).value| <= buf.Length
    ensures ok ==> length <= buf.Length && buf[..length] == Encode(fields, src).value
  {
    var stream := new OStream.Over(buf, 0, buf.Length);
    ok := EncodeMessage(stream, fields, src);
    length := stream.bytesWritten;
  }
}
