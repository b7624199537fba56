/** What the decoder makes of input that pb_encode need not have written: other encoders' forms, missing fields, values
    out of range and broken records. */
module PbInput {
  import opened Wrappers
  import opened PbTypes
  import opened PbWire
  import opened PbSpec
  import opened PbEvolve
  import Bits

  // ----- repeated fields in any form -----

  /** One record of a repeated field: several entries packed, or a single one with its own tag. */
  datatype Record = Packed(items: seq<Value>) | Single(v: Value)

  function EntriesOf(r: Record): seq<Value> { if r.Packed? then r.items else [r.v] }

  ghost predicate RecordOk(f: Field, r: Record)
    requires WfField(f)
  {
    match r
    case Packed(items) =>
      && Packable(f.ltype) && (forall k :: 0 <= k < |items| ==> TypedValue(f, items[k]))
      && EncPacked(f, items).Some? && |EncPacked(f, items).value| < U32
    case Single(v) => TypedValue(f, v) && EncTagged(f, v).Some? && |EncTagged(f, v).value| < U32
  }

  function RecordBytes(f: Field, r: Record): seq<byte>
    requires WfField(f) && RecordOk(f, r)
  {
    match r
    case Packed(items) => PackedRecord(f, EncPacked(f, items).value)
    case Single(v) => EncTagged(f, v).value
  }

  ghost predicate AllOk(f: Field, rs: seq<Record>)
    requires WfField(f)
  {
    forall k :: 0 <= k < |rs| ==> RecordOk(f, rs[k])
  }

  function AllBytes(f: Field, rs: seq<Record>): seq<byte>
    requires WfField(f) && AllOk(f, rs)
  {
    if rs == [] then [] else RecordBytes(f, rs[0]) + AllBytes(f, rs[1..])
  }

  function AllEntries(rs: seq<Record>): seq<Value> {
    if rs == [] then [] else EntriesOf(rs[0]) + AllEntries(rs[1..])
  }

  lemma {:induction false} EntriesTyped(f: Field, rs: seq<Record>)
    requires WfField(f) && AllOk(f, rs)
    ensures forall k :: 0 <= k < |AllEntries(rs)| ==> TypedValue(f, AllEntries(rs)[k])
  {
    if rs != [] {
      assert RecordOk(f, rs[0]);
      EntriesTyped(f, rs[1..]);
    }
  }

  lemma {:induction false} AppendJoin(f': Field, f: Field, have: seq<Value>, a: seq<Value>, b: seq<Value>)
    requires WfField(f') && WfField(f) && SameField(f', f)
    requires forall k :: 0 <= k < |have| ==> TypedValue(f', have[k])
    requires forall k :: 0 <= k < |a| ==> TypedValue(f, a[k])
    requires forall k :: 0 <= k < |b| ==> TypedValue(f, b[k])
    ensures Append(f', f, have, a + b)
         == var r := Append(f', f, have, a); if r.Some? then Append(f', f, r.value, b) else None
    decreases |a|
  {
    if a == [] {
      assert a + b == b;
    } else {
      assert (a + b)[0] == a[0] && (a + b)[1..] == a[1..] + b;
      if |have| < f'.arraySize {
        DefaultValueTyped(f');
        var w := MergeValue(f', f, DefaultValue(f'), a[0]);
        if w.Some? { AppendJoin(f', f, have + [w.value], a[1..], b); }
      }
    }
  }

  lemma PutJoin(d': seq<Field>, i': nat, f: Field, m: seq<Slot>, a: seq<Value>, b: seq<Value>)
    requires WfDesc(d') && WfField(f) && i' < |d'| && SameField(d'[i'], f) && Typed(d', m) && f.htype.Repeated?
    requires forall k :: 0 <= k < |a| ==> TypedValue(f, a[k])
    requires forall k :: 0 <= k < |b| ==> TypedValue(f, b[k])
    ensures PutItems(d', i', f, m, a + b)
         == var r := PutItems(d', i', f, m, a); if r.Some? then PutItems(d', i', f, r.value, b) else None
  {
    assert TypedSlot(d'[i'], m[i']);
    AppendJoin(d'[i'], f, m[i'].items, a, b);
    var r := Append(d'[i'], f, m[i'].items, a);
    if r.Some? {
      var c := Append(d'[i'], f, r.value, b);
      assert c.Some? ==> m[i' := Many(r.value)][i' := Many(c.value)] == m[i' := Many(c.value)];
    }
  }

  /** One record, packed or not, appends its entries. */
  lemma RecordDecodes(d': seq<Field>, i': nat, f: Field, r: Record, rest: seq<byte>, m: seq<Slot>, seen: set<nat>)
    requires WfDesc(d') && WfField(f) && Typed(d', m) && f.htype.Repeated? && RecordOk(f, r)
    requires Find(d', f.tag) == Some(i') && SameField(d'[i'], f)
    ensures DecMsg(d', RecordBytes(f, r) + rest, m, seen)
         == var m' := PutItems(d', i', f, m, EntriesOf(r));
            if m'.Some? then DecMsg(d', rest, m'.value, seen + {i'}) else None
  {
    match r
    case Packed(items) => PackedRecordDecodes(d', f, items, rest, m, seen);
    case Single(v) => EntryDecodes(d', f, v, rest, m, seen);
  }

  /** A repeated field may come packed, entry by entry, or in any mixture of both, and in several records: the entries
      are appended in their order, and it fails exactly if they do not fit. */
  lemma {:induction false} MixedDecodes(d': seq<Field>, i': nat, f: Field, rs: seq<Record>, rest: seq<byte>,
                                        m: seq<Slot>, seen: set<nat>)
    requires WfDesc(d') && WfField(f) && Typed(d', m) && f.htype.Repeated? && AllOk(f, rs)
    requires Find(d', f.tag) == Some(i') && SameField(d'[i'], f)
    ensures forall k :: 0 <= k < |AllEntries(rs)| ==> TypedValue(f, AllEntries(rs)[k])
    ensures DecMsg(d', AllBytes(f, rs) + rest, m, seen)
         == var m' := PutItems(d', i', f, m, AllEntries(rs));
            if m'.Some? then DecMsg(d', rest, m'.value, if rs == [] then seen else seen + {i'}) else None
    decreases |rs|
  {
    EntriesTyped(f, rs);
    if rs == [] {
      assert TypedSlot(d'[i'], m[i']);
      assert m[i' := Many(m[i'].items)] == m;
      assert [] + rest == rest;
    } else {
      assert RecordOk(f, rs[0]);
      EntriesTyped(f, rs[1..]);
      var more := AllBytes(f, rs[1..]);
      assert AllBytes(f, rs) + rest == RecordBytes(f, rs[0]) + (more + rest);
      RecordDecodes(d', i', f, rs[0], more + rest, m, seen);
      PutJoin(d', i', f, m, EntriesOf(rs[0]), AllEntries(rs[1..]));
      var m1 := PutItems(d', i', f, m, EntriesOf(rs[0]));
      if m1.Some? {
        MixedDecodes(d', i', f, rs[1..], rest, m1.value, seen + {i'});
        assert seen + {i'} + {i'} == seen + {i'};
      }
    }
  }

  /** An array of a type that can be packed is written as a single length-delimited record. */
  lemma ArrayIsOneRecord(f: Field, items: seq<Value>, rest: seq<byte>)
    requires WfField(f) && items != [] && Packable(f.ltype) && forall k :: 0 <= k < |items| ==> TypedValue(f, items[k])
    requires EncArray(f, items).Some? && |EncArray(f, items).value| < U32
    ensures var t := DecTag(EncArray(f, items).value + rest);
            t.Tagged? && t.wt == WT_STRING && t.tag == f.tag && SkipField(WT_STRING, t.rest) == Ok((), rest)
  {
    var b := EncPacked(f, items).value;
    assert EncArray(f, items).value + rest == EncTag(WT_STRING, f.tag) + (LenPrefixed(b) + rest);
    TagRoundTrip(WT_STRING, f.tag, LenPrefixed(b) + rest);
    StringRoundTrip(b, rest);
  }

  /** A field takes no bytes at all in exactly these cases. */
  lemma NothingWrittenIff(f: Field, s: Slot)
    requires WfField(f) && TypedSlot(f, s)
    ensures EncField(f, s) == Some([]) <==>
              || (f.htype.Optional? && !s.has)
              || (f.htype.Repeated? && s.items == [])
              || (f.htype.Oneof? && s.held == None)
              || (f.htype.Singular? && (s.v == Num(0) || s.v == Raw([])))
  {
    if f.htype.Repeated? && s.items != [] {
      if Packable(f.ltype) {
        assert |EncTag(WT_STRING, f.tag)| > 0;
      } else if EncUnpacked(f, s.items).Some? {
        assert |EncTagged(f, s.items[0]).value| > 0;
      }
    }
  }

  // ----- integers -----

  /** A negative number is written as a 64-bit two's complement number, whatever the size of its field, and so takes
      ten bytes; what is written has the same value for a reader that takes the field to be wider. */
  lemma SignExtended(f: Field, v: Value, rest: seq<byte>)
    requires WfField(f) && TypedValue(f, v) && f.ltype.Varint? && EncValue(f, v).Some?
    ensures var p := DecVarint64(EncValue(f, v).value + rest); p.Ok? && p.rest == rest && Signed(p.v, 8) == v.n
    ensures v.n < 0 ==> |EncValue(f, v).value| == 10
  {
    SignedWidens(v.n, f.dataSize);
    SignedOfWord(v.n);
    VarintRoundTrip(v.n % U64, rest);
    if v.n < 0 {
      assert v.n % U64 >= U64 / 2;
      Pow128Small();
      assert Pow128(10) == 128 * Pow128(9);
      VarintSize(v.n % U64, 9);
      VarintFits(v.n % U64);
    }
  }

  lemma Congruent(v: int, n: int)
    ensures (v - n) % U32 == 0 <==> v % U32 == n % U32
    ensures (v - n) % U64 == 0 <==> v % U64 == n % U64
  {
    CongruentBy(v, n, U32);
    CongruentBy(v, n, U64);
  }

  lemma CongruentBy(v: int, n: int, m: nat)
    requires m > 0
    ensures (v - n) % m == 0 <==> v % m == n % m
  {
    var q, r := v / m - n / m, v % m - n % m;
    assert v - n == m * q + r by { assert m * q == m * (v / m) - m * (n / m); }
    var e := (v - n) / m - q;
    assert m * ((v - n) / m) == m * q + m * e;
    Bits.Multiple(m, e);
  }

  lemma SignedUnique(v: int, size: nat, n: int)
    requires (size == 4 || size == 8) && Signed(n, size) == n
    ensures Signed(v, size) == n <==> v % Range(size) == n % Range(size)
  {
  }

  /** Which numbers pb_dec_varint stores: those that fit the field and agree with what came, in 64 bits, or in 32 bits
      if the field is smaller than that. */
  lemma SignedAccepted(v: nat, size: nat, n: int)
    requires v < U64
    ensures CastSigned(v, size) == Some(n) <==>
              IntSize(size) && Signed(n, size) == n && (v - n) % (if size == 8 then U64 else U32) == 0
  {
    Congruent(v, n);
    if IntSize(size) && Signed(n, size) == n {
      SignedWidens(n, size);
      SignedUnique(v, if size == 8 then 8 else 4, n);
    } else if CastSigned(v, size) == Some(n) {
      assert false;
    }
  }

  lemma UnsignedAccepted(v: nat, size: nat, n: int)
    ensures CastUnsigned(v, size) == Some(n) <==> IntSize(size) && n == v < Range(size)
  {
  }

  /** pb_dec_svarint: the numbers of the field in the order 0, -1, 1, -2, ... */
  lemma ZigzagAccepted(v: nat, size: nat, n: int)
    requires v < U64
    ensures CastZigzag(v, size) == Some(n) <==>
              IntSize(size) && Signed(n, size) == n && v == if n < 0 then -2 * n - 1 else 2 * n
  {
    var k := if v % 2 == 1 then -1 - v / 2 else v / 2;
    assert UnZigzag(v) == k;
    assert v == if k < 0 then -2 * k - 1 else 2 * k;
  }

  /** Whether a field of this type takes n for a varint v. */
  predicate Takes(f: Field, v: nat, n: int) {
    && IntSize(f.dataSize)
    && (if f.ltype.UVarint? then n == v < Range(f.dataSize)
        else
          && Signed(n, f.dataSize) == n
          && if f.ltype.Varint? then (v - n) % (if f.dataSize == 8 then U64 else U32) == 0
             else v == if n < 0 then -2 * n - 1 else 2 * n)
  }

  /** An integer field takes a number if and only if it is in its range: anything else is an error. */
  lemma IntegerAccepted(f: Field, v: nat, rest: seq<byte>, was: Value, n: int)
    requires f.ltype.Varint? || f.ltype.UVarint? || f.ltype.SVarint?
    requires WfField(f) && TypedValue(f, was) && v < U64
    ensures DecValue(f, EncVarint(v) + rest, was) == Ok(Num(n), rest) <==> Takes(f, v, n)
    ensures DecValue(f, EncVarint(v) + rest, was).Ok? ==> exists k :: Takes(f, v, k)
  {
    VarintRoundTrip(v, rest);
    SignedAccepted(v, f.dataSize, n);
    UnsignedAccepted(v, f.dataSize, n);
    ZigzagAccepted(v, f.dataSize, n);
    if Cast(f, v).Some? {
      var k := Cast(f, v).value;
      SignedAccepted(v, f.dataSize, k);
      UnsignedAccepted(v, f.dataSize, k);
      ZigzagAccepted(v, f.dataSize, k);
      assert Takes(f, v, k);
    }
  }

  // ----- strings and bytes -----

  /** What is longer than its field is refused; an empty field of fixed length is filled with zeros. */
  lemma RawAccepted(f: Field, b: seq<byte>, rest: seq<byte>, was: Value)
    requires f.ltype.Bytes? || f.ltype.String? || f.ltype.FixedBytes?
    requires WfField(f) && TypedValue(f, was) && |b| < U32
    ensures var p := DecValue(f, LenPrefixed(b) + rest, was);
            && (f.ltype.Bytes? ==> p == if |b| + BYTES_HEADER <= f.dataSize then Ok(Raw(b), rest) else Fail)
            && (f.ltype.String? ==> p == if |b| < f.dataSize then Ok(Raw(CString(b)), rest) else Fail)
            && (f.ltype.FixedBytes? && b != [] ==> p == if |b| == f.dataSize then Ok(Raw(b), rest) else Fail)
            && (f.ltype.FixedBytes? && b == [] ==> p == Ok(Raw(Zeros(f.dataSize)), rest))
  {
    StringRoundTrip(b, rest);
  }

  // ----- the memory of the struct -----

  /** The value fits the memory of its field, at every depth. */
  ghost predicate InRoom(f: Field, v: Value)
    decreases f, 0
  {
    match f.ltype
    case Bytes => v.Raw? && |v.b| + BYTES_HEADER <= f.dataSize
    case String => v.Raw? && |v.b| < f.dataSize
    case FixedBytes => v.Raw? && |v.b| == f.dataSize
    case Submessage => v.Msg? && Contained(f.sub, v.slots)
    case _ => true
  }

  ghost predicate SlotInRoom(f: Field, s: Slot)
    decreases f, 1
  {
    match s
    case One(v) => InRoom(f, v)
    case Opt(_, v) => InRoom(f, v)
    case Many(items) => |items| <= f.arraySize && forall k :: 0 <= k < |items| ==> InRoom(f, items[k])
    case Member(held) => held.Some? ==> InRoom(f, held.value)
  }

  ghost predicate Contained(d: seq<Field>, m: seq<Slot>)
    decreases d, 0
  {
    |m| == |d| && forall i :: 0 <= i < |d| ==> SlotInRoom(d[i], m[i])
  }

  /** The fields have room for their defaults. */
  ghost predicate Roomy(d: seq<Field>)
    decreases d, 0
  {
    forall i :: 0 <= i < |d| ==> RoomyField(d[i])
  }

  ghost predicate RoomyField(f: Field)
    decreases f, 1
  {
    InRoom(f, DefaultValue(f)) && (f.ltype.Submessage? ==> Roomy(f.sub))
  }

  lemma {:induction false} ValueContained(f: Field, s: seq<byte>, was: Value)
    requires WfField(f) && TypedValue(f, was) && RoomyField(f) && InRoom(f, was) && DecValue(f, s, was).Ok?
    ensures InRoom(f, DecValue(f, s, was).v)
    decreases f, 0, 0
  {
    if f.ltype.Submessage? {
      var p := TakeString(s);
      DecodeContained(f.sub, p.v, was.slots, {});
    }
  }

  lemma {:induction false} PackedContained(f: Field, s: seq<byte>, items: seq<Value>)
    requires WfField(f) && RoomyField(f) && forall k :: 0 <= k < |items| ==> TypedValue(f, items[k])
    requires |items| <= f.arraySize && forall k :: 0 <= k < |items| ==> InRoom(f, items[k])
    requires DecPacked(f, s, items).Some?
    ensures SlotInRoom(f, Many(DecPacked(f, s, items).value))
    decreases f, 1, |s|
  {
    if s != [] {
      DefaultValueTyped(f);
      var p := DecValue(f, s, DefaultValue(f));
      ValueContained(f, s, DefaultValue(f));
      PackedContained(f, p.rest, items + [p.v]);
    }
  }

  lemma MemberContained(d: seq<Field>, m: seq<Slot>, i: nat, v: Value)
    requires Typed(d, m) && Contained(d, m) && i < |d| && d[i].htype.Oneof? && TypedValue(d[i], v) && InRoom(d[i], v)
    ensures Contained(d, SetMember(d, m, i, v))
  {
  }

  lemma SlotContained(d: seq<Field>, m: seq<Slot>, i: nat, s: Slot)
    requires Contained(d, m) && i < |d| && SlotInRoom(d[i], s)
    ensures Contained(d, m[i := s])
  {
  }

  /** The slot that decode_static_field has filled, on success. */
  lemma {:induction false} FieldContained(d: seq<Field>, i: nat, wt: nat, s: seq<byte>, m: seq<Slot>)
    requires WfDesc(d) && Typed(d, m) && i < |d| && Roomy(d) && Contained(d, m) && DecField(d, i, wt, s, m).Ok?
    ensures Contained(d, DecField(d, i, wt, s, m).v)
    decreases d, 0, 0
  {
    var f, r := d[i], DecField(d, i, wt, s, m).v;
    DefaultValueTyped(f);
    assert TypedSlot(f, m[i]) && SlotInRoom(f, m[i]) && RoomyField(f);
    if f.htype.Repeated? && wt == WT_STRING && Packable(f.ltype) {
      PackedContained(f, TakeString(s).v, m[i].items);
      SlotContained(d, m, i, r[i]);
    } else {
      var was := if f.htype.Repeated? || f.htype.Oneof? then DefaultValue(f) else m[i].v;
      ValueContained(f, s, was);
      if f.htype.Oneof? {
        MemberContained(d, m, i, DecValue(f, s, was).v);
      } else {
        SlotContained(d, m, i, r[i]);
      }
    }
  }

  /** Memory: whatever the input is, what has been decoded fits the struct at every depth. */
  lemma {:induction false} DecodeContained(d: seq<Field>, s: seq<byte>, m: seq<Slot>, seen: set<nat>)
    requires WfDesc(d) && Typed(d, m) && Roomy(d) && Contained(d, m) && DecMsg(d, s, m, seen).Some?
    ensures Contained(d, DecMsg(d, s, m, seen).value)
    decreases d, 1, |s|
  {
    if s != [] && DecTag(s).Tagged? {
      var t := DecTag(s);
      var r := Find(d, t.tag);
      if r.Some? {
        FieldContained(d, r.value, t.wt, t.rest, m);
        var p := DecField(d, r.value, t.wt, t.rest, m);
        DecodeContained(d, p.rest, p.v, seen + {r.value});
      } else {
        DecodeContained(d, SkipField(t.wt, t.rest).rest, m, seen);
      }
    }
  }

  // ----- required fields -----

  /** A message is accepted if and only if it merges and has all fields that the reader requires. */
  lemma RequiredDecides(d': seq<Field>, d: seq<Field>, m: seq<Slot>, x: seq<Slot>)
    requires WfDesc(d') && WfDesc(d) && Agrees(d', d) && Typed(d', m) && Typed(d, x)
    requires Encode(d, x).Some? && |Encode(d, x).value| < U32
    ensures DecMsg(d', Encode(d, x).value, m, {})
         == if AllRequired(d', Written(d', d, x, 0)) then MergeFrom(d', d, m, x, 0) else None
  {
    var b := Encode(d, x).value;
    assert b + [] == b;
    FieldsDecode(d', d, x, 0, [], m, {});
    assert {} + Written(d', d, x, 0) == Written(d', d, x, 0);
  }

  lemma {:induction false} NotWritten(d': seq<Field>, d: seq<Field>, x: seq<Slot>, i: nat, i': nat)
    requires WfDesc(d') && WfDesc(d) && Typed(d, x) && i <= |d| && i' < |d'|
    requires forall k :: 0 <= k < |d| ==> d[k].tag != d'[i'].tag
    ensures i' !in Written(d', d, x, i)
    decreases |d| - i
  {
    if i < |d| { NotWritten(d', d, x, i + 1, i'); }
  }

  /** A message without a field that the reader requires is refused. */
  lemma MissingRequiredFails(d': seq<Field>, d: seq<Field>, x: seq<Slot>, i': nat)
    requires WfDesc(d') && WfDesc(d) && Agrees(d', d) && Typed(d, x)
    requires Encode(d, x).Some? && |Encode(d, x).value| < U32
    requires i' < |d'| && d'[i'].htype.Required? && forall k :: 0 <= k < |d| ==> d[k].tag != d'[i'].tag
    ensures Decode(d', Encode(d, x).value) == None
  {
    DefaultTyped(d');
    RequiredDecides(d', d, Defaults(d'), x);
    NotWritten(d', d, x, 0, i');
  }

  // ----- what a message does not say -----

  /** The value that a field has if nothing is said of it: the default of its descriptor, or zero. */
  ghost predicate IsDefault(f: Field, v: Value)
    decreases f, 0
  {
    if f.ltype.Submessage? then
      v.Msg? && |v.slots| == |f.sub| && forall i :: 0 <= i < |f.sub| ==> IsUnsaid(f.sub[i], v.slots[i])
    else if f.dflt.Some? then v == f.dflt.value
    else if f.ltype.Bytes? || f.ltype.String? then v == Raw([])
    else if f.ltype.FixedBytes? then v.Raw? && |v.b| == f.dataSize && forall k :: 0 <= k < |v.b| ==> v.b[k] == 0
    else v == Num(0)
  }

  /** No flag is set, no array has entries, and no member of a union is current. */
  ghost predicate IsUnsaid(f: Field, s: Slot)
    decreases f, 1
  {
    match s
    case One(v) => (f.htype.Required? || f.htype.Singular?) && IsDefault(f, v)
    case Opt(has, v) => f.htype.Optional? && !has && IsDefault(f, v)
    case Many(items) => f.htype.Repeated? && items == []
    case Member(held) => f.htype.Oneof? && held == None
  }

  lemma {:induction false} DefaultIsDefault(f: Field)
    ensures IsDefault(f, DefaultValue(f))
    decreases f
  {
    if f.ltype.Submessage? {
      forall i | 0 <= i < |f.sub| ensures IsUnsaid(f.sub[i], DefaultSlot(f.sub[i])) { DefaultIsDefault(f.sub[i]); }
    }
  }

  /** The empty input is a message if and only if nothing is required, and then every field is as if unsaid. */
  lemma EmptyInput(d: seq<Field>, i: nat)
    requires WfDesc(d) && i < |d|
    ensures Decode(d, []).Some? <==> forall j :: 0 <= j < |d| ==> !d[j].htype.Required?
    ensures Decode(d, []).Some? ==> |Decode(d, []).value| == |d| && IsUnsaid(d[i], Decode(d, []).value[i])
  {
    DefaultIsDefault(d[i]);
  }

  lemma NothingBoth(a: Option<seq<byte>>, b: Option<seq<byte>>)
    ensures Cat(a, b) == Some([]) <==> a == Some([]) && b == Some([])
  {
    if a.Some? && b.Some? { assert |a.value + b.value| == |a.value| + |b.value|; }
  }

  lemma {:induction false} NothingFrom(d: seq<Field>, m: seq<Slot>, i: nat)
    requires WfDesc(d) && Typed(d, m) && i <= |d|
    ensures EncFrom(d, m, i) == Some([]) <==> forall j :: i <= j < |d| ==> EncField(d[j], m[j]) == Some([])
    decreases |d| - i
  {
    if i < |d| {
      NothingFrom(d, m, i + 1);
      NothingBoth(EncField(d[i], m[i]), EncFrom(d, m, i + 1));
    }
  }

  /** A struct of which nothing has been said is written as the empty message if and only if nothing is required, and
      the defaults under implicit presence are zero or empty, which those of a fixed length are not. */
  lemma DefaultsWriteNothing(d: seq<Field>)
    requires WfDesc(d)
    ensures Typed(d, Defaults(d))
    ensures Encode(d, Defaults(d)) == Some([]) <==>
              forall j :: 0 <= j < |d| ==>
                && !d[j].htype.Required?
                && (d[j].htype.Singular? ==> DefaultValue(d[j]) == Num(0) || DefaultValue(d[j]) == Raw([]))
  {
    DefaultTyped(d);
    NothingFrom(d, Defaults(d), 0);
    forall j | 0 <= j < |d|
      ensures EncField(d[j], Defaults(d)[j]) == Some([]) <==>
                && !d[j].htype.Required?
                && (d[j].htype.Singular? ==> DefaultValue(d[j]) == Num(0) || DefaultValue(d[j]) == Raw([]))
    {
      assert TypedSlot(d[j], Defaults(d)[j]);
      NothingWrittenIff(d[j], Defaults(d)[j]);
    }
  }

  // ----- tags -----

  /** The wire type in a tag plays no part for a field that the reader knows, but for telling a packed array from a
      single entry. */
  lemma WireTypeIgnored(d: seq<Field>, i: nat, wt: nat, other: nat, body: seq<byte>, m: seq<Slot>, seen: set<nat>)
    requires WfDesc(d) && Typed(d, m) && i < |d| && wt < 8 && other < 8
    requires d[i].htype.Repeated? && Packable(d[i].ltype) ==> (wt == WT_STRING <==> other == WT_STRING)
    ensures DecMsg(d, EncTag(wt, d[i].tag) + body, m, seen) == DecMsg(d, EncTag(other, d[i].tag) + body, m, seen)
  {
    FindUnique(d, i);
    ReadsRecord(d, wt, d[i].tag, body, m, seen);
    ReadsRecord(d, other, d[i].tag, body, m, seen);
  }

  /** A zero tag ends the message, whatever follows it. */
  lemma ZeroTagEnds(d: seq<Field>, rest: seq<byte>, m: seq<Slot>, seen: set<nat>)
    requires WfDesc(d) && Typed(d, m)
    ensures DecMsg(d, [0] + rest, m, seen) == if AllRequired(d, seen) then Some(m) else None
  {
    ZeroIsEnd(rest);
  }

  lemma ZeroIsEnd(rest: seq<byte>)
    ensures DecTag([0] + rest) == End
  {
    assert ([0] + rest)[0] == 0 && ([0] + rest)[1..] == rest;
  }

  /** Field number 0 with another wire type is skipped like any unknown field, but a descriptor without fields takes its
      terminator for that field and fails. */
  lemma NumberZero(d: seq<Field>, wt: nat, body: seq<byte>, m: seq<Slot>, seen: set<nat>)
    requires WfDesc(d) && Typed(d, m) && 1 <= wt < 8
    ensures DecMsg(d, EncTag(wt, 0) + body, m, seen)
         == if d == [] || SkipField(wt, body).Fail? then None else DecMsg(d, SkipField(wt, body).rest, m, seen)
  {
    VarintRoundTrip(wt, body);
    if d != [] {
      forall i | 0 <= i < |d| ensures d[i].tag != 0 { assert WfField(d[i]); }
    }
  }

  predicate Continues(s: seq<byte>, n: nat)
    requires n <= |s|
  {
    forall k :: 0 <= k < n ==> s[k] >= 128
  }

  lemma {:induction false} EndlessVarint(s: seq<byte>, limit: nat)
    ensures ReadVarint(s, limit).Fail? <==> Continues(s, if |s| <= limit then |s| else limit)
  {
    if limit != 0 && s != [] && s[0] >= 128 {
      EndlessVarint(s[1..], limit - 1);
      var n := if |s| <= limit then |s| else limit;
      assert Continues(s[1..], n - 1) <==> Continues(s, n) by {
        assert forall k :: 0 < k < n ==> s[k] == s[1..][k-1];
        assert forall k :: 0 <= k < n - 1 ==> s[1..][k] == s[k+1];
      }
    }
  }

  /** A tag cut off by the end of the input ends the message too; one of more than five bytes is an error. */
  lemma CutTagEnds(d: seq<Field>, s: seq<byte>, m: seq<Slot>, seen: set<nat>)
    requires WfDesc(d) && Typed(d, m) && s != [] && Continues(s, if |s| <= 5 then |s| else 5)
    ensures DecMsg(d, s, m, seen) == if |s| <= 5 && AllRequired(d, seen) then Some(m) else None
  {
    EndlessVarint(s, 5);
  }

  // ----- skipping -----

  /** The first k bytes say how many follow. */
  predicate LengthInFront(p: seq<byte>, k: nat)
    requires k <= |p|
  {
    var r := ReadVarint(p[..k], 5);
    r.Ok? && r.rest == [] && r.v % U32 == |p| - k
  }

  /** A payload of a wire type; groups have none that can be skipped. */
  predicate IsPayload(wt: nat, p: seq<byte>) {
    if wt == WT_VARINT then |p| > 0 && Continues(p, |p| - 1) && p[|p|-1] < 128
    else if wt == WT_64BIT then |p| == 8
    else if wt == WT_STRING then
      exists k :: 0 < k <= |p| && LengthInFront(p, k)
    else wt == WT_32BIT && |p| == 4
  }

  lemma {:induction false} ReadLocal(s: seq<byte>, limit: nat)
    requires ReadVarint(s, limit).Ok?
    ensures var p := ReadVarint(s, limit); var k := |s| - |p.rest|;
            0 < k <= |s| && p.rest == s[k..] && ReadVarint(s[..k], limit) == Ok(p.v, [])
  {
    if s[0] >= 128 {
      ReadLocal(s[1..], limit - 1);
      var p := ReadVarint(s, limit);
      var k := |s| - |p.rest|;
      assert s[..k][1..] == s[1..][..k-1];
      assert s[1..][k-1..] == s[k..];
    } else {
      assert s[..1][1..] == [];
    }
  }

  lemma {:induction false} ReadExtends(p: seq<byte>, limit: nat, rest: seq<byte>)
    requires ReadVarint(p, limit).Ok?
    ensures ReadVarint(p + rest, limit) == Ok(ReadVarint(p, limit).v, ReadVarint(p, limit).rest + rest)
  {
    assert (p + rest)[1..] == p[1..] + rest;
    if p[0] >= 128 {
      ReadExtends(p[1..], limit - 1, rest);
    }
  }

  lemma {:induction false} SkipVarintLocal(s: seq<byte>)
    requires SkipVarint(s).Ok?
    ensures var k := |s| - |SkipVarint(s).rest|;
            0 < k <= |s| && SkipVarint(s).rest == s[k..] && IsPayload(WT_VARINT, s[..k])
  {
    if s[0] >= 128 {
      SkipVarintLocal(s[1..]);
      var k := |s| - |SkipVarint(s).rest|;
      assert s[1..][..k-1] == s[..k][1..];
      assert forall j :: 0 < j < k ==> s[..k][j] == s[1..][..k-1][j-1];
      assert s[1..][k-1..] == s[k..];
    }
  }

  lemma {:induction false} SkipVarintWhole(p: seq<byte>, rest: seq<byte>)
    requires IsPayload(WT_VARINT, p)
    ensures SkipVarint(p + rest) == Ok((), rest)
  {
    assert (p + rest)[1..] == p[1..] + rest;
    if |p| == 1 {
      assert p[1..] + rest == rest;
    } else {
      SkipVarintWhole(p[1..], rest);
    }
  }

  lemma LengthTaken(q: seq<byte>, t: seq<byte>, n: nat)
    requires var r := ReadVarint(q, 5); r.Ok? && r.rest == [] && r.v % U32 == n <= |t|
    ensures TakeString(q + t) == Ok(t[..n], t[n..])
  {
    ReadExtends(q, 5, t);
    assert [] + t == t;
  }

  lemma LengthSkipped(p: seq<byte>, k: nat, rest: seq<byte>)
    requires k <= |p| && LengthInFront(p, k)
    ensures Drop(TakeString(p + rest)) == Ok((), rest)
  {
    var t := p[k..] + rest;
    assert p + rest == p[..k] + t;
    assert t[|p| - k..] == rest;
    LengthTaken(p[..k], t, |p| - k);
  }

  /** An unknown field is skipped if and only if a payload of its wire type is there, and exactly that is skipped. */
  lemma SkipsPayload(wt: nat, p: seq<byte>, rest: seq<byte>)
    requires IsPayload(wt, p)
    ensures SkipField(wt, p + rest) == Ok((), rest)
  {
    if wt == WT_VARINT {
      SkipVarintWhole(p, rest);
    } else if wt == WT_STRING {
      var k :| 0 < k <= |p| && LengthInFront(p, k);
      LengthSkipped(p, k, rest);
    } else {
      assert (p + rest)[|p|..] == rest;
    }
  }

  lemma OnlyPayloadSkipped(wt: nat, s: seq<byte>)
    requires SkipField(wt, s).Ok?
    ensures var k := |s| - |SkipField(wt, s).rest|; SkipField(wt, s).rest == s[k..] && IsPayload(wt, s[..k])
  {
    if wt == WT_VARINT {
      SkipVarintLocal(s);
    } else if wt == WT_STRING {
      ReadLocal(s, 5);
      var p := ReadVarint(s, 5);
      var j, n := |s| - |p.rest|, p.v % U32;
      var k := |s| - |SkipField(wt, s).rest|;
      assert k == j + n && s[..k][..j] == s[..j];
      assert LengthInFront(s[..k], j);
      assert s[j..][n..] == s[k..];
    }
  }
}
