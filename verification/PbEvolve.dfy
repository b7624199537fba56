/** What decoding does to a struct when the input was written by pb_encode, possibly under another version of
    the descriptor.  One induction covers the round trip, unknown fields and merging. */
module PbEvolve {
  import opened Wrappers
  import opened PbTypes
  import opened PbWire
  import opened PbSpec

  /** Two versions of one field agree in everything but its tag's place in the struct and its submessage's fields. */
  ghost predicate SameField(f': Field, f: Field)
    decreases f', 0
  {
    && f'.ltype == f.ltype && f'.htype == f.htype && f'.dataSize == f.dataSize && f'.arraySize == f.arraySize
    && (f.ltype.Submessage? ==> Compatible(f'.sub, f.sub))
  }

  /** A reader with descriptor d' understands what a writer with descriptor d produces: fields that both have are
      the same, and the reader requires nothing that the writer does not have.  Either may have other fields. */
  ghost predicate Compatible(d': seq<Field>, d: seq<Field>)
    decreases d', 1
  {
    && (forall i', i :: 0 <= i' < |d'| && 0 <= i < |d| && d'[i'].tag == d[i].tag ==> SameField(d'[i'], d[i]))
    && (forall i' :: 0 <= i' < |d'| && d'[i'].htype.Required? ==> Find(d, d'[i'].tag).Some?)
  }

  /** Fields that both have are the same. */
  ghost predicate Agrees(d': seq<Field>, d: seq<Field>) {
    forall i', i :: 0 <= i' < |d'| && 0 <= i < |d| && d'[i'].tag == d[i].tag ==> SameField(d'[i'], d[i])
  }

  lemma CompatibleAgrees(d': seq<Field>, d: seq<Field>)
    requires Compatible(d', d)
    ensures Agrees(d', d)
  {
  }

  // ----- the effect of one encoded message on a struct -----

  /** What a destination holding `was` holds after value v has been decoded into it; None if v does not fit. */
  ghost function MergeValue(f': Field, f: Field, was: Value, v: Value): (r: Option<Value>)
    requires WfField(f') && WfField(f) && SameField(f', f)
    requires TypedValue(f', was) && TypedValue(f, v)
    ensures r.Some? ==> TypedValue(f', r.value)
    decreases f, 0, 0
  {
    if f.ltype.Submessage? then
      CompatibleAgrees(f'.sub, f.sub);
      match MergeFrom(f'.sub, f.sub, was.slots, v.slots, 0)
      case None => None
      case Some(m) => Some(Msg(m))
    else if f.ltype.String? && |v.b| == f.dataSize then None
    else Some(v)
  }

  ghost function Append(f': Field, f: Field, have: seq<Value>, items: seq<Value>): (r: Option<seq<Value>>)
    requires WfField(f') && WfField(f) && SameField(f', f)
    requires forall k :: 0 <= k < |have| ==> TypedValue(f', have[k])
    requires forall k :: 0 <= k < |items| ==> TypedValue(f, items[k])
    ensures r.Some? ==> forall k :: 0 <= k < |r.value| ==> TypedValue(f', r.value[k])
    decreases f, 1, |items|
  {
    if items == [] then Some(have)
    else if |have| >= f'.arraySize then None
    else
      DefaultValueTyped(f');
      match MergeValue(f', f, DefaultValue(f'), items[0])
      case None => None
      case Some(w) => Append(f', f, have + [w], items[1..])
  }

  /** Entry i' of struct m after the single value v has arrived for it. */
  ghost function PutValue(d': seq<Field>, i': nat, f: Field, m: seq<Slot>, v: Value): (r: Option<seq<Slot>>)
    requires WfDesc(d') && WfField(f) && i' < |d'| && SameField(d'[i'], f) && Typed(d', m) && TypedValue(f, v)
    requires !f.htype.Repeated?
    ensures r.Some? ==> Typed(d', r.value)
    decreases f, 2, 0
  {
    var f' := d'[i'];
    assert TypedSlot(f', m[i']);
    DefaultValueTyped(f');
    match MergeValue(f', f, if f.htype.Oneof? then DefaultValue(f') else m[i'].v, v)
    case None => None
    case Some(w) =>
      if f.htype.Oneof? then Some(SetMember(d', m, i', w))
      else if f.htype.Optional? then Some(m[i' := Opt(true, w)])
      else Some(m[i' := One(w)])
  }

  ghost function MergeField(d': seq<Field>, i': nat, f: Field, m: seq<Slot>, s: Slot): (r: Option<seq<Slot>>)
    requires WfDesc(d') && WfField(f) && i' < |d'| && SameField(d'[i'], f) && Typed(d', m) && TypedSlot(f, s)
    ensures r.Some? ==> Typed(d', r.value)
    decreases f, 3, 0
  {
    assert TypedSlot(d'[i'], m[i']);
    if !Present(f, s) then Some(m)
    else if f.htype.Repeated? then
      match Append(d'[i'], f, m[i'].items, s.items)
      case None => None
      case Some(items) => Some(m[i' := Many(items)])
    else PutValue(d', i', f, m, Payload(f, s))
  }

  /** Reader struct m after fields i and later of writer struct x have arrived. */
  ghost function MergeFrom(d': seq<Field>, d: seq<Field>, m: seq<Slot>, x: seq<Slot>, i: nat): (r: Option<seq<Slot>>)
    requires WfDesc(d') && WfDesc(d) && Agrees(d', d) && Typed(d', m) && Typed(d, x) && i <= |d|
    ensures r.Some? ==> Typed(d', r.value)
    decreases d, 0, |d| - i
  {
    if i == |d| then Some(m)
    else match Find(d', d[i].tag)
      case None => MergeFrom(d', d, m, x, i + 1)
      case Some(i') =>
        match MergeField(d', i', d[i], m, x[i])
        case None => None
        case Some(m') => MergeFrom(d', d, m', x, i + 1)
  }

  /** The reader's entries that fields i and later of x fill. */
  ghost function Written(d': seq<Field>, d: seq<Field>, x: seq<Slot>, i: nat): set<nat>
    requires WfDesc(d) && Typed(d, x) && i <= |d|
    decreases |d| - i
  {
    if i == |d| then {}
    else
      var r := Find(d', d[i].tag);
      (if r.Some? && Present(d[i], x[i]) then {r.value} else {}) + Written(d', d, x, i + 1)
  }

  // ----- decoding what was encoded -----

  lemma SkipsValue(f: Field, v: Value, rest: seq<byte>)
    requires WfField(f) && TypedValue(f, v) && EncValue(f, v).Some? && |EncValue(f, v).value| < U32
    ensures SkipField(WireType(f.ltype), EncValue(f, v).value + rest) == Ok((), rest)
  {
    var s := EncValue(f, v).value + rest;
    match f.ltype
    case Varint => SkipEncoded(v.n % U64, rest);
    case UVarint => SkipEncoded(v.n, rest);
    case SVarint => SkipEncoded(Zigzag(v.n), rest);
    case Fixed32 => assert s[4..] == rest;
    case Fixed64 => assert s[8..] == rest;
    case Bytes => StringRoundTrip(v.b, rest);
    case String => StringRoundTrip(v.b, rest);
    case FixedBytes => StringRoundTrip(v.b, rest);
    case Submessage => StringRoundTrip(EncFrom(f.sub, v.slots, 0).value, rest);
  }

  lemma NumberDecodes(f: Field, v: Value, rest: seq<byte>)
    requires f.ltype.Varint? || f.ltype.UVarint? || f.ltype.SVarint?
    requires WfField(f) && TypedValue(f, v) && EncValue(f, v).Some?
    ensures Number(f, DecVarint64(EncValue(f, v).value + rest)) == Ok(v, rest)
  {
    IntRoundTrip(v.n, f.dataSize);
    match f.ltype
    case Varint => VarintRoundTrip(v.n % U64, rest);
    case UVarint => VarintRoundTrip(v.n, rest);
    case SVarint => ZigzagInverse(v.n); VarintRoundTrip(Zigzag(v.n), rest);
  }

  lemma WordDecodes(f: Field, v: Value, rest: seq<byte>)
    requires f.ltype.Fixed32? || f.ltype.Fixed64?
    requires WfField(f) && TypedValue(f, v)
    ensures Word(Take(EncValue(f, v).value + rest, if f.ltype.Fixed32? then 4 else 8)) == Ok(v, rest)
  {
    var n := if f.ltype.Fixed32? then 4 else 8;
    var s := EncValue(f, v).value + rest;
    assert s[..n] == LittleEndian(v.n, n) && s[n..] == rest;
    WordRoundTrip(v.n);
  }

  /** pb_dec_* undoes pb_enc_* for every type, and decodes a submessage into what is there already. */
  lemma {:induction false} ValueDecodes(f': Field, f: Field, was: Value, v: Value, rest: seq<byte>)
    requires WfField(f') && WfField(f) && SameField(f', f)
    requires TypedValue(f', was) && TypedValue(f, v)
    requires EncValue(f, v).Some? && |EncValue(f, v).value| < U32
    ensures DecValue(f', EncValue(f, v).value + rest, was)
         == var r := MergeValue(f', f, was, v); if r.Some? then Ok(r.value, rest) else Fail
    decreases f, 0, 0
  {
    match f.ltype
    case Varint => NumberDecodes(f, v, rest);
    case UVarint => NumberDecodes(f, v, rest);
    case SVarint => NumberDecodes(f, v, rest);
    case Fixed32 => WordDecodes(f, v, rest);
    case Fixed64 => WordDecodes(f, v, rest);
    case Bytes => StringRoundTrip(v.b, rest);
    case String => StringRoundTrip(v.b, rest); CStringOfNulFree(v.b);
    case FixedBytes => StringRoundTrip(v.b, rest); assert v.b == [] ==> v.b == Zeros(0);
    case Submessage =>
      var b := EncFrom(f.sub, v.slots, 0).value;
      StringRoundTrip(b, rest);
      FieldsDecode(f'.sub, f.sub, v.slots, 0, [], was.slots, {});
      assert b + [] == b;
      RequiredWritten(f'.sub, f.sub, v.slots);
  }

  /** A packed array is read back entry by entry, and overflows exactly when it does not fit. */
  lemma {:induction false} PackedDecodes(f': Field, f: Field, have: seq<Value>, items: seq<Value>)
    requires WfField(f') && WfField(f) && SameField(f', f) && Packable(f.ltype)
    requires forall k :: 0 <= k < |have| ==> TypedValue(f', have[k])
    requires forall k :: 0 <= k < |items| ==> TypedValue(f, items[k])
    requires EncPacked(f, items).Some? && |EncPacked(f, items).value| < U32
    ensures DecPacked(f', EncPacked(f, items).value, have) == Append(f', f, have, items)
    decreases f, 1, |items|
  {
    if items != [] {
      var a, b := EncValue(f, items[0]).value, EncPacked(f, items[1..]).value;
      assert EncPacked(f, items).value == a + b;
      DefaultValueTyped(f');
      ValueDecodes(f', f, DefaultValue(f'), items[0], b);
      if |have| < f'.arraySize {
        PackedDecodes(f', f, have + [items[0]], items[1..]);
      }
    }
  }

  /** One record of the input: a tag, then a payload that either belongs to an entry of d' or is skipped. */
  lemma ReadsRecord(d': seq<Field>, wt: nat, tag: nat, body: seq<byte>, m: seq<Slot>, seen: set<nat>)
    requires WfDesc(d') && Typed(d', m) && wt < 8 && 1 <= tag < 0x2000_0000
    ensures DecMsg(d', EncTag(wt, tag) + body, m, seen)
         == match Find(d', tag)
            case Some(i') =>
              var p := DecField(d', i', wt, body, m);
              if p.Ok? then DecMsg(d', p.rest, p.v, seen + {i'}) else None
            case None =>
              var p := SkipField(wt, body);
              if p.Ok? then DecMsg(d', p.rest, m, seen) else None
  {
    TagRoundTrip(wt, tag, body);
  }

  /** The input bytes of one field take struct m to MergeField's result, or are skipped whole. */
  ghost predicate FieldEffect(d': seq<Field>, f: Field, s: Slot, b: seq<byte>, rest: seq<byte>, m: seq<Slot>,
                              seen: set<nat>)
    requires WfDesc(d') && WfField(f) && Typed(d', m) && TypedSlot(f, s)
    requires var r := Find(d', f.tag); r.Some? ==> SameField(d'[r.value], f)
  {
    DecMsg(d', b + rest, m, seen)
    == match Find(d', f.tag)
       case None => DecMsg(d', rest, m, seen)
       case Some(i') =>
         match MergeField(d', i', f, m, s)
         case None => None
         case Some(m') => DecMsg(d', rest, m', if Present(f, s) then seen + {i'} else seen)
  }

  /** A field that is not an array is its tag and its value. */
  lemma SingleBytes(f: Field, s: Slot, rest: seq<byte>)
    requires WfField(f) && TypedSlot(f, s) && !f.htype.Repeated? && Present(f, s) && EncField(f, s).Some?
    ensures var o := EncValue(f, Payload(f, s));
            && o.Some? && |o.value| <= |EncField(f, s).value|
            && EncField(f, s).value + rest == TagOf(f) + (o.value + rest)
  {
    var o := EncValue(f, Payload(f, s));
    assert EncField(f, s).value == TagOf(f) + o.value;
  }

  lemma {:induction false} SingleDecodes(d': seq<Field>, f: Field, s: Slot, rest: seq<byte>, m: seq<Slot>,
                                         seen: set<nat>)
    requires WfDesc(d') && WfField(f) && Typed(d', m) && TypedSlot(f, s)
    requires var r := Find(d', f.tag); r.Some? ==> SameField(d'[r.value], f)
    requires !f.htype.Repeated? && Present(f, s)
    requires EncField(f, s).Some? && |EncField(f, s).value| < U32
    ensures FieldEffect(d', f, s, EncField(f, s).value, rest, m, seen)
    decreases f, 2, 0
  {
    var v := Payload(f, s);
    SingleBytes(f, s, rest);
    var b := EncValue(f, v).value;
    ReadsRecord(d', WireType(f.ltype), f.tag, b + rest, m, seen);
    var r := Find(d', f.tag);
    if r.None? {
      SkipsValue(f, v, rest);
    } else {
      var f' := d'[r.value];
      assert TypedSlot(f', m[r.value]);
      DefaultValueTyped(f');
      ValueDecodes(f', f, if f.htype.Oneof? then DefaultValue(f') else m[r.value].v, v, rest);
    }
  }

  /** One entry of an array with its own tag, whether or not the encoder would have packed the array. */
  lemma {:induction false} EntryDecodes(d': seq<Field>, f: Field, v: Value, rest: seq<byte>, m: seq<Slot>,
                                        seen: set<nat>)
    requires WfDesc(d') && WfField(f) && Typed(d', m) && f.htype.Repeated? && TypedValue(f, v)
    requires var r := Find(d', f.tag); r.Some? ==> SameField(d'[r.value], f)
    requires EncTagged(f, v).Some? && |EncTagged(f, v).value| < U32
    ensures FieldEffect(d', f, Many([v]), EncTagged(f, v).value, rest, m, seen)
    decreases f, 2, 0
  {
    var b := EncValue(f, v).value;
    assert EncTagged(f, v).value + rest == TagOf(f) + (b + rest);
    ReadsRecord(d', WireType(f.ltype), f.tag, b + rest, m, seen);
    var r := Find(d', f.tag);
    if r.None? {
      SkipsValue(f, v, rest);
    } else {
      var f' := d'[r.value];
      assert TypedSlot(f', m[r.value]);
      DefaultValueTyped(f');
      ValueDecodes(f', f, DefaultValue(f'), v, rest);
      AppendOne(f', f, m[r.value].items, v);
    }
  }

  lemma AppendOne(f': Field, f: Field, have: seq<Value>, v: Value)
    requires WfField(f') && WfField(f) && SameField(f', f)
    requires forall k :: 0 <= k < |have| ==> TypedValue(f', have[k])
    requires TypedValue(f, v)
    ensures TypedValue(f', DefaultValue(f'))
    ensures Append(f', f, have, [v])
         == var w := MergeValue(f', f, DefaultValue(f'), v);
            if |have| < f'.arraySize && w.Some? then Some(have + [w.value]) else None
  {
    DefaultValueTyped(f');
    assert [v][1..] == [];
  }

  lemma {:induction false} AppendSplit(f': Field, f: Field, have: seq<Value>, items: seq<Value>)
    requires WfField(f') && WfField(f) && SameField(f', f) && items != []
    requires forall k :: 0 <= k < |have| ==> TypedValue(f', have[k])
    requires forall k :: 0 <= k < |items| ==> TypedValue(f, items[k])
    ensures Append(f', f, have, items)
         == var a := Append(f', f, have, [items[0]]);
            if a.Some? then Append(f', f, a.value, items[1..]) else None
  {
    AppendOne(f', f, have, items[0]);
  }

  /** An array entry by entry, for every type. */
  lemma {:induction false} UnpackedDecodes(d': seq<Field>, f: Field, items: seq<Value>, rest: seq<byte>, m: seq<Slot>,
                                           seen: set<nat>)
    requires WfDesc(d') && WfField(f) && Typed(d', m) && f.htype.Repeated? && TypedSlot(f, Many(items))
    requires var r := Find(d', f.tag); r.Some? ==> SameField(d'[r.value], f)
    requires EncUnpacked(f, items).Some? && |EncUnpacked(f, items).value| < U32
    ensures FieldEffect(d', f, Many(items), EncUnpacked(f, items).value, rest, m, seen)
    decreases f, 2, |items|
  {
    var r := Find(d', f.tag);
    if items == [] {
      assert EncUnpacked(f, items).value + rest == rest;
    } else {
      var b, bs := EncTagged(f, items[0]).value, EncUnpacked(f, items[1..]).value;
      assert EncUnpacked(f, items).value + rest == b + (bs + rest);
      EntryDecodes(d', f, items[0], bs + rest, m, seen);
      if r.None? {
        UnpackedDecodes(d', f, items[1..], rest, m, seen);
      } else {
        var i', f' := r.value, d'[r.value];
        assert TypedSlot(f', m[i']);
        AppendSplit(f', f, m[i'].items, items);
        var a := Append(f', f, m[i'].items, [items[0]]);
        if a.Some? {
          var m1 := m[i' := Many(a.value)];
          UnpackedDecodes(d', f, items[1..], rest, m1, seen + {i'});
          var c := Append(f', f, a.value, items[1..]);
          assert c.Some? ==> m1[i' := Many(c.value)] == m[i' := Many(c.value)];
          assert seen + {i'} + {i'} == seen + {i'};
        }
      }
    }
  }

  /** A struct in which entry i' has been given these values; None if they do not fit. */
  ghost function PutItems(d': seq<Field>, i': nat, f: Field, m: seq<Slot>, items: seq<Value>): (r: Option<seq<Slot>>)
    requires WfDesc(d') && WfField(f) && i' < |d'| && SameField(d'[i'], f) && Typed(d', m) && f.htype.Repeated?
    requires forall k :: 0 <= k < |items| ==> TypedValue(f, items[k])
    ensures r.Some? ==> Typed(d', r.value)
  {
    assert TypedSlot(d'[i'], m[i']);
    match Append(d'[i'], f, m[i'].items, items)
    case None => None
    case Some(all) => Some(m[i' := Many(all)])
  }

  function PackedRecord(f: Field, b: seq<byte>): seq<byte> { EncTag(WT_STRING, f.tag) + LenPrefixed(b) }

  /** A packed record of any length, empty ones included. */
  lemma {:induction false} PackedRecordDecodes(d': seq<Field>, f: Field, items: seq<Value>, rest: seq<byte>,
                                               m: seq<Slot>, seen: set<nat>)
    requires WfDesc(d') && WfField(f) && Typed(d', m) && f.htype.Repeated? && TypedSlot(f, Many(items))
    requires var r := Find(d', f.tag); r.Some? ==> SameField(d'[r.value], f)
    requires Packable(f.ltype) && EncPacked(f, items).Some? && |EncPacked(f, items).value| < U32
    ensures DecMsg(d', PackedRecord(f, EncPacked(f, items).value) + rest, m, seen)
         == match Find(d', f.tag)
            case None => DecMsg(d', rest, m, seen)
            case Some(i') =>
              match PutItems(d', i', f, m, items)
              case None => None
              case Some(m') => DecMsg(d', rest, m', seen + {i'})
    decreases f, 2, 0
  {
    var b := EncPacked(f, items).value;
    assert PackedRecord(f, b) + rest == EncTag(WT_STRING, f.tag) + (LenPrefixed(b) + rest);
    ReadsRecord(d', WT_STRING, f.tag, LenPrefixed(b) + rest, m, seen);
    StringRoundTrip(b, rest);
    var r := Find(d', f.tag);
    if r.Some? {
      assert TypedSlot(d'[r.value], m[r.value]);
      PackedDecodes(d'[r.value], f, m[r.value].items, items);
    }
  }

  lemma {:induction false} ArrayDecodes(d': seq<Field>, f: Field, items: seq<Value>, rest: seq<byte>, m: seq<Slot>,
                                        seen: set<nat>)
    requires WfDesc(d') && WfField(f) && Typed(d', m) && f.htype.Repeated? && TypedSlot(f, Many(items)) && items != []
    requires var r := Find(d', f.tag); r.Some? ==> SameField(d'[r.value], f)
    requires EncArray(f, items).Some? && |EncArray(f, items).value| < U32
    ensures FieldEffect(d', f, Many(items), EncArray(f, items).value, rest, m, seen)
    decreases f, 3, 0
  {
    if !Packable(f.ltype) {
      UnpackedDecodes(d', f, items, rest, m, seen);
    } else {
      PackedRecordDecodes(d', f, items, rest, m, seen);
    }
  }

  lemma AbsentWritesNothing(f: Field, s: Slot)
    requires WfField(f) && TypedSlot(f, s)
    ensures !Present(f, s) ==> EncField(f, s) == Some([])
  {
    if f.htype.Repeated? && s.items == [] {
      assert EncArray(f, s.items) == Some([]);
    }
  }

  lemma {:induction false} FieldDecodes(d': seq<Field>, f: Field, s: Slot, rest: seq<byte>, m: seq<Slot>,
                                        seen: set<nat>)
    requires WfDesc(d') && WfField(f) && Typed(d', m) && TypedSlot(f, s)
    requires var r := Find(d', f.tag); r.Some? ==> SameField(d'[r.value], f)
    requires EncField(f, s).Some? && |EncField(f, s).value| < U32
    ensures FieldEffect(d', f, s, EncField(f, s).value, rest, m, seen)
    decreases f, 4, 0
  {
    if !Present(f, s) {
      AbsentWritesNothing(f, s);
      assert [] + rest == rest;
    } else if f.htype.Repeated? {
      assert s == Many(s.items);
      ArrayDecodes(d', f, s.items, rest, m, seen);
    } else {
      SingleDecodes(d', f, s, rest, m, seen);
    }
  }

  /** Decoding the encoded fields of x into m, with more input to come, merges x into m and goes on. */
  lemma {:induction false} FieldsDecode(d': seq<Field>, d: seq<Field>, x: seq<Slot>, i: nat,
                                        rest: seq<byte>, m: seq<Slot>, seen: set<nat>)
    requires WfDesc(d') && WfDesc(d) && Agrees(d', d) && Typed(d', m) && Typed(d, x) && i <= |d|
    requires EncFrom(d, x, i).Some? && |EncFrom(d, x, i).value| < U32
    ensures DecMsg(d', EncFrom(d, x, i).value + rest, m, seen)
         == var r := MergeFrom(d', d, m, x, i);
            if r.Some? then DecMsg(d', rest, r.value, seen + Written(d', d, x, i)) else None
    decreases d, 0, |d| - i
  {
    if i == |d| {
      assert EncFrom(d, x, i).value + rest == rest;
      assert seen + {} == seen;
    } else {
      var f, s := d[i], x[i];
      var bs := EncFrom(d, x, i + 1).value;
      var r := Find(d', f.tag);
      assert EncFrom(d, x, i).value + rest == EncField(f, s).value + (bs + rest);
      if r.None? {
        FieldsDecode(d', d, x, i + 1, rest, m, seen);
        FieldDecodes(d', f, s, bs + rest, m, seen);
        assert Written(d', d, x, i) == Written(d', d, x, i + 1);
        assert MergeFrom(d', d, m, x, i) == MergeFrom(d', d, m, x, i + 1);
      } else {
        var m1 := MergeField(d', r.value, f, m, s);
        if m1.Some? {
          var seen1 := if Present(f, s) then seen + {r.value} else seen;
          FieldsDecode(d', d, x, i + 1, rest, m1.value, seen1);
          assert seen1 + Written(d', d, x, i + 1) == seen + Written(d', d, x, i);
          assert MergeFrom(d', d, m, x, i) == MergeFrom(d', d, m1.value, x, i + 1);
        } else {
          assert MergeFrom(d', d, m, x, i) == None;
        }
        FieldDecodes(d', f, s, bs + rest, m, seen);
      }
    }
  }

  lemma {:induction false} WrittenHas(d': seq<Field>, d: seq<Field>, x: seq<Slot>, i: nat, j: nat)
    requires WfDesc(d) && Typed(d, x) && i <= j < |d|
    requires Present(d[j], x[j]) && Find(d', d[j].tag).Some?
    ensures Find(d', d[j].tag).value in Written(d', d, x, i)
    decreases j - i
  {
    if i < j {
      WrittenHas(d', d, x, i + 1, j);
    }
  }

  /** An encoded message satisfies the required-field check of every compatible reader. */
  lemma RequiredWritten(d': seq<Field>, d: seq<Field>, x: seq<Slot>)
    requires WfDesc(d') && WfDesc(d) && Compatible(d', d) && Typed(d, x)
    ensures AllRequired(d', Written(d', d, x, 0))
  {
    forall i' | 0 <= i' < |d'| && d'[i'].htype.Required?
      ensures i' in Written(d', d, x, 0)
    {
      var i := Find(d, d'[i'].tag).value;
      assert SameField(d'[i'], d[i]);
      assert TypedSlot(d[i], x[i]);
      WrittenHas(d', d, x, 0, i);
      var r := Find(d', d[i].tag);
      assert r.Some? && r.value == i';
    }
  }
}
