/** What pb_encode writes and what pb_decode_noinit reads, as functions on byte sequences.
    The methods of PbEncode and PbDecode are proved to compute these functions. */
module PbSpec {
  import opened Wrappers
  import opened PbTypes
  import opened PbWire

  // ----- encoding (pb_encode.c) -----

  function Cat(a: Option<seq<byte>>, b: Option<seq<byte>>): Option<seq<byte>> {
    if a.Some? && b.Some? then Some(a.value + b.value) else None
  }

  /** pb_encode_tag_for_field's table */
  function WireType(t: LType): (wt: nat)
    ensures wt in {WT_VARINT, WT_64BIT, WT_STRING, WT_32BIT}
  {
    match t
    case Varint => WT_VARINT
    case UVarint => WT_VARINT
    case SVarint => WT_VARINT
    case Fixed32 => WT_32BIT
    case Fixed64 => WT_64BIT
    case Bytes => WT_STRING
    case String => WT_STRING
    case Submessage => WT_STRING
    case FixedBytes => WT_STRING
  }

  function TagOf(f: Field): seq<byte> { EncTag(WireType(f.ltype), f.tag) }

  /** One value without its tag (pb_enc_*); None is an encoding error. */
  function EncValue(f: Field, v: Value): Option<seq<byte>>
    requires WfField(f) && TypedValue(f, v)
    decreases f, 0, 0
  {
    match f.ltype
    case Varint => if IntSize(f.dataSize) then Some(EncVarint(v.n % U64)) else None
    case UVarint => if IntSize(f.dataSize) then Some(EncVarint(v.n)) else None
    case SVarint => if IntSize(f.dataSize) then Some(EncVarint(Zigzag(v.n))) else None
    case Fixed32 => Some(LittleEndian(v.n, 4))
    case Fixed64 => Some(LittleEndian(v.n, 8))
    case Bytes => if |v.b| + BYTES_HEADER > f.dataSize then None else Some(LenPrefixed(v.b))
    case String => Some(LenPrefixed(v.b))
    case FixedBytes => Some(LenPrefixed(v.b))
    case Submessage =>
      match EncFrom(f.sub, v.slots, 0)
      case None => None
      case Some(b) => Some(LenPrefixed(b))
  }

  function EncTagged(f: Field, v: Value): Option<seq<byte>>
    requires WfField(f) && TypedValue(f, v)
    decreases f, 1, 0
  {
    Cat(Some(TagOf(f)), EncValue(f, v))
  }

  /** The entries of a packed array, without tag and length. */
  function EncPacked(f: Field, items: seq<Value>): Option<seq<byte>>
    requires WfField(f) && forall k :: 0 <= k < |items| ==> TypedValue(f, items[k])
    decreases f, 1, |items|
  {
    if items == [] then Some([]) else Cat(EncValue(f, items[0]), EncPacked(f, items[1..]))
  }

  /** The entries of an array that cannot be packed, each with its tag. */
  function EncUnpacked(f: Field, items: seq<Value>): Option<seq<byte>>
    requires WfField(f) && forall k :: 0 <= k < |items| ==> TypedValue(f, items[k])
    decreases f, 2, |items|
  {
    if items == [] then Some([]) else Cat(EncTagged(f, items[0]), EncUnpacked(f, items[1..]))
  }

  /** encode_array: always packed where the type allows it. */
  function EncArray(f: Field, items: seq<Value>): Option<seq<byte>>
    requires WfField(f) && forall k :: 0 <= k < |items| ==> TypedValue(f, items[k])
    decreases f, 3, 0
  {
    if items == [] then Some([])
    else if |items| > f.arraySize then None
    else if Packable(f.ltype) then
      match EncPacked(f, items)
      case None => None
      case Some(b) => Some(EncTag(WT_STRING, f.tag) + LenPrefixed(b))
    else EncUnpacked(f, items)
  }

  /** pb_check_proto3_default_value on a field that is not a submessage */
  predicate IsZero(f: Field, v: Value)
    requires !f.ltype.Submessage?
  {
    if f.ltype.FixedBytes? then f.dataSize == 0
    else if v.Raw? then v.b == []
    else v.Num? && v.n == 0
  }

  /** Whether encode_basic_field writes anything. */
  predicate Present(f: Field, s: Slot)
    requires WfField(f)
  {
    match f.htype
    case Required => true
    case Singular => s.One? && !IsZero(f, s.v)
    case Optional => s.Opt? && s.has
    case Repeated => s.Many? && s.items != []
    case Oneof => s.Member? && s.held.Some?
  }

  /** The single value that a present field writes. */
  function Payload(f: Field, s: Slot): (v: Value)
    requires WfField(f) && !f.htype.Repeated? && Present(f, s) && (f.htype.Required? ==> s.One?)
    ensures TypedSlot(f, s) ==> TypedValue(f, v)
  {
    if f.htype.Oneof? then s.held.value else s.v
  }

  /** The values that encode_basic_field writes for a slot. */
  function Carried(f: Field, s: Slot): (vs: seq<Value>)
    requires WfField(f) && TypedSlot(f, s)
    ensures forall k :: 0 <= k < |vs| ==> TypedValue(f, vs[k])
    ensures vs == [] <==> !Present(f, s)
  {
    if !Present(f, s) then [] else if f.htype.Repeated? then s.items else [Payload(f, s)]
  }

  /** encode_basic_field */
  function EncField(f: Field, s: Slot): Option<seq<byte>>
    requires WfField(f) && TypedSlot(f, s)
    decreases f, 4, 0
  {
    match f.htype
    case Required => EncTagged(f, s.v)
    case Singular => if IsZero(f, s.v) then Some([]) else EncTagged(f, s.v)
    case Optional => if s.has then EncTagged(f, s.v) else Some([])
    case Repeated => EncArray(f, s.items)
    case Oneof => if s.held.Some? then EncTagged(f, s.held.value) else Some([])
  }

  /** pb_encode from field i on */
  function EncFrom(d: seq<Field>, m: seq<Slot>, i: nat): Option<seq<byte>>
    requires WfDesc(d) && Typed(d, m) && i <= |d|
    decreases d, 0, |d| - i
  {
    if i == |d| then Some([]) else Cat(EncField(d[i], m[i]), EncFrom(d, m, i + 1))
  }

  /** The whole of pb_encode */
  function Encode(d: seq<Field>, m: seq<Slot>): Option<seq<byte>>
    requires WfDesc(d) && Typed(d, m)
  {
    EncFrom(d, m, 0)
  }

  /** Every length that has to be written fits a size_t. */
  ghost predicate Sized(d: seq<Field>, m: seq<Slot>)
    requires WfDesc(d) && Typed(d, m)
    decreases d, 0
  {
    forall i :: 0 <= i < |d| ==> SizedField(d[i], m[i])
  }

  ghost predicate SizedField(f: Field, s: Slot)
    requires WfField(f) && TypedSlot(f, s)
    decreases f, 1
  {
    var vs := Carried(f, s);
    && (forall k :: 0 <= k < |vs| ==> SizedValue(f, vs[k]))
    && (EncPacked(f, vs).Some? ==> |EncPacked(f, vs).value| < U64)
  }

  ghost predicate SizedValue(f: Field, v: Value)
    requires WfField(f) && TypedValue(f, v)
    decreases f, 0
  {
    f.ltype.Submessage? ==>
      Sized(f.sub, v.slots) && (Encode(f.sub, v.slots).Some? ==> |Encode(f.sub, v.slots).value| < U64)
  }

  // ----- decoding (pb_decode.c) -----

  /** The entry with this tag, if any (pb_field_iter_find on descriptors without extensions). */
  function Find(d: seq<Field>, tag: nat): (r: Option<nat>)
    ensures r.Some? ==> r.value < |d| && d[r.value].tag == tag
    ensures r.None? ==> forall i :: 0 <= i < |d| ==> d[i].tag != tag
  {
    if d == [] then None
    else if d[0].tag == tag then Some(0)
    else match Find(d[1..], tag)
      case None => None
      case Some(i) => Some(i + 1)
  }

  lemma {:induction false} FindUnique(d: seq<Field>, i: nat)
    requires WfDesc(d) && i < |d|
    ensures Find(d, d[i].tag) == Some(i)
  {
    var r := Find(d, d[i].tag);
    assert r.Some? && d[r.value].tag == d[i].tag;
  }

  /** One value without its tag (pb_dec_*).  `was` is what the destination holds: a submessage is decoded
      into it, everything else overwrites it.  The wire type plays no part here, as in the source. */
  ghost function DecValue(f: Field, s: seq<byte>, was: Value): (p: Parsed<Value>)
    requires WfField(f) && TypedValue(f, was)
    ensures p.Ok? ==> TypedValue(f, p.v) && |p.rest| < |s|
    decreases f, 0, 0
  {
    Pow256Small();
    match f.ltype
    case Varint => Number(f, DecVarint64(s))
    case UVarint => Number(f, DecVarint64(s))
    case SVarint => Number(f, DecVarint64(s))
    case Fixed32 => Word(Take(s, 4))
    case Fixed64 => Word(Take(s, 8))
    case Bytes =>
      (match TakeString(s)
       case Fail => Fail
       case Ok(b, rest) => if |b| + BYTES_HEADER > f.dataSize then Fail else Ok(Raw(b), rest))
    case String =>
      (match TakeString(s)
       case Fail => Fail
       case Ok(b, rest) => if |b| + 1 > f.dataSize then Fail else Ok(Raw(CString(b)), rest))
    case FixedBytes =>
      (match TakeString(s)
       case Fail => Fail
       case Ok(b, rest) =>
         if b == [] then Ok(Raw(Zeros(f.dataSize)), rest)
         else if |b| != f.dataSize then Fail
         else Ok(Raw(b), rest))
    case Submessage =>
      match TakeString(s)
      case Fail => Fail
      case Ok(b, rest) =>
        match DecMsg(f.sub, b, was.slots, {})
        case None => Fail
        case Some(m) => Ok(Msg(m), rest)
  }

  function Cast(f: Field, v: nat): Option<int> {
    if f.ltype.Varint? then CastSigned(v, f.dataSize)
    else if f.ltype.UVarint? then CastUnsigned(v, f.dataSize)
    else CastZigzag(v, f.dataSize)
  }

  function Number(f: Field, p: Parsed<nat>): Parsed<Value> {
    if p.Ok? && Cast(f, p.v).Some? then Ok(Num(Cast(f, p.v).value), p.rest) else Fail
  }

  function Word(p: Parsed<seq<byte>>): Parsed<Value> {
    if p.Ok? then Ok(Num(FromLittleEndian(p.v)), p.rest) else Fail
  }

  /** The loop over a packed array: entries until the input or the room runs out; leftover input is an overflow. */
  ghost function DecPacked(f: Field, s: seq<byte>, items: seq<Value>): (r: Option<seq<Value>>)
    requires WfField(f) && forall k :: 0 <= k < |items| ==> TypedValue(f, items[k])
    ensures r.Some? ==> forall k :: 0 <= k < |r.value| ==> TypedValue(f, r.value[k])
    decreases f, 1, |s|
  {
    if s == [] then Some(items)
    else if |items| >= f.arraySize then None
    else
      DefaultValueTyped(f);
      match DecValue(f, s, DefaultValue(f))
      case Fail => None
      case Ok(v, rest) => DecPacked(f, rest, items + [v])
  }

  /** Stores v in union member i: every other member of the same union stops being the current one. */
  function SetMember(d: seq<Field>, m: seq<Slot>, i: nat, v: Value): (r: seq<Slot>)
    requires Typed(d, m) && i < |d| && d[i].htype.Oneof? && TypedValue(d[i], v)
    ensures Typed(d, r)
  {
    seq(|m|, j requires 0 <= j < |m| =>
      if j == i then Member(Some(v)) else if SameUnion(d, i, j) then Member(None) else m[j])
  }

  /** decode_static_field: the struct afterwards, and what is left of the input. */
  ghost function DecField(d: seq<Field>, i: nat, wt: nat, s: seq<byte>, m: seq<Slot>): (p: Parsed<seq<Slot>>)
    requires WfDesc(d) && Typed(d, m) && i < |d|
    ensures p.Ok? ==> Typed(d, p.v) && |p.rest| < |s|
    decreases d, 0, 0
  {
    var f := d[i];
    DefaultValueTyped(f);
    assert TypedSlot(f, m[i]);
    match f.htype
    case Required => var p := DecValue(f, s, m[i].v);
      if p.Ok? then Ok(m[i := One(p.v)], p.rest) else Fail
    case Singular => var p := DecValue(f, s, m[i].v);
      if p.Ok? then Ok(m[i := One(p.v)], p.rest) else Fail
    case Optional => var p := DecValue(f, s, m[i].v);
      if p.Ok? then Ok(m[i := Opt(true, p.v)], p.rest) else Fail
    case Repeated =>
      if wt == WT_STRING && Packable(f.ltype) then
        match TakeString(s)
        case Fail => Fail
        case Ok(b, rest) =>
          match DecPacked(f, b, m[i].items)
          case None => Fail
          case Some(items) => Ok(m[i := Many(items)], rest)
      else if |m[i].items| >= f.arraySize then Fail
      else
        var p := DecValue(f, s, DefaultValue(f));
        if p.Ok? then Ok(m[i := Many(m[i].items + [p.v])], p.rest) else Fail
    case Oneof =>
      var p := DecValue(f, s, DefaultValue(f));
      if p.Ok? then Ok(SetMember(d, m, i, p.v), p.rest) else Fail
  }

  /** Whether the final check of pb_decode_noinit passes, `seen` being the entries met in the input. */
  ghost predicate AllRequired(d: seq<Field>, seen: set<nat>) {
    forall i :: 0 <= i < |d| && d[i].htype.Required? ==> i in seen
  }

  /** pb_decode_noinit: the loop over the fields of the input, then the check for required fields.
      An empty descriptor answers to tag 0, because the search then stops at its terminator. */
  ghost function DecMsg(d: seq<Field>, s: seq<byte>, m: seq<Slot>, seen: set<nat>): (r: Option<seq<Slot>>)
    requires WfDesc(d) && Typed(d, m)
    ensures r.Some? ==> Typed(d, r.value)
    decreases d, 1, |s|
  {
    if s == [] then Finish(d, m, seen)
    else match DecTag(s)
      case Bad => None
      case End => Finish(d, m, seen)
      case Tagged(wt, tag, rest) =>
        match Find(d, tag)
        case Some(i) =>
          (match DecField(d, i, wt, rest, m)
           case Fail => None
           case Ok(m', rest') => DecMsg(d, rest', m', seen + {i}))
        case None =>
          if d == [] && tag == 0 then None
          else match SkipField(wt, rest)
            case Fail => None
            case Ok(_, rest') => DecMsg(d, rest', m, seen)
  }

  ghost function Finish(d: seq<Field>, m: seq<Slot>, seen: set<nat>): Option<seq<Slot>> {
    if AllRequired(d, seen) then Some(m) else None
  }

  /** pb_decode */
  ghost function Decode(d: seq<Field>, s: seq<byte>): Option<seq<Slot>>
    requires WfDesc(d)
  {
    DefaultTyped(d);
    DecMsg(d, s, Defaults(d), {})
  }
}
