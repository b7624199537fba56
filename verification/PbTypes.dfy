/** nanopb's message descriptors and the values they describe (pb.h).

    A C struct is modelled as the sequence of what its descriptor can see: one slot a field.
    The build in this repository defines PB_FIELD_32BIT, so pb_size_t has 32 bits and the
    `size` member in front of a pb_bytes_array_t takes four bytes.  */
module PbTypes {
  import opened Wrappers
  import Bits

  type byte = Bits.byte

  const U32: nat := 0x1_0000_0000
  const U64: nat := 0x1_0000_0000_0000_0000

  /** PB_SIZE_MAX; as a data_offset it marks the second and later members of a union. */
  const PB_SIZE_MAX: nat := 0xFFFF_FFFF

  /** offsetof(pb_bytes_array_t, bytes) */
  const BYTES_HEADER: nat := 4

  /** PB_MAX_REQUIRED_FIELDS */
  const MAX_REQUIRED: nat := 64

  /** PB_LTYPE_*; callbacks, pointers and the extension pseudo-type are not modelled. */
  datatype LType = Varint | UVarint | SVarint | Fixed32 | Fixed64 | Bytes | String | Submessage | FixedBytes

  /** PB_HTYPE_*.  Singular is PB_HTYPE_OPTIONAL with size_offset 0: presence is implied by a nonzero value. */
  datatype HType = Required | Optional | Singular | Repeated | Oneof

  /** pb_field_t.  `ptr` is split into `sub` (submessages) and `dflt` (every other type). */
  datatype Field = Field(tag: nat, ltype: LType, htype: HType, dataOffset: nat, sizeOffset: int,
                         dataSize: nat, arraySize: nat, sub: seq<Field>, dflt: Option<Value>)

  /** What one entry of a struct holds: a number, the contents of a byte array, or a nested struct. */
  datatype Value = Num(n: int) | Raw(b: seq<byte>) | Msg(slots: seq<Slot>)

  /** A field together with the has_, _count or which_ member that says how much of it is present.
      A string is the sequence of characters in front of its first NUL. */
  datatype Slot =
    | One(v: Value)                    // required and implicit-presence fields
    | Opt(has: bool, v: Value)         // has_ flag and the value, which exists even when the flag is clear
    | Many(items: seq<Value>)          // the first _count entries
    | Member(held: Option<Value>)      // Some when which_ equals the tag of this union member

  /** Types whose arrays are packed: up to PB_LTYPE_LAST_PACKABLE. */
  predicate Packable(t: LType) {
    t.Varint? || t.UVarint? || t.SVarint? || t.Fixed32? || t.Fixed64?
  }

  /** The integer sizes that pb_enc_varint and pb_dec_varint know. */
  predicate IntSize(n: nat) { n == 1 || n == 2 || n == 4 || n == 8 }

  /** 256 to the power n for the integer sizes */
  function Range(n: nat): nat {
    if n == 1 then 0x100 else if n == 2 then 0x1_0000 else if n == 4 then U32 else U64
  }

  /** C's conversion to a signed integer of the given size */
  function Signed(v: int, size: nat): int {
    var r := v % Range(size);
    if 2 * r < Range(size) then r else r - Range(size)
  }

  predicate NulFree(s: seq<byte>) { forall k :: 0 <= k < |s| ==> s[k] != 0 }

  ghost predicate TypedValue(f: Field, v: Value)
    decreases f, 0
  {
    match f.ltype
    case Varint => v.Num? && (IntSize(f.dataSize) ==> Signed(v.n, f.dataSize) == v.n)
    case SVarint => v.Num? && (IntSize(f.dataSize) ==> Signed(v.n, f.dataSize) == v.n)
    case UVarint => v.Num? && (IntSize(f.dataSize) ==> 0 <= v.n < Range(f.dataSize))
    case Fixed32 => v.Num? && 0 <= v.n < U32
    case Fixed64 => v.Num? && 0 <= v.n < U64
    case Bytes => v.Raw? && |v.b| <= PB_SIZE_MAX
    case String => v.Raw? && NulFree(v.b) && |v.b| <= f.dataSize
    case FixedBytes => v.Raw? && |v.b| == f.dataSize
    case Submessage => v.Msg? && Typed(f.sub, v.slots)
  }

  ghost predicate TypedSlot(f: Field, s: Slot)
    decreases f, 1
  {
    match f.htype
    case Required => s.One? && TypedValue(f, s.v)
    case Singular => s.One? && TypedValue(f, s.v)
    case Optional => s.Opt? && TypedValue(f, s.v)
    case Repeated => s.Many? && forall k :: 0 <= k < |s.items| ==> TypedValue(f, s.items[k])
    case Oneof => s.Member? && (s.held.Some? ==> TypedValue(f, s.held.value))
  }

  /** The struct has a slot of the right shape for every field of the descriptor. */
  ghost predicate Typed(d: seq<Field>, m: seq<Slot>)
    decreases d, 0
  {
    |m| == |d| && forall i :: 0 <= i < |d| ==> TypedSlot(d[i], m[i])
  }

  /** Whether entry i shares its memory and its which_ variable with entry i - 1 (pb_field_iter_next). */
  predicate Joined(d: seq<Field>, i: nat)
    requires i < |d|
  {
    0 < i && d[i-1].htype.Oneof? && d[i].htype.Oneof? && d[i].dataOffset == PB_SIZE_MAX
  }

  /** The first member of the union that entry i belongs to. */
  function Head(d: seq<Field>, i: nat): (h: nat)
    requires i < |d|
    ensures h <= i
    decreases i
  {
    if Joined(d, i) then Head(d, i - 1) else i
  }

  predicate SameUnion(d: seq<Field>, i: nat, j: nat)
    requires i < |d| && j < |d|
  {
    d[i].htype.Oneof? && d[j].htype.Oneof? && Head(d, i) == Head(d, j)
  }

  /** Descriptors that the nanopb generator writes: distinct nonzero tags that fit a wire tag,
      defaults of the right type, and no submessage without a has_ flag under implicit presence. */
  ghost predicate WfField(f: Field)
    decreases f, 1
  {
    && 1 <= f.tag < 0x2000_0000
    && f.dataSize <= PB_SIZE_MAX
    && (f.ltype.Submessage? ==> !f.htype.Singular? && WfDesc(f.sub))
    && (f.dflt.Some? ==> !f.ltype.Submessage? && TypedValue(f, f.dflt.value))
  }

  ghost predicate WfDesc(d: seq<Field>)
    decreases d, 0
  {
    && (forall i :: 0 <= i < |d| ==> WfField(d[i]))
    && (forall i, j :: 0 <= i < j < |d| ==> d[i].tag != d[j].tag)
  }

  function Zeros(n: nat): (z: seq<byte>)
    ensures |z| == n
  {
    seq(n, _ => 0)
  }

  /** What pb_field_set_to_default stores in the data of one field (pb_decode.c:798-815). */
  function DefaultValue(f: Field): (v: Value)
    decreases f, 0
  {
    if f.ltype.Submessage? then Msg(Defaults(f.sub))
    else if f.dflt.Some? then f.dflt.value
    else if f.ltype.FixedBytes? then Raw(Zeros(f.dataSize))
    else if f.ltype.Bytes? || f.ltype.String? then Raw([])
    else Num(0)
  }

  function DefaultSlot(f: Field): Slot
    decreases f, 1
  {
    match f.htype
    case Required => One(DefaultValue(f))
    case Singular => One(DefaultValue(f))
    case Optional => Opt(false, DefaultValue(f))
    case Repeated => Many([])
    case Oneof => Member(None)
  }

  /** pb_message_set_to_defaults */
  function Defaults(d: seq<Field>): (m: seq<Slot>)
    ensures |m| == |d|
    ensures forall i :: 0 <= i < |d| ==> m[i] == DefaultSlot(d[i])
    decreases d, 0
  {
    seq(|d|, i requires 0 <= i < |d| => DefaultSlot(d[i]))
  }

  lemma {:induction false} DefaultTyped(d: seq<Field>)
    requires WfDesc(d)
    ensures Typed(d, Defaults(d))
    decreases d, 0
  {
    forall i | 0 <= i < |d|
      ensures TypedSlot(d[i], DefaultSlot(d[i]))
    {
      DefaultValueTyped(d[i]);
    }
  }

  lemma {:induction false} DefaultValueTyped(f: Field)
    requires WfField(f)
    ensures TypedValue(f, DefaultValue(f))
    decreases f, 0
  {
    if f.ltype.Submessage? {
      DefaultTyped(f.sub);
    }
  }
}
