/** The objects behind DtlsReceive: the reassembly bitmask and the ring of incoming messages of d1_both.c, updated in
    place and proved to follow the state machine on values. */
module DtlsReceiver {
  import opened Bits
  import opened Wrappers
  import opened HandshakeWire
  import DtlsReceive

  // ----- the bitmask -----

  /** bit_range: bits start (inclusive) to end (exclusive) of a byte. */
  function BitRange(start: nat, end: nat): (b: byte)
    requires start <= 8 && end <= 8
  {
    PowMonotone(start, 32);
    And(Not(Pow2(start) - 1, 32), Pow2(end) - 1) % 0x100
  }

  lemma Pow2Of8()
    ensures Pow2(8) == 0x100
  {
    assert Pow2(4) == 16;
  }

  lemma BitRangeBit(start: nat, end: nat, k: nat)
    requires start <= 8 && end <= 8 && k < 8
    ensures Bit(BitRange(start, end), k) <==> start <= k < end
  {
    PowMonotone(start, 32);
    var low, high := Pow2(start) - 1, Pow2(end) - 1;
    LowBits(start, k);
    LowBits(end, k);
    MaskedBit(low, high, k);
  }

  lemma MaskedBit(low: nat, high: nat, k: nat)
    requires low < Pow2(32) && k < 8
    ensures Bit(And(Not(low, 32), high) % 0x100, k) <==> !Bit(low, k) && Bit(high, k)
  {
    var masked := And(Not(low, 32), high);
    Pow2Of8();
    ModBit(masked, 8, k);
    AndBit(Not(low, 32), high, k);
    NotBit(low, 32, k);
  }

  ghost predicate BitAt(a: seq<byte>, k: nat)
    requires k < 8 * |a|
  {
    Bit(a[k/8], k % 8)
  }

  lemma LowRange(n: nat)
    requires n <= 8
    ensures BitRange(0, n) == Pow2(n) - 1
  {
    Pow2Of8();
    PowMonotone(n, 8);
    PowMonotone(n, 32);
    forall k | 0 <= k < 8
      ensures Bit(BitRange(0, n), k) <==> Bit(Pow2(n) - 1, k)
    {
      BitRangeBit(0, n, k);
      LowBits(n, k);
    }
    Extensional(BitRange(0, n), Pow2(n) - 1, 8);
  }

  /** reassembly[i] |= v */
  method OrByte(a: array<byte>, i: nat, v: byte)
    requires i < a.Length
    modifies a
    ensures forall j :: 0 <= j < a.Length && j != i ==> a[j] == old(a[j])
    ensures forall k :: 0 <= k < 8 ==> (Bit(a[i], k) <==> old(Bit(a[i], k)) || Bit(v, k))
  {
    ghost var b := a[i];
    Pow2Of8();
    OrBound(b, v, 8);
    forall k | 0 <= k < 8 ensures Bit(Or(b, v), k) <==> Bit(b, k) || Bit(v, k) { OrBit(b, v, k); }
    a[i] := Or(a[i], v);
  }

  /** Whole bytes, one after another. */
  method FillBytes(a: array<byte>, from: nat, to: nat)
    requires from <= to <= a.Length
    modifies a
    ensures forall j :: 0 <= j < a.Length ==> a[j] == if from <= j < to then 0xff else old(a[j])
  {
    for i := from to to
      invariant forall j :: 0 <= j < a.Length ==> a[j] == if from <= j < i then 0xff else old(a[j])
    {
      a[i] := 0xff;
    }
  }

  /** The marking half of dtls1_hm_fragment_mark: partial first and last bytes, whole bytes between.  The range may be
      empty, but its start has to lie in the mask. */
  method SetRange(a: array<byte>, start: nat, end: nat)
    requires start <= end <= 8 * a.Length && start / 8 < a.Length
    modifies a
    ensures forall k :: 0 <= k < 8 * a.Length ==> (BitAt(a[..], k) <==> old(BitAt(a[..], k)) || start <= k < end)
  {
    var first, last := start / 8, end / 8;
    RangeBits(start % 8, end % 8);
    if first == last {
      OrByte(a, first, BitRange(start % 8, end % 8));
      return;
    }
    OrByte(a, first, BitRange(start % 8, 8));
    FillBytes(a, first + 1, last);
    if end % 8 != 0 {
      OrByte(a, last, BitRange(0, end % 8));
    }
  }

  lemma RangeBits(s: nat, e: nat)
    requires s < 8 && e < 8
    ensures forall k :: 0 <= k < 8 ==> (Bit(BitRange(s, e), k) <==> s <= k < e)
    ensures forall k :: 0 <= k < 8 ==> (Bit(BitRange(s, 8), k) <==> s <= k)
    ensures forall k :: 0 <= k < 8 ==> (Bit(BitRange(0, e), k) <==> k < e)
    ensures forall k :: 0 <= k < 8 ==> Bit(0xff, k)
  {
    Pow2Of8();
    forall k | 0 <= k < 8
      ensures Bit(BitRange(s, e), k) <==> s <= k < e
      ensures Bit(BitRange(s, 8), k) <==> s <= k
      ensures Bit(BitRange(0, e), k) <==> k < e
      ensures Bit(0xff, k)
    {
      BitRangeBit(s, e, k);
      BitRangeBit(s, 8, k);
      BitRangeBit(0, e, k);
      LowBits(8, k);
    }
  }

  /** The completeness check of dtls1_hm_fragment_mark: whole bytes first, then the low bits of a last partial byte. */
  method AllReceived(a: array<byte>, msgLen: nat) returns (all: bool)
    requires a.Length == (msgLen + 7) / 8
    requires forall k :: msgLen <= k < 8 * a.Length ==> !BitAt(a[..], k)
    ensures all <==> forall k :: 0 <= k < msgLen ==> BitAt(a[..], k)
  {
    LowRange(8);
    Pow2Of8();
    for i := 0 to msgLen / 8
      invariant forall k :: 0 <= k < 8 * i ==> BitAt(a[..], k)
    {
      ByteReceived(a[..], i, 8);
      if a[i] != 0xff {
        return false;
      }
    }
    var m, rest := msgLen / 8, msgLen % 8;
    if rest == 0 {
      return true;
    }
    LowRange(rest);
    ByteReceived(a[..], m, rest);
    return a[m] == BitRange(0, rest);
  }

  /** A byte of the mask that holds the last n bits in use. */
  lemma ByteReceived(a: seq<byte>, m: nat, n: nat)
    requires m < |a| && n <= 8
    requires forall k :: 8 * m + n <= k < 8 * m + 8 ==> !BitAt(a, k)
    ensures a[m] == Pow2(n) - 1 <==> forall k :: 8 * m <= k < 8 * m + n ==> BitAt(a, k)
  {
    Pow2Of8();
    forall k | 0 <= k < 8
      ensures Bit(a[m], k) <==> BitAt(a, 8 * m + k)
    {
      assert (8 * m + k) / 8 == m && (8 * m + k) % 8 == k;
    }
    MaskComplete(a[m], n, 8);
    if AllSet(a[m], n) {
      forall k | 8 * m <= k < 8 * m + n ensures BitAt(a, k) {
        assert Bit(a[m], k - 8 * m);
      }
    }
  }

  /** Which calls of dtls1_hm_fragment_mark stay inside the mask: every range with a first byte, and an empty range
      unless it stands at the end of a message whose length is a multiple of eight. */
  lemma MaskInBounds(start: nat, end: nat, msgLen: nat)
    requires start <= end <= msgLen
    ensures start / 8 < (msgLen + 7) / 8 <==> !(start == end == msgLen && msgLen % 8 == 0)
  {
  }

  /** Such a range comes from the network: a fragment with no bytes at the end of a message of eight passes every
      check, and marking it would take a byte behind the mask. */
  lemma EmptyTailReachesMark()
    ensures var f := Fragment(Header(1, 8, 0, 8, 0), []);
            && DtlsReceive.RecvFragment(DtlsReceive.START, 100, f).Some?
            && !(f.h.fragOff / 8 < (f.h.msgLen + 7) / 8)
  {
    MaskInBounds(8, 8, 8);
  }

  // ----- a message under assembly -----

  /** hm_fragment */
  class HmFragment {
    const ty: byte
    const seqNo: nat
    const msgLen: nat
    const data: array<byte>             // header and body
    var reassembly: array?<byte>        // null once the message is complete
    ghost var epochs: set<nat>
    ghost const repr: set<object>

    /** The mask has a bit for every byte and no others, and exists only while some byte is missing. */
    ghost predicate Valid()
      reads repr
    {
      && this in repr && data in repr && data.Length == HM_HEADER + msgLen
      && data[..HM_HEADER] == EncHeader(Header(ty, msgLen, seqNo, 0, msgLen))
      && (reassembly != null ==> reassembly in repr && reassembly != data && MaskOk(reassembly[..], msgLen))
    }

    ghost function Mask(): Option<seq<byte>>
      requires Valid()
      reads repr
    {
      if reassembly == null then None else Some(reassembly[..])
    }

    ghost function Got(): (g: seq<Option<byte>>)
      requires Valid()
      reads repr
      ensures |g| == msgLen
      ensures forall k :: 0 <= k < msgLen ==> g[k] == if MaskBit(Mask(), k) then Some(data[HM_HEADER + k]) else None
    {
      Overlay(data[HM_HEADER..], Mask())
    }

    ghost function Part(): DtlsReceive.Part
      requires Valid()
      reads repr
    {
      DtlsReceive.Part(ty, seqNo, Got(), epochs)
    }

    /** A missing mask stands for a complete message. */
    lemma MaskMeansIncomplete()
      requires Valid()
      ensures DtlsReceive.Complete(Part()) <==> reassembly == null
    {
      if reassembly != null {
        var k :| 0 <= k < msgLen && !BitAt(reassembly[..], k);
        assert Got()[k] == None;
      }
    }

    /** dtls1_hm_fragment_new */
    constructor (h: Header, ghost epoch: nat)
      ensures Valid() && fresh(repr)
      ensures Part() == DtlsReceive.Part(h.ty, h.seqNo, DtlsReceive.Blank(h.msgLen), {epoch})
    {
      ty, seqNo, msgLen, epochs := h.ty, h.seqNo, h.msgLen, {epoch};
      var header := EncHeader(Header(h.ty, h.msgLen, h.seqNo, 0, h.msgLen));
      var bytes := new byte[HM_HEADER + h.msgLen](i => if 0 <= i < HM_HEADER then header[i] else 0);
      var mask: array?<byte> := null;
      ghost var storage: set<object> := {bytes};
      if h.msgLen > 0 {
        mask := new byte[(h.msgLen + 7) / 8](_ => 0);
        storage := storage + {mask};
      }
      data, reassembly := bytes, mask;
      repr := {this} + storage;
      new;
      forall k: nat ensures !Bit(0, k) { NoBits(k); }
      assert reassembly != null ==> !BitAt(reassembly[..], 0);
      assert Got() == DtlsReceive.Blank(h.msgLen);
    }

    /** dtls1_hm_fragment_mark: the marked bytes are those marked before and the range, and the mask goes exactly when
        no byte is missing. */
    method Mark(start: nat, end: nat)
      requires Valid() && reassembly != null && start <= end <= msgLen && start / 8 < reassembly.Length
      modifies this`reassembly, reassembly
      ensures Valid() && (reassembly == null || reassembly == old(reassembly))
      ensures forall k :: 0 <= k < msgLen ==> (MaskBit(Mask(), k) <==> MaskBit(old(Mask()), k) || start <= k < end)
      ensures reassembly == null <==> forall k :: 0 <= k < msgLen ==> MaskBit(old(Mask()), k) || start <= k < end
    {
      ghost var was := reassembly[..];
      assert Mask() == Some(was);
      SetRange(reassembly, start, end);
      var all := AllReceived(reassembly, msgLen);
      if all {
        forall k | 0 <= k < msgLen ensures MaskBit(Some(was), k) || start <= k < end {
          assert BitAt(reassembly[..], k);
        }
        reassembly := null;
      } else {
        ghost var k :| 0 <= k < msgLen && !BitAt(reassembly[..], k);
        assert !MaskBit(Some(was), k) && !(start <= k < end);
      }
    }

    /** The body of a fragment goes to its place; the mask stays. */
    method CopyBody(off: nat, body: seq<byte>)
      requires Valid() && reassembly != null && off + |body| <= msgLen
      modifies data
      ensures Valid() && reassembly[..] == old(reassembly[..])
      ensures data[HM_HEADER..] == Splice(old(data[HM_HEADER..]), off, body)
    {
      ghost var mask := reassembly[..];
      CopyIn(data, HM_HEADER + off, body);
      assert data[..HM_HEADER] == old(data[..HM_HEADER]);
      assert reassembly[..] == mask;
    }

    /** The body of a fragment is copied to its place and marked (d1_both.c:387-390). */
    method Take(off: nat, body: seq<byte>, ghost epoch: nat)
      requires Valid() && reassembly != null && off + |body| <= msgLen
      modifies repr
      ensures Valid()
      ensures Part() == DtlsReceive.Part(ty, seqNo, DtlsReceive.Fill(old(Got()), off, body), old(epochs) + {epoch})
    {
      ghost var was, mask := data[HM_HEADER..], Mask();
      CopyBody(off, body);
      assert Mask() == mask;
      // An empty range at the end of a message of a multiple of eight bytes is the one case the mask cannot take;
      // it marks nothing.
      if off / 8 < reassembly.Length {
        Mark(off, off + |body|);
      }
      epochs := epochs + {epoch};
      OverlayFill(was, mask, Mask(), off, body);
    }
  }

  ghost predicate MaskOk(mask: seq<byte>, msgLen: nat) {
    && |mask| == (msgLen + 7) / 8
    && (forall k :: msgLen <= k < 8 * |mask| ==> !BitAt(mask, k))
    && exists k :: 0 <= k < msgLen && !BitAt(mask, k)
  }

  /** What a mask says of byte k; no mask marks all. */
  ghost predicate MaskBit(mask: Option<seq<byte>>, k: nat)
    requires mask.Some? ==> k < 8 * |mask.value|
  {
    mask.None? || BitAt(mask.value, k)
  }

  /** The bytes that a mask marks. */
  ghost function Overlay(body: seq<byte>, mask: Option<seq<byte>>): (g: seq<Option<byte>>)
    requires mask.Some? ==> MaskOk(mask.value, |body|)
    ensures |g| == |body|
    ensures forall k :: 0 <= k < |body| ==> g[k] == if MaskBit(mask, k) then Some(body[k]) else None
  {
    seq(|body|, k requires 0 <= k < |body| => if MaskBit(mask, k) then Some(body[k]) else None)
  }

  function Splice(s: seq<byte>, off: nat, body: seq<byte>): (r: seq<byte>)
    requires off + |body| <= |s|
    ensures |r| == |s|
  {
    s[..off] + body + s[off + |body|..]
  }

  /** Splicing bytes in and marking them fills them in. */
  lemma OverlayFill(s: seq<byte>, mask: Option<seq<byte>>, mask': Option<seq<byte>>, off: nat, body: seq<byte>)
    requires off + |body| <= |s|
    requires (mask.Some? ==> MaskOk(mask.value, |s|)) && (mask'.Some? ==> MaskOk(mask'.value, |s|))
    requires forall k :: 0 <= k < |s| ==> (MaskBit(mask', k) <==> MaskBit(mask, k) || off <= k < off + |body|)
    ensures Overlay(Splice(s, off, body), mask') == DtlsReceive.Fill(Overlay(s, mask), off, body)
  {
  }

  /** OPENSSL_memcpy into an array */
  method CopyIn(a: array<byte>, at: nat, s: seq<byte>)
    requires at + |s| <= a.Length
    modifies a
    ensures forall k :: 0 <= k < a.Length ==> a[k] == if at <= k < at + |s| then s[k - at] else old(a[k])
  {
    for i := 0 to |s|
      invariant forall k :: 0 <= k < a.Length ==> a[k] == if at <= k < at + i then s[k - at] else old(a[k])
    {
      a[at + i] := s[i];
    }
  }

  // ----- the ring -----

  datatype Status = Done | Retry | Fatal

  /** The receiving half of dtls1_state_st, with init_msg and reuse_message. */
  class MessageRing {
    const incoming: array<HmFragment?>
    const maxLen: nat                   // ssl_max_handshake_message_len
    var readSeq: nat
    var rEpoch: nat
    var initMsg: bool                   // init_msg != NULL
    var reuseMessage: bool
    ghost var parts: seq<Option<DtlsReceive.Part>>
    ghost var repr: set<object>

    /** The messages under assembly own disjoint storage, and parts says what each holds. */
    ghost predicate Valid()
      reads this, repr
    {
      && this in repr && incoming in repr && incoming.Length == FLIGHT == |parts|
      && (forall i :: 0 <= i < FLIGHT ==> Slot(i))
      && forall i, j :: 0 <= i < j < FLIGHT ==> Apart(incoming[i], incoming[j])
    }

    ghost predicate Slot(i: nat)
      requires i < FLIGHT && incoming.Length == FLIGHT == |parts| && incoming in repr
      reads this, repr
    {
      var f := incoming[i];
      if f == null then parts[i] == None
      else f.repr <= repr && this !in f.repr && incoming !in f.repr && f.Valid() && parts[i] == Some(f.Part())
    }

    static ghost predicate Apart(f: HmFragment?, g: HmFragment?) {
      f != null && g != null ==> f.repr !! g.repr
    }

    /** The state that DtlsReceive reasons about. */
    ghost function Abs(): (r: DtlsReceive.Receiver)
      reads this
    {
      DtlsReceive.Receiver(readSeq, parts, rEpoch, initMsg, reuseMessage)
    }

    constructor (maxMessageLen: nat)
      ensures Valid() && fresh(repr) && Abs() == DtlsReceive.START && maxLen == maxMessageLen
    {
      incoming := new HmFragment?[FLIGHT](_ => null);
      maxLen, readSeq, rEpoch, initMsg, reuseMessage := maxMessageLen, 0, 0, false, false;
      parts := DtlsReceive.START.ring;
      repr := {this, incoming};
    }

    /** dtls1_is_current_message_complete */
    method IsCurrentMessageComplete() returns (ready: bool)
      requires Valid()
      ensures ready <==> DtlsReceive.Ready(Abs())
    {
      var i := readSeq % FLIGHT;
      assert Slot(i);
      var frag := incoming[i];
      if frag != null {
        frag.MaskMeansIncomplete();
      }
      return frag != null && frag.reassembly == null;
    }

    /** The ring with an entry for the message of h, empty if it is new. */
    static function Opened(r: DtlsReceive.Receiver, h: Header): (r': DtlsReceive.Receiver)
      requires |r.ring| == FLIGHT
      ensures |r'.ring| == FLIGHT && r'.ring[h.seqNo % FLIGHT].Some?
    {
      if r.ring[h.seqNo % FLIGHT].Some? then r
      else
        DtlsReceive.Keep(r, h.seqNo % FLIGHT, DtlsReceive.Part(h.ty, h.seqNo, DtlsReceive.Blank(h.msgLen), {r.epoch}))
    }

    /** incoming_messages[i] = frag for a new message */
    method Insert(i: nat, frag: HmFragment)
      requires Valid() && i < FLIGHT && incoming[i] == null && frag.Valid() && frag.repr !! repr
      modifies this`parts, this`repr, incoming
      ensures Valid() && repr == old(repr) + frag.repr && incoming[i] == frag
      ensures parts == old(parts)[i := Some(frag.Part())]
    {
      label before:
      assert forall j :: 0 <= j < FLIGHT ==> Slot(j);
      incoming[i] := frag;
      parts := parts[i := Some(frag.Part())];
      repr := repr + frag.repr;
      forall j | 0 <= j < FLIGHT
        ensures Slot(j) && (j != i ==> Apart(incoming[j], frag) && Apart(frag, incoming[j]))
      {
        assert old@before(Slot(j));
      }
    }

    /** dtls1_get_incoming_message */
    method GetIncomingMessage(h: Header) returns (frag: HmFragment?)
      requires Valid() && DtlsReceive.RingOk(Abs())
      modifies this`parts, this`repr, incoming
      ensures Valid() && fresh(repr - old(repr))
      ensures frag == null <==>
                || h.seqNo < readSeq || h.seqNo - readSeq >= FLIGHT
                || var p := old(parts)[h.seqNo % FLIGHT]; p.Some? && (p.value.ty != h.ty || |p.value.got| != h.msgLen)
      ensures if frag == null then parts == old(parts)
              else Abs() == Opened(old(Abs()), h) && frag == incoming[h.seqNo % FLIGHT] && frag.msgLen == h.msgLen
    {
      if h.seqNo < readSeq || h.seqNo - readSeq >= FLIGHT {
        return null;
      }
      var idx := h.seqNo % FLIGHT;
      assert Slot(idx);
      frag := incoming[idx];
      if frag != null {
        DtlsReceive.InWindow(frag.seqNo, h.seqNo, readSeq);
        if frag.ty != h.ty || frag.msgLen != h.msgLen {
          return null;
        }
        return frag;
      }
      frag := new HmFragment(h, rEpoch);
      Insert(idx, frag);
    }

    /** Copies a fragment into its message, unless that is assembled already. */
    method Assemble(frag: HmFragment, ghost i: nat, off: nat, body: seq<byte>)
      requires Valid() && i < FLIGHT && frag == incoming[i] && off + |body| <= frag.msgLen
      requires parts[i].Some? && |parts[i].value.got| == frag.msgLen
      modifies this`parts, frag.repr
      ensures Valid() && parts[i].Some?
      ensures var p := old(parts)[i].value;
              parts == if DtlsReceive.Complete(p) then old(parts) else old(parts)[i := Some(
                DtlsReceive.Part(p.ty, p.seqNo, DtlsReceive.Fill(p.got, off, body), p.epochs + {rEpoch}))]
    {
      assert Slot(i);
      frag.MaskMeansIncomplete();
      if frag.reassembly == null {
        return;
      }
      frag.Take(off, body, rEpoch);
      parts := parts[i := Some(frag.Part())];
      forall j | 0 <= j < FLIGHT ensures Slot(j) {
        assert old(Slot(j));
        assert if j < i then Apart(incoming[j], incoming[i]) else j > i ==> Apart(incoming[i], incoming[j]);
      }
    }

    /** One fragment of dtls1_process_handshake_record; false is a fatal error. */
    method ProcessFragment(f: Fragment) returns (ok: bool)
      requires Valid() && DtlsReceive.RingOk(Abs()) && |f.body| == f.h.fragLen
      modifies this`parts, this`repr, repr - {this}
      ensures Valid() && fresh(repr - old(repr))
      ensures var o := DtlsReceive.RecvFragment(old(Abs()), maxLen, f); (ok <==> o.Some?) && (ok ==> Abs() == o.value)
    {
      var h := f.h;
      if h.fragOff > h.msgLen || h.fragOff + h.fragLen > h.msgLen || h.msgLen > maxLen {
        return false;
      }
      if rEpoch == 1 && h.seqNo != readSeq {
        return false;
      }
      if h.seqNo < readSeq || h.seqNo > readSeq + FLIGHT {
        return true;
      }
      var frag := GetIncomingMessage(h);
      if frag == null {
        return false;
      }
      assert Slot(h.seqNo % FLIGHT);
      Assemble(frag, h.seqNo % FLIGHT, h.fragOff, f.body);
      OpenedThenFilled(old(Abs()), maxLen, f);
      return true;
    }

    static lemma OpenedThenFilled(r: DtlsReceive.Receiver, max: nat, f: Fragment)
      requires |r.ring| == FLIGHT && |f.body| == f.h.fragLen && f.h.fragOff + f.h.fragLen <= f.h.msgLen <= max
      requires r.readSeq <= f.h.seqNo < r.readSeq + FLIGHT && !(r.epoch == 1 && f.h.seqNo != r.readSeq)
      requires var p := r.ring[f.h.seqNo % FLIGHT]; p.Some? ==> p.value.ty == f.h.ty && |p.value.got| == f.h.msgLen
      ensures var i, o := f.h.seqNo % FLIGHT, Opened(r, f.h);
              var p := o.ring[i].value;
              DtlsReceive.RecvFragment(r, max, f)
              == Some(if DtlsReceive.Complete(p) then o
                      else DtlsReceive.Keep(o, i,
                        DtlsReceive.Part(p.ty, p.seqNo, DtlsReceive.Fill(p.got, f.h.fragOff, f.body),
                                         p.epochs + {r.epoch})))
    {
      var i := f.h.seqNo % FLIGHT;
      var p := Opened(r, f.h).ring[i].value;
      if f.h.msgLen == 0 {
        assert DtlsReceive.Fill(DtlsReceive.Blank(0), f.h.fragOff, f.body) == DtlsReceive.Blank(0);
      } else if r.ring[i].None? {
        assert DtlsReceive.Blank(f.h.msgLen)[0] == None;
        var q := DtlsReceive.Part(p.ty, p.seqNo, DtlsReceive.Fill(p.got, f.h.fragOff, f.body), p.epochs + {r.epoch});
        assert r.ring[i := Some(p)][i := Some(q)] == r.ring[i := Some(q)];
        assert {r.epoch} + {r.epoch} == {r.epoch};
      }
    }

    /** The loop of dtls1_process_handshake_record over the fragments of a record. */
    method ProcessPayload(s: seq<byte>) returns (ok: bool)
      requires Valid() && DtlsReceive.RingOk(Abs())
      modifies this`parts, this`repr, repr - {this}
      ensures Valid() && fresh(repr - old(repr))
      ensures var o := DtlsReceive.RecvPayload(old(Abs()), maxLen, s); (ok <==> o.Some?) && (ok ==> Abs() == o.value)
      ensures ok ==> DtlsReceive.RingOk(Abs())
    {
      var rest := s;
      while rest != []
        invariant Valid() && fresh(repr - old(repr)) && DtlsReceive.RingOk(Abs())
        invariant DtlsReceive.RecvPayload(old(Abs()), maxLen, s) == DtlsReceive.RecvPayload(Abs(), maxLen, rest)
        decreases |rest|
      {
        var parsed := ParseFragment(rest);
        if parsed.None? {
          return false;
        }
        var (f, after) := parsed.value;
        ghost var was := Abs();
        var taken := ProcessFragment(f);
        if !taken {
          return false;
        }
        DtlsReceive.FragmentKeepsRing(was, maxLen, f);
        rest := after;
      }
      return true;
    }

    /** dtls1_process_handshake_record once a record is there. */
    method ProcessRecord(rec: DtlsReceive.Record) returns (ok: bool)
      requires Valid() && DtlsReceive.RingOk(Abs())
      modifies this`parts, this`repr, repr - {this}
      ensures Valid() && fresh(repr - old(repr))
      ensures var o := DtlsReceive.RecvRecord(old(Abs()), maxLen, rec); (ok <==> o.Some?) && (ok ==> Abs() == o.value)
      ensures ok ==> DtlsReceive.RingOk(Abs())
    {
      if (rec.ApplicationData? && rEpoch > 0) || (rec.ChangeCipherSpec? && rEpoch == 0) {
        return true;
      }
      if !rec.Handshake? {
        return false;
      }
      ok := ProcessPayload(rec.payload);
    }

    /** dtls1_release_current_message */
    method ReleaseCurrentMessage()
      requires Valid() && DtlsReceive.RingOk(Abs())
      modifies this`parts, this`readSeq, this`initMsg, incoming
      ensures Valid() && Abs() == DtlsReceive.Release(old(Abs()))
    {
      if !initMsg {
        return;
      }
      var index := readSeq % FLIGHT;
      incoming[index] := null;
      parts := parts[index := None];
      readSeq := readSeq + 1;
      initMsg := false;
      forall j | 0 <= j < FLIGHT ensures Slot(j) {
        assert old(Slot(j));
      }
      forall i, j | 0 <= i < j < FLIGHT ensures Apart(incoming[i], incoming[j]) {
        assert old(Apart(incoming[i], incoming[j]));
      }
    }

    /** The end of dtls1_get_message: the message is complete and becomes the current one. */
    method Deliver() returns (m: Message)
      requires Valid() && DtlsReceive.Ready(Abs())
      modifies this`initMsg
      ensures Valid() && Abs() == old(Abs()).(current := true) && m == DtlsReceive.CurrentMessage(Abs())
    {
      var i := readSeq % FLIGHT;
      assert Slot(i);
      var frag := incoming[i];
      frag.MaskMeansIncomplete();
      m := Message(frag.ty, frag.data[HM_HEADER..]);
      assert m.body == DtlsReceive.Bytes(frag.Part());
      initMsg := true;
      forall j | 0 <= j < FLIGHT ensures Slot(j) {
        assert old(Slot(j));
      }
    }

    /** The first step of dtls1_get_message. */
    method Advance()
      requires Valid() && DtlsReceive.RingOk(Abs())
      modifies this`parts, this`readSeq, this`initMsg, this`reuseMessage, incoming
      ensures Valid() && Abs() == DtlsReceive.Advance(old(Abs()))
    {
      if reuseMessage {
        reuseMessage := false;
        forall j | 0 <= j < FLIGHT ensures Slot(j) {
          assert old(Slot(j));
        }
      } else {
        ReleaseCurrentMessage();
      }
    }

    /** The loop of dtls1_get_message over the records that arrive. */
    method Await(records: seq<DtlsReceive.Record>) returns (status: Status, rest: seq<DtlsReceive.Record>)
      requires Valid() && DtlsReceive.RingOk(Abs())
      modifies this`parts, this`repr, repr - {this}
      ensures Valid() && fresh(repr - old(repr))
      ensures match DtlsReceive.Await(old(Abs()), maxLen, records)
              case Failed => status == Fatal
              case Blocked(r) => status == Retry && Abs() == r
              case Delivered(r, after) => status == Done && Abs().(current := true) == r && rest == after
    {
      rest := records;
      var ready := IsCurrentMessageComplete();
      while !ready
        invariant Valid() && fresh(repr - old(repr)) && DtlsReceive.RingOk(Abs()) && ready == DtlsReceive.Ready(Abs())
        invariant DtlsReceive.Await(old(Abs()), maxLen, records) == DtlsReceive.Await(Abs(), maxLen, rest)
        decreases |rest|
      {
        if rest == [] {
          return Retry, rest;
        }
        var ok := ProcessRecord(rest[0]);
        if !ok {
          return Fatal, rest;
        }
        rest := rest[1..];
        ready := IsCurrentMessageComplete();
      }
      status := Done;
    }

    /** dtls1_get_message */
    method GetMessage(records: seq<DtlsReceive.Record>)
      returns (status: Status, m: Option<Message>, rest: seq<DtlsReceive.Record>)
      requires Valid() && DtlsReceive.RingOk(Abs())
      modifies this`parts, this`repr, this`readSeq, this`initMsg, this`reuseMessage, repr - {this}
      ensures Valid() && fresh(repr - old(repr))
      ensures match DtlsReceive.GetMessage(old(Abs()), maxLen, records)
              case Failed => status == Fatal
              case Blocked(r) => status == Retry && Abs() == r
              case Delivered(r, after) =>
                status == Done && Abs() == r && rest == after && m == Some(DtlsReceive.CurrentMessage(r))
    {
      DtlsReceive.AdvanceKeepsRing(Abs());
      Advance();
      m := None;
      status, rest := Await(records);
      if status == Done {
        var current := Deliver();
        m := Some(current);
      }
    }

    /** dtls_has_incoming_messages */
    method HasIncomingMessages() returns (some: bool)
      requires Valid()
      ensures some <==> DtlsReceive.HasIncoming(Abs())
    {
      var current := readSeq % FLIGHT;
      for i := 0 to FLIGHT
        invariant forall j :: 0 <= j < i ==> parts[j].None? || (initMsg && j == current)
      {
        assert Slot(i);
        if initMsg && i == current {
          continue;
        }
        if incoming[i] != null {
          assert parts[i].Some?;
          return true;
        }
      }
      return false;
    }

    /** dtls1_set_read_state, apart from the replay window that it resets. */
    method SetReadState() returns (ok: bool)
      requires Valid()
      modifies this`rEpoch
      ensures Valid()
      ensures var o := DtlsReceive.SetReadState(old(Abs()));
              (ok <==> o.Some?) && Abs() == if ok then o.value else old(Abs())
    {
      var buffered := HasIncomingMessages();
      if buffered {
        return false;
      }
      rEpoch := rEpoch + 1;
      forall j | 0 <= j < FLIGHT ensures Slot(j) {
        assert old(Slot(j));
      }
      return true;
    }
  }

  /** dtls1_read_change_cipher_spec over the records that arrive. */
  method ReadChangeCipherSpec(records: seq<DtlsReceive.Record>) returns (status: Status)
    ensures status == match DtlsReceive.ReadCcs(records)
                      case GotCcs => Done
                      case CcsBlocked => Retry
                      case CcsFailed => Fatal
  {
    var rest := records;
    while rest != [] && rest[0].Handshake?
      invariant DtlsReceive.ReadCcs(records) == DtlsReceive.ReadCcs(rest)
      decreases |rest|
    {
      rest := rest[1..];
    }
    if rest == [] {
      return Retry;
    }
    status := if rest[0].ChangeCipherSpec? && rest[0].payload == [1] then Done else Fatal;
  }
}
