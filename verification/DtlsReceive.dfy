/** Reassembly of DTLS handshake messages (d1_both.c:258-475), as a state machine on values.
    The classes of DtlsReceiver are proved to follow it. */
module DtlsReceive {
  import opened Bits
  import opened Wrappers
  import opened HandshakeWire

  /** hm_fragment: a message under assembly.  got[k] is byte k once it has arrived; epochs are those of the records
      that contributed to it. */
  datatype Part = Part(ty: byte, seqNo: nat, got: seq<Option<byte>>, epochs: set<nat>)

  predicate Complete(p: Part) { forall k :: 0 <= k < |p.got| ==> p.got[k].Some? }

  function Bytes(p: Part): (b: seq<byte>)
    requires Complete(p)
    ensures |b| == |p.got|
  {
    seq(|p.got|, k requires 0 <= k < |p.got| => p.got[k].value)
  }

  /** What d1_both.c keeps of the receiving side: the ring, the number of the next message, the read epoch, whether
      there is a current message (init_msg) and whether it was pushed back (reuse_message). */
  datatype Receiver = Receiver(readSeq: nat, ring: seq<Option<Part>>, epoch: nat, current: bool, reuse: bool)

  const START: Receiver := Receiver(0, seq(FLIGHT, _ => None), 0, false, false)

  /** Slot i only ever holds a message whose number is i modulo the ring's size and in the window from readSeq on, and
      a current message is the complete one at readSeq. */
  ghost predicate RingOk(r: Receiver) {
    && |r.ring| == FLIGHT
    && (forall i :: 0 <= i < FLIGHT && r.ring[i].Some? ==>
          r.ring[i].value.seqNo % FLIGHT == i && r.readSeq <= r.ring[i].value.seqNo < r.readSeq + FLIGHT)
    && (r.current ==> Ready(r))
    && (r.reuse ==> r.current)
  }

  /** dtls1_is_current_message_complete */
  predicate Ready(r: Receiver)
    requires |r.ring| == FLIGHT
  {
    var p := r.ring[r.readSeq % FLIGHT];
    p.Some? && Complete(p.value)
  }

  /** Bytes off.. of a message become those of `body`. */
  function Fill(got: seq<Option<byte>>, off: nat, body: seq<byte>): (g: seq<Option<byte>>)
    requires off + |body| <= |got|
    ensures |g| == |got|
  {
    seq(|got|, k requires 0 <= k < |got| => if off <= k < off + |body| then Some(body[k - off]) else got[k])
  }

  function Blank(n: nat): (g: seq<Option<byte>>)
    ensures |g| == n
  {
    seq(n, _ => None)
  }

  /** One fragment of a handshake record (d1_both.c:350-390 and 270-299); None is a fatal error.
      The range check lets a number of exactly readSeq + FLIGHT pass, which dtls1_get_incoming_message then refuses. */
  function RecvFragment(r: Receiver, maxLen: nat, f: Fragment): (o: Option<Receiver>)
    requires |r.ring| == FLIGHT && |f.body| == f.h.fragLen
    ensures o.Some? ==> |o.value.ring| == FLIGHT
  {
    var h := f.h;
    if h.fragOff + h.fragLen > h.msgLen || h.msgLen > maxLen then None
    else if r.epoch == 1 && h.seqNo != r.readSeq then None
    else if h.seqNo < r.readSeq || h.seqNo > r.readSeq + FLIGHT then Some(r)
    else if h.seqNo - r.readSeq >= FLIGHT then None
    else
      var i := h.seqNo % FLIGHT;
      match r.ring[i]
      case Some(p) =>
        if p.ty != h.ty || |p.got| != h.msgLen then None
        else if Complete(p) then Some(r)
        else Some(Keep(r, i, Part(p.ty, p.seqNo, Fill(p.got, h.fragOff, f.body), p.epochs + {r.epoch})))
      case None =>
        Some(Keep(r, i, Part(h.ty, h.seqNo, Fill(Blank(h.msgLen), h.fragOff, f.body), {r.epoch})))
  }

  function Keep(r: Receiver, i: nat, p: Part): Receiver
    requires i < |r.ring|
  {
    r.(ring := r.ring[i := Some(p)])
  }

  /** The loop over the fragments of one handshake record; None is a fatal error. */
  function RecvPayload(r: Receiver, maxLen: nat, s: seq<byte>): (o: Option<Receiver>)
    requires |r.ring| == FLIGHT
    ensures o.Some? ==> |o.value.ring| == FLIGHT
    decreases |s|
  {
    if s == [] then Some(r)
    else match ParseFragment(s)
      case None => None
      case Some((f, rest)) =>
        match RecvFragment(r, maxLen, f)
        case None => None
        case Some(r') => RecvPayload(r', maxLen, rest)
  }

  /** SSL3_RT_* as far as they matter here. */
  datatype Record = Handshake(payload: seq<byte>) | ChangeCipherSpec(payload: seq<byte>) | ApplicationData | OtherRecord

  /** dtls1_process_handshake_record on the next record.  Application data in the encrypted epoch and
      ChangeCipherSpec in the clear one are out of order and dropped. */
  function RecvRecord(r: Receiver, maxLen: nat, rec: Record): (o: Option<Receiver>)
    requires |r.ring| == FLIGHT
    ensures o.Some? ==> |o.value.ring| == FLIGHT
  {
    match rec
    case Handshake(payload) => RecvPayload(r, maxLen, payload)
    case ApplicationData => if r.epoch > 0 then Some(r) else None
    case ChangeCipherSpec(_) => if r.epoch == 0 then Some(r) else None
    case OtherRecord => None
  }

  /** dtls1_release_current_message */
  function Release(r: Receiver): (r': Receiver)
    requires |r.ring| == FLIGHT
    ensures |r'.ring| == FLIGHT
  {
    if !r.current then r
    else r.(ring := r.ring[r.readSeq % FLIGHT := None], readSeq := r.readSeq + 1, current := false)
  }

  /** The first step of dtls1_get_message: a message that was pushed back stays, any other is let go. */
  function Advance(r: Receiver): (r': Receiver)
    requires |r.ring| == FLIGHT
    ensures |r'.ring| == FLIGHT
  {
    if r.reuse then r.(reuse := false) else Release(r)
  }

  datatype Got = Delivered(r: Receiver, rest: seq<Record>) | Blocked(r: Receiver) | Failed

  /** The loop of dtls1_get_message over the records that arrive; Blocked is a read that has to be retried. */
  function Await(r: Receiver, maxLen: nat, records: seq<Record>): (g: Got)
    requires |r.ring| == FLIGHT
    ensures g.Delivered? ==> |g.r.ring| == FLIGHT && Ready(g.r)
    ensures g.Blocked? ==> |g.r.ring| == FLIGHT
    decreases |records|
  {
    if Ready(r) then Delivered(r.(current := true), records)
    else if records == [] then Blocked(r)
    else match RecvRecord(r, maxLen, records[0])
      case None => Failed
      case Some(r') => Await(r', maxLen, records[1..])
  }

  /** dtls1_get_message */
  function GetMessage(r: Receiver, maxLen: nat, records: seq<Record>): (g: Got)
    requires |r.ring| == FLIGHT
    ensures g.Delivered? ==> |g.r.ring| == FLIGHT && Ready(g.r)
    ensures g.Blocked? ==> |g.r.ring| == FLIGHT
  {
    Await(Advance(r), maxLen, records)
  }

  function CurrentMessage(r: Receiver): Message
    requires |r.ring| == FLIGHT && Ready(r)
  {
    var p := r.ring[r.readSeq % FLIGHT].value;
    Message(p.ty, Bytes(p))
  }

  /** dtls_has_incoming_messages: anything buffered besides the current message. */
  predicate HasIncoming(r: Receiver)
    requires |r.ring| == FLIGHT
  {
    exists i :: 0 <= i < FLIGHT && r.ring[i].Some? && !(r.current && i == r.readSeq % FLIGHT)
  }

  /** dtls1_set_read_state: refused while messages are buffered, otherwise the next epoch begins. */
  function SetReadState(r: Receiver): (o: Option<Receiver>)
    requires |r.ring| == FLIGHT
  {
    if HasIncoming(r) then None else Some(r.(epoch := r.epoch + 1))
  }

  // ----- the ring -----

  lemma InWindow(a: nat, b: nat, lo: nat)
    requires lo <= a < lo + FLIGHT && lo <= b < lo + FLIGHT && a % FLIGHT == b % FLIGHT
    ensures a == b
  {
  }

  lemma FragmentKeepsRing(r: Receiver, maxLen: nat, f: Fragment)
    requires RingOk(r) && |f.body| == f.h.fragLen && RecvFragment(r, maxLen, f).Some?
    ensures var r' := RecvFragment(r, maxLen, f).value;
            && RingOk(r') && r'.readSeq == r.readSeq
            && r'.current == r.current && r'.reuse == r.reuse && r'.epoch == r.epoch
  {
    var r' := RecvFragment(r, maxLen, f).value;
    var i := f.h.seqNo % FLIGHT;
    if r' != r && r.ring[i].Some? {
      InWindow(r.ring[i].value.seqNo, f.h.seqNo, r.readSeq);
      if i == r.readSeq % FLIGHT {
        InWindow(f.h.seqNo, r.readSeq, r.readSeq);
      }
    }
  }

  lemma AdvanceKeepsRing(r: Receiver)
    requires RingOk(r)
    ensures RingOk(Advance(r)) && !Advance(r).reuse
  {
  }

  lemma {:induction false} PayloadKeepsRing(r: Receiver, maxLen: nat, s: seq<byte>)
    requires RingOk(r) && RecvPayload(r, maxLen, s).Some?
    ensures var r' := RecvPayload(r, maxLen, s).value;
            && RingOk(r') && r'.readSeq == r.readSeq
            && r'.current == r.current && r'.reuse == r.reuse && r'.epoch == r.epoch
    decreases |s|
  {
    if s != [] {
      var (f, rest) := ParseFragment(s).value;
      FragmentKeepsRing(r, maxLen, f);
      PayloadKeepsRing(RecvFragment(r, maxLen, f).value, maxLen, rest);
    }
  }

  /** What a genuine network may deliver: pieces of the sender's messages. */
  predicate Genuine(msgs: seq<Message>, f: Fragment)
  {
    && f.h.seqNo < |msgs| && |f.body| == f.h.fragLen
    && var m := msgs[f.h.seqNo];
       && f.h.ty == m.ty && f.h.msgLen == |m.body| && f.h.fragOff + f.h.fragLen <= |m.body|
       && f.body == m.body[f.h.fragOff..f.h.fragOff + f.h.fragLen]
  }

  predicate GenuinePayload(msgs: seq<Message>, s: seq<byte>) {
    || s == []
    || (ParseFragment(s).Some? && var (f, rest) := ParseFragment(s).value;
          Genuine(msgs, f) && GenuinePayload(msgs, rest))
  }

  predicate GenuineRecords(msgs: seq<Message>, records: seq<Record>) {
    forall k :: 0 <= k < |records| && records[k].Handshake? ==> GenuinePayload(msgs, records[k].payload)
  }

  /** Any sequence of genuine fragments, packed into one record, is a genuine payload. */
  lemma {:induction false} GenuineFragments(msgs: seq<Message>, fs: seq<Fragment>)
    requires forall k :: 0 <= k < |fs| ==> Genuine(msgs, fs[k]) && Encodable(fs[k].h)
    ensures GenuinePayload(msgs, EncFragments(fs))
  {
    if fs != [] {
      ParseRoundTrip(fs[0], EncFragments(fs[1..]));
      GenuineFragments(msgs, fs[1..]);
    }
  }

  /** Everything that has been put together so far agrees with the sender's messages. */
  ghost predicate Faithful(r: Receiver, msgs: seq<Message>)
    requires |r.ring| == FLIGHT
  {
    forall i :: 0 <= i < FLIGHT && r.ring[i].Some? ==> FaithfulPart(r.ring[i].value, msgs)
  }

  ghost predicate FaithfulPart(p: Part, msgs: seq<Message>) {
    && p.seqNo < |msgs| && p.ty == msgs[p.seqNo].ty && |p.got| == |msgs[p.seqNo].body|
    && forall k :: 0 <= k < |p.got| && p.got[k].Some? ==> p.got[k].value == msgs[p.seqNo].body[k]
  }

  lemma FragmentKeepsFaith(r: Receiver, maxLen: nat, f: Fragment, msgs: seq<Message>)
    requires RingOk(r) && Faithful(r, msgs) && Genuine(msgs, f) && RecvFragment(r, maxLen, f).Some?
    ensures Faithful(RecvFragment(r, maxLen, f).value, msgs)
  {
    var r' := RecvFragment(r, maxLen, f).value;
    var i := f.h.seqNo % FLIGHT;
    if r' != r {
      if r.ring[i].Some? {
        InWindow(r.ring[i].value.seqNo, f.h.seqNo, r.readSeq);
        assert FaithfulPart(r.ring[i].value, msgs);
      }
      assert FaithfulPart(r'.ring[i].value, msgs);
    }
  }

  lemma {:induction false} PayloadKeepsFaith(r: Receiver, maxLen: nat, s: seq<byte>, msgs: seq<Message>)
    requires RingOk(r) && Faithful(r, msgs) && GenuinePayload(msgs, s) && RecvPayload(r, maxLen, s).Some?
    ensures Faithful(RecvPayload(r, maxLen, s).value, msgs)
    decreases |s|
  {
    if s != [] {
      var (f, rest) := ParseFragment(s).value;
      FragmentKeepsRing(r, maxLen, f);
      FragmentKeepsFaith(r, maxLen, f, msgs);
      PayloadKeepsFaith(RecvFragment(r, maxLen, f).value, maxLen, rest, msgs);
    }
  }

  lemma {:induction false} AwaitKeeps(r: Receiver, maxLen: nat, records: seq<Record>, msgs: seq<Message>)
    requires RingOk(r) && !r.reuse && Faithful(r, msgs) && GenuineRecords(msgs, records)
    ensures var g := Await(r, maxLen, records);
            && (g.Delivered? ==>
                  && RingOk(g.r) && Faithful(g.r, msgs)
                  && g.r == g.r.(readSeq := r.readSeq, current := true, reuse := false, epoch := r.epoch))
            && (g.Blocked? ==>
                  && RingOk(g.r) && Faithful(g.r, msgs)
                  && g.r == g.r.(readSeq := r.readSeq, current := false, reuse := false, epoch := r.epoch))
    decreases |records|
  {
    if !Ready(r) && records != [] {
      var o := RecvRecord(r, maxLen, records[0]);
      if o.Some? {
        if records[0].Handshake? {
          PayloadKeepsRing(r, maxLen, records[0].payload);
          PayloadKeepsFaith(r, maxLen, records[0].payload, msgs);
        }
        AwaitKeeps(o.value, maxLen, records[1..], msgs);
      }
    }
  }

  // ----- whole connections -----

  /** What the layers above do: ask for a message with records arriving meanwhile, push the current message back
      (reuse_message = 1), or read ChangeCipherSpec and switch the read cipher. */
  datatype Call = Get(records: seq<Record>) | PushBack | Switch(records: seq<Record>)

  datatype Conn = Conn(r: Receiver, log: seq<Message>, dead: bool)

  datatype Ccs = GotCcs | CcsBlocked | CcsFailed

  /** dtls1_read_change_cipher_spec: handshake records are dropped as retransmissions. */
  function ReadCcs(records: seq<Record>): Ccs {
    if records == [] then CcsBlocked
    else match records[0]
      case Handshake(_) => ReadCcs(records[1..])
      case ChangeCipherSpec(payload) => if payload == [1] then GotCcs else CcsFailed
      case _ => CcsFailed
  }

  function Step(c: Conn, maxLen: nat, call: Call): (c': Conn)
    requires |c.r.ring| == FLIGHT
    ensures |c'.r.ring| == FLIGHT
  {
    if c.dead then c
    else match call
      case Get(records) =>
        (match GetMessage(c.r, maxLen, records)
         case Failed => c.(dead := true)
         case Blocked(r) => c.(r := r)
         case Delivered(r, _) => c.(r := r, log := if c.r.reuse then c.log else c.log + [CurrentMessage(r)]))
      case PushBack => c.(r := c.r.(reuse := c.r.current))
      case Switch(records) =>
        match ReadCcs(records)
        case CcsFailed => c.(dead := true)
        case CcsBlocked => c
        case GotCcs =>
          match SetReadState(c.r)
          case None => c.(dead := true)
          case Some(r) => c.(r := r)
  }

  function Run(c: Conn, maxLen: nat, calls: seq<Call>): (c': Conn)
    requires |c.r.ring| == FLIGHT
    ensures |c'.r.ring| == FLIGHT
    decreases |calls|
  {
    if calls == [] then c else Run(Step(c, maxLen, calls[0]), maxLen, calls[1..])
  }

  /** The log is the sender's messages up to and including the current one. */
  ghost predicate InOrder(c: Conn, msgs: seq<Message>)
    requires |c.r.ring| == FLIGHT
  {
    var n := c.r.readSeq + if c.r.current then 1 else 0;
    && RingOk(c.r) && Faithful(c.r, msgs)
    && n <= |msgs| && c.log == msgs[..n]
  }

  lemma CurrentIsSenders(r: Receiver, msgs: seq<Message>)
    requires RingOk(r) && Faithful(r, msgs) && Ready(r)
    ensures r.readSeq < |msgs| && CurrentMessage(r) == msgs[r.readSeq]
  {
    var p := r.ring[r.readSeq % FLIGHT].value;
    InWindow(p.seqNo, r.readSeq, r.readSeq);
    assert FaithfulPart(p, msgs);
    assert Bytes(p) == msgs[r.readSeq].body;
  }

  lemma StepInOrder(c: Conn, maxLen: nat, call: Call, msgs: seq<Message>)
    requires |c.r.ring| == FLIGHT && InOrder(c, msgs)
    requires call.Get? ==> GenuineRecords(msgs, call.records)
    ensures InOrder(Step(c, maxLen, call), msgs)
  {
    if !c.dead && call.Get? {
      var r1 := Advance(c.r);
      AdvanceKeepsRing(c.r);
      assert Faithful(r1, msgs);
      AwaitKeeps(r1, maxLen, call.records, msgs);
      var g := GetMessage(c.r, maxLen, call.records);
      if g.Delivered? {
        CurrentIsSenders(g.r, msgs);
        if c.r.reuse {
          assert Ready(r1) && r1.readSeq == c.r.readSeq;
        } else {
          assert msgs[..r1.readSeq] + [msgs[r1.readSeq]] == msgs[..r1.readSeq + 1];
        }
      }
    }
  }

  /** End-to-end reassembly: however the network loses, repeats, reorders and re-fragments what the sender sent, the
      messages that are delivered are the sender's, byte for byte, in order and without a gap. */
  lemma {:induction false} DeliversSendersMessages(c: Conn, maxLen: nat, calls: seq<Call>, msgs: seq<Message>)
    requires |c.r.ring| == FLIGHT && InOrder(c, msgs)
    requires forall k :: 0 <= k < |calls| && calls[k].Get? ==> GenuineRecords(msgs, calls[k].records)
    ensures InOrder(Run(c, maxLen, calls), msgs)
    ensures Run(c, maxLen, calls).log <= msgs
    decreases |calls|
  {
    if calls != [] {
      StepInOrder(c, maxLen, calls[0], msgs);
      DeliversSendersMessages(Step(c, maxLen, calls[0]), maxLen, calls[1..], msgs);
    }
  }

  lemma StartInOrder(msgs: seq<Message>)
    ensures InOrder(Conn(START, [], false), msgs)
  {
  }

  // ----- what is accepted, and when a message is complete -----

  /** A genuine fragment is fatal in exactly three cases: its message is too long, it is not for the expected message
      in the encrypted epoch, or it is for the message one past the window.  Any further one is ignored. */
  lemma GenuineRefused(r: Receiver, maxLen: nat, f: Fragment, msgs: seq<Message>)
    requires RingOk(r) && Faithful(r, msgs) && Genuine(msgs, f)
    ensures RecvFragment(r, maxLen, f).None? <==>
              || f.h.msgLen > maxLen
              || (r.epoch == 1 && f.h.seqNo != r.readSeq)
              || f.h.seqNo == r.readSeq + FLIGHT
    ensures r.epoch != 1 && f.h.msgLen <= maxLen && f.h.seqNo > r.readSeq + FLIGHT ==>
              RecvFragment(r, maxLen, f) == Some(r)
  {
    var i := f.h.seqNo % FLIGHT;
    if r.readSeq <= f.h.seqNo < r.readSeq + FLIGHT && r.ring[i].Some? {
      InWindow(r.ring[i].value.seqNo, f.h.seqNo, r.readSeq);
      assert FaithfulPart(r.ring[i].value, msgs);
    }
  }

  /** The eighth of eight empty messages, arriving first, is such a fragment: it is genuine, and fatal. */
  lemma EighthMessageFatal()
    ensures var f := Fragment(Header(14, 0, 7, 0, 0), []);
            Genuine(seq(8, _ => Message(14, [])), f) && RecvFragment(START, 100, f) == None
  {
  }

  /** The effect of several fragments in turn. */
  function RecvAll(r: Receiver, maxLen: nat, fs: seq<Fragment>): (o: Option<Receiver>)
    requires |r.ring| == FLIGHT
    ensures o.Some? ==> |o.value.ring| == FLIGHT
  {
    if fs == [] then Some(r)
    else
      var n := |fs| - 1;
      match RecvAll(r, maxLen, fs[..n])
      case None => None
      case Some(r') => if |fs[n].body| == fs[n].h.fragLen then RecvFragment(r', maxLen, fs[n]) else None
  }

  /** Some piece is of message n, and some piece of it covers byte k. */
  ghost predicate Begun(fs: seq<Fragment>, n: nat) { exists j :: 0 <= j < |fs| && fs[j].h.seqNo == n }

  ghost predicate Covered(fs: seq<Fragment>, n: nat, k: nat) {
    exists j :: 0 <= j < |fs| && Covers(fs[j], n, k)
  }

  predicate Covers(f: Fragment, n: nat, k: nat) { f.h.seqNo == n && f.h.fragOff <= k < f.h.fragOff + f.h.fragLen }

  lemma CoveredSnoc(fs: seq<Fragment>, n: nat, k: nat)
    requires fs != []
    ensures Covered(fs, n, k) <==> Covered(fs[..|fs|-1], n, k) || Covers(fs[|fs|-1], n, k)
    ensures Begun(fs, n) <==> Begun(fs[..|fs|-1], n) || fs[|fs|-1].h.seqNo == n
  {
    var m := |fs| - 1;
    if Covered(fs[..m], n, k) {
      var j :| 0 <= j < m && Covers(fs[..m][j], n, k);
      assert Covers(fs[j], n, k);
    }
    if Covered(fs, n, k) {
      var j :| 0 <= j < |fs| && Covers(fs[j], n, k);
      if j < m { assert Covers(fs[..m][j], n, k); }
    }
    if Begun(fs[..m], n) {
      var j :| 0 <= j < m && fs[..m][j].h.seqNo == n;
      assert fs[j].h.seqNo == n;
    }
    if Begun(fs, n) {
      var j :| 0 <= j < |fs| && fs[j].h.seqNo == n;
      if j < m { assert fs[..m][j].h.seqNo == n; }
    }
  }

  /** Whether message n of the window has a slot, and whether its byte k is there. */
  predicate Held(r: Receiver, n: nat)
    requires |r.ring| == FLIGHT
  {
    r.ring[n % FLIGHT].Some?
  }

  predicate Has(r: Receiver, n: nat, k: nat)
    requires |r.ring| == FLIGHT
  {
    Held(r, n) && k < |r.ring[n % FLIGHT].value.got| && r.ring[n % FLIGHT].value.got[k].Some?
  }

  predicate InWindowOf(r: Receiver, n: nat) { r.readSeq <= n < r.readSeq + FLIGHT }

  /** A genuine fragment adds exactly the bytes that it carries. */
  lemma FragmentAdds(r: Receiver, maxLen: nat, f: Fragment, msgs: seq<Message>, n: nat, k: nat)
    requires RingOk(r) && Faithful(r, msgs) && Genuine(msgs, f) && RecvFragment(r, maxLen, f).Some?
    requires InWindowOf(r, n) && n < |msgs| && k < |msgs[n].body|
    ensures var r' := RecvFragment(r, maxLen, f).value; Has(r', n, k) <==> Has(r, n, k) || Covers(f, n, k)
  {
    var i := f.h.seqNo % FLIGHT;
    if InWindowOf(r, f.h.seqNo) {
      if i == n % FLIGHT { InWindow(f.h.seqNo, n, r.readSeq); }
      if r.ring[i].Some? {
        InWindow(r.ring[i].value.seqNo, f.h.seqNo, r.readSeq);
        assert FaithfulPart(r.ring[i].value, msgs);
      }
    }
  }

  lemma FragmentHolds(r: Receiver, maxLen: nat, f: Fragment, n: nat)
    requires RingOk(r) && |f.body| == f.h.fragLen && RecvFragment(r, maxLen, f).Some? && InWindowOf(r, n)
    ensures var r' := RecvFragment(r, maxLen, f).value; Held(r', n) <==> Held(r, n) || f.h.seqNo == n
  {
    if InWindowOf(r, f.h.seqNo) && f.h.seqNo % FLIGHT == n % FLIGHT { InWindow(f.h.seqNo, n, r.readSeq); }
  }

  /** A genuine fragment that is not fatal. */
  predicate Welcome(r: Receiver, maxLen: nat, f: Fragment) {
    f.h.msgLen <= maxLen && (r.epoch == 1 ==> f.h.seqNo == r.readSeq) && f.h.seqNo != r.readSeq + FLIGHT
  }

  lemma {:induction false} AllWelcome(r: Receiver, maxLen: nat, fs: seq<Fragment>, msgs: seq<Message>)
    requires RingOk(r) && Faithful(r, msgs)
    requires forall k :: 0 <= k < |fs| ==> Genuine(msgs, fs[k]) && Welcome(r, maxLen, fs[k])
    ensures var o := RecvAll(r, maxLen, fs);
            && o.Some? && RingOk(o.value) && Faithful(o.value, msgs)
            && o.value.readSeq == r.readSeq && o.value.epoch == r.epoch && o.value.current == r.current
  {
    if fs != [] {
      var n := |fs| - 1;
      AllWelcome(r, maxLen, fs[..n], msgs);
      var r1 := RecvAll(r, maxLen, fs[..n]).value;
      GenuineRefused(r1, maxLen, fs[n], msgs);
      FragmentKeepsRing(r1, maxLen, fs[n]);
      FragmentKeepsFaith(r1, maxLen, fs[n], msgs);
    }
  }

  /** After fragments of any messages, in any order and with any overlaps, byte k of a message in the window is there
      if and only if it was before or some fragment covers it. */
  lemma {:induction false} BytesCovered(r: Receiver, maxLen: nat, fs: seq<Fragment>, msgs: seq<Message>, n: nat, k: nat)
    requires RingOk(r) && Faithful(r, msgs)
    requires forall j :: 0 <= j < |fs| ==> Genuine(msgs, fs[j]) && Welcome(r, maxLen, fs[j])
    requires InWindowOf(r, n) && n < |msgs| && k < |msgs[n].body|
    ensures var o := RecvAll(r, maxLen, fs); o.Some? && (Has(o.value, n, k) <==> Has(r, n, k) || Covered(fs, n, k))
  {
    AllWelcome(r, maxLen, fs, msgs);
    if fs != [] {
      var m := |fs| - 1;
      BytesCovered(r, maxLen, fs[..m], msgs, n, k);
      AllWelcome(r, maxLen, fs[..m], msgs);
      CoveredSnoc(fs, n, k);
      FragmentAdds(RecvAll(r, maxLen, fs[..m]).value, maxLen, fs[m], msgs, n, k);
    }
  }

  lemma {:induction false} SlotsBegun(r: Receiver, maxLen: nat, fs: seq<Fragment>, msgs: seq<Message>, n: nat)
    requires RingOk(r) && Faithful(r, msgs) && InWindowOf(r, n)
    requires forall j :: 0 <= j < |fs| ==> Genuine(msgs, fs[j]) && Welcome(r, maxLen, fs[j])
    ensures var o := RecvAll(r, maxLen, fs); o.Some? && (Held(o.value, n) <==> Held(r, n) || Begun(fs, n))
  {
    AllWelcome(r, maxLen, fs, msgs);
    if fs != [] {
      var m := |fs| - 1;
      SlotsBegun(r, maxLen, fs[..m], msgs, n);
      AllWelcome(r, maxLen, fs[..m], msgs);
      CoveredSnoc(fs, n, 0);
      FragmentHolds(RecvAll(r, maxLen, fs[..m]).value, maxLen, fs[m], n);
    }
  }

  lemma ReadyIff(r: Receiver, msgs: seq<Message>)
    requires RingOk(r) && Faithful(r, msgs) && r.readSeq < |msgs|
    ensures Ready(r) <==> Held(r, r.readSeq) && forall k :: 0 <= k < |msgs[r.readSeq].body| ==> Has(r, r.readSeq, k)
  {
    if Held(r, r.readSeq) {
      var p := r.ring[r.readSeq % FLIGHT].value;
      InWindow(p.seqNo, r.readSeq, r.readSeq);
      assert FaithfulPart(p, msgs);
      assert forall k :: 0 <= k < |p.got| ==> (p.got[k].Some? <==> Has(r, r.readSeq, k));
    }
  }

  /** The next message is ready exactly when it has begun and each of its bytes was there before or is covered. */
  lemma ReadyWhenCovered(r: Receiver, maxLen: nat, fs: seq<Fragment>, msgs: seq<Message>)
    requires RingOk(r) && Faithful(r, msgs) && r.readSeq < |msgs|
    requires forall j :: 0 <= j < |fs| ==> Genuine(msgs, fs[j]) && Welcome(r, maxLen, fs[j])
    ensures var o, n := RecvAll(r, maxLen, fs), r.readSeq;
            && o.Some?
            && (Ready(o.value) <==>
                  && (Held(r, n) || Begun(fs, n))
                  && forall k :: 0 <= k < |msgs[n].body| ==> Has(r, n, k) || Covered(fs, n, k))
  {
    var n := r.readSeq;
    AllWelcome(r, maxLen, fs, msgs);
    SlotsBegun(r, maxLen, fs, msgs, n);
    var o := RecvAll(r, maxLen, fs).value;
    forall k | 0 <= k < |msgs[n].body| ensures Has(o, n, k) <==> Has(r, n, k) || Covered(fs, n, k) {
      BytesCovered(r, maxLen, fs, msgs, n, k);
    }
    ReadyIff(o, msgs);
  }

  // ----- epochs -----

  /** Everything buffered ahead of the current message came in records of the present epoch; nothing is from a later
      one. */
  ghost predicate OneEpoch(r: Receiver)
    requires |r.ring| == FLIGHT
  {
    forall i :: 0 <= i < FLIGHT && r.ring[i].Some? ==>
      && (forall e :: e in r.ring[i].value.epochs ==> e <= r.epoch)
      && ((r.current && i == r.readSeq % FLIGHT) || r.ring[i].value.epochs == {r.epoch})
  }

  lemma {:induction false} PayloadKeepsEpoch(r: Receiver, maxLen: nat, s: seq<byte>)
    requires RingOk(r) && OneEpoch(r) && !r.current && RecvPayload(r, maxLen, s).Some?
    ensures OneEpoch(RecvPayload(r, maxLen, s).value)
    decreases |s|
  {
    if s != [] {
      var (f, rest) := ParseFragment(s).value;
      FragmentKeepsRing(r, maxLen, f);
      var r1 := RecvFragment(r, maxLen, f).value;
      assert OneEpoch(r1);
      PayloadKeepsEpoch(r1, maxLen, rest);
    }
  }

  lemma {:induction false} AwaitKeepsEpoch(r: Receiver, maxLen: nat, records: seq<Record>)
    requires RingOk(r) && OneEpoch(r) && !r.reuse && (r.current ==> Ready(r))
    ensures var g := Await(r, maxLen, records);
            && (g.Delivered? || g.Blocked? ==> RingOk(g.r) && OneEpoch(g.r) && g.r.epoch == r.epoch && !g.r.reuse)
            && (g.Delivered? ==> g.r.current) && (g.Delivered? && !r.current ==> CurrentPart(g.r).epochs == {g.r.epoch})
    decreases |records|
  {
    if !Ready(r) && records != [] {
      var o := RecvRecord(r, maxLen, records[0]);
      if o.Some? {
        if records[0].Handshake? {
          PayloadKeepsRing(r, maxLen, records[0].payload);
          PayloadKeepsEpoch(r, maxLen, records[0].payload);
        }
        AwaitKeepsEpoch(o.value, maxLen, records[1..]);
      }
    }
  }

  function CurrentPart(r: Receiver): Part
    requires |r.ring| == FLIGHT && Ready(r)
  {
    r.ring[r.readSeq % FLIGHT].value
  }

  lemma AdvanceKeepsEpoch(r: Receiver)
    requires RingOk(r) && OneEpoch(r)
    ensures OneEpoch(Advance(r))
  {
  }

  /** On every reachable state the buffered messages belong to one epoch, and a message that is delivered anew was put
      together from records of the epoch it is delivered in. */
  lemma StepKeepsEpoch(c: Conn, maxLen: nat, call: Call)
    requires |c.r.ring| == FLIGHT && RingOk(c.r) && OneEpoch(c.r)
    ensures var c' := Step(c, maxLen, call);
            && RingOk(c'.r) && OneEpoch(c'.r)
            && (c'.log != c.log ==> c'.r.current && CurrentPart(c'.r).epochs == {c'.r.epoch})
  {
    if !c.dead {
      if call.Get? {
        AdvanceKeepsRing(c.r);
        AdvanceKeepsEpoch(c.r);
        AwaitKeepsEpoch(Advance(c.r), maxLen, call.records);
      } else if call.Switch? && SetReadState(c.r).Some? {
        assert OneEpoch(SetReadState(c.r).value);
      }
    }
  }

  lemma {:induction false} RunKeepsEpoch(c: Conn, maxLen: nat, calls: seq<Call>)
    requires |c.r.ring| == FLIGHT && RingOk(c.r) && OneEpoch(c.r)
    ensures RingOk(Run(c, maxLen, calls).r) && OneEpoch(Run(c, maxLen, calls).r)
    decreases |calls|
  {
    if calls != [] {
      StepKeepsEpoch(c, maxLen, calls[0]);
      RunKeepsEpoch(Step(c, maxLen, calls[0]), maxLen, calls[1..]);
    }
  }

  /** Epoch isolation: the first message handed out after a switch of the read cipher was assembled only from records
      that came after the switch, if and only if no message was pushed back at the switch. */
  lemma SwitchIsolates(r: Receiver, maxLen: nat, records: seq<Record>)
    requires RingOk(r) && OneEpoch(r) && SetReadState(r).Some?
    requires GetMessage(SetReadState(r).value, maxLen, records).Delivered?
    ensures var g := GetMessage(SetReadState(r).value, maxLen, records);
            CurrentPart(g.r).epochs == {r.epoch + 1} <==> !r.reuse
  {
    var r1 := SetReadState(r).value;
    assert RingOk(r1) && OneEpoch(r1);
    AdvanceKeepsRing(r1);
    AdvanceKeepsEpoch(r1);
    AwaitKeepsEpoch(Advance(r1), maxLen, records);
    if r.reuse {
      assert r.epoch + 1 !in CurrentPart(r).epochs;
    }
  }
}
