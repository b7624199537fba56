/** What gets through to the handshake, and when: records of many fragments, records of other types, ChangeCipherSpec
    and the switch of the read cipher (d1_both.c:258-475, d1_pkt.c:284-322, dtls_method.c:106-122). */
module DtlsDelivery {
  import opened Bits
  import opened Wrappers
  import opened HandshakeWire
  import opened DtlsReceive

  // ----- one fragment -----

  /** Exactly which fragments are fatal, whoever made them: those that do not fit their message, a message that is too
      long, another message than the expected one in the encrypted epoch, the message one past the window, and one
      that disagrees with what is there of its message. */
  lemma FatalFragments(r: Receiver, maxLen: nat, f: Fragment)
    requires RingOk(r) && |f.body| == f.h.fragLen
    ensures RecvFragment(r, maxLen, f).None? <==>
              || f.h.fragOff + f.h.fragLen > f.h.msgLen || f.h.msgLen > maxLen
              || (r.epoch == 1 && f.h.seqNo != r.readSeq)
              || f.h.seqNo == r.readSeq + FLIGHT
              || (InWindowOf(r, f.h.seqNo) && Held(r, f.h.seqNo) && Disagrees(r, f))
  {
  }

  predicate Disagrees(r: Receiver, f: Fragment)
    requires |r.ring| == FLIGHT && Held(r, f.h.seqNo)
  {
    var p := r.ring[f.h.seqNo % FLIGHT].value;
    p.ty != f.h.ty || |p.got| != f.h.msgLen
  }

  /** Byte k of message n, once it has arrived. */
  function ByteAt(r: Receiver, n: nat, k: nat): Option<byte>
    requires |r.ring| == FLIGHT
  {
    if Has(r, n, k) then r.ring[n % FLIGHT].value.got[k] else None
  }

  /** A fragment that is not fatal stores its bytes in its message, unless that is complete, and changes no others. */
  lemma FragmentStores(r: Receiver, maxLen: nat, f: Fragment, n: nat, k: nat)
    requires RingOk(r) && |f.body| == f.h.fragLen && RecvFragment(r, maxLen, f).Some? && InWindowOf(r, n)
    ensures var r' := RecvFragment(r, maxLen, f).value;
            ByteAt(r', n, k) ==
              if Covers(f, n, k) && !(Held(r, n) && Complete(r.ring[n % FLIGHT].value))
              then Some(f.body[k - f.h.fragOff]) else ByteAt(r, n, k)
  {
    if InWindowOf(r, f.h.seqNo) && f.h.seqNo % FLIGHT == n % FLIGHT { InWindow(f.h.seqNo, n, r.readSeq); }
  }

  // ----- one record -----

  lemma {:induction false} RecvAllCons(r: Receiver, maxLen: nat, f: Fragment, fs: seq<Fragment>)
    requires |r.ring| == FLIGHT && |f.body| == f.h.fragLen
    ensures RecvAll(r, maxLen, [f] + fs) ==
              match RecvFragment(r, maxLen, f)
              case None => None
              case Some(r') => RecvAll(r', maxLen, fs)
    decreases |fs|
  {
    var all := [f] + fs;
    if fs == [] {
      assert all == [f] && all[..0] == [];
    } else {
      assert all[..|all|-1] == [f] + fs[..|fs|-1];
      RecvAllCons(r, maxLen, f, fs[..|fs|-1]);
    }
  }

  /** A record of several fragments does what they do one after the other, and fails if any of them does. */
  lemma {:induction false} PayloadIsAll(r: Receiver, maxLen: nat, fs: seq<Fragment>)
    requires |r.ring| == FLIGHT
    requires forall k :: 0 <= k < |fs| ==> Encodable(fs[k].h) && |fs[k].body| == fs[k].h.fragLen
    ensures RecvPayload(r, maxLen, EncFragments(fs)) == RecvAll(r, maxLen, fs)
    decreases |fs|
  {
    if fs != [] {
      ParseRoundTrip(fs[0], EncFragments(fs[1..]));
      RecvAllCons(r, maxLen, fs[0], fs[1..]);
      assert fs == [fs[0]] + fs[1..];
      var o := RecvFragment(r, maxLen, fs[0]);
      if o.Some? { PayloadIsAll(o.value, maxLen, fs[1..]); }
    }
  }

  /** A record that does not consist of whole fragments is fatal, even if those in front of the broken one are not. */
  lemma {:induction false} BrokenPayloadFatal(r: Receiver, maxLen: nat, fs: seq<Fragment>, tail: seq<byte>)
    requires |r.ring| == FLIGHT && tail != [] && ParseFragment(tail).None?
    requires forall k :: 0 <= k < |fs| ==> Encodable(fs[k].h) && |fs[k].body| == fs[k].h.fragLen
    ensures RecvPayload(r, maxLen, EncFragments(fs) + tail) == None
    decreases |fs|
  {
    if fs == [] {
      assert EncFragments(fs) + tail == tail;
    } else {
      var more := EncFragments(fs[1..]) + tail;
      assert EncFragments(fs) + tail == EncFragment(fs[0]) + more;
      ParseRoundTrip(fs[0], more);
      var o := RecvFragment(r, maxLen, fs[0]);
      if o.Some? { BrokenPayloadFatal(o.value, maxLen, fs[1..], tail); }
    }
  }

  /** Application data that comes in the encrypted epoch and ChangeCipherSpec that comes in the clear one are out of
      order and passed over, as if they had not come.  Every other record that is not of the handshake is fatal. */
  lemma OthersPassedOver(r: Receiver, maxLen: nat, rec: Record, records: seq<Record>)
    requires |r.ring| == FLIGHT && !Ready(r) && !rec.Handshake?
    ensures Await(r, maxLen, [rec] + records) ==
              if (rec.ApplicationData? && r.epoch > 0) || (rec.ChangeCipherSpec? && r.epoch == 0)
              then Await(r, maxLen, records) else Failed
  {
    assert ([rec] + records)[1..] == records;
  }

  // ----- the records of a message -----

  function Flat(fss: seq<seq<Fragment>>): seq<Fragment> {
    if fss == [] then [] else fss[0] + Flat(fss[1..])
  }

  /** Handshake records with these fragments in them. */
  function RecordsOf(fss: seq<seq<Fragment>>): (rs: seq<Record>)
    ensures |rs| == |fss|
  {
    seq(|fss|, k requires 0 <= k < |fss| => Handshake(EncFragments(fss[k])))
  }

  ghost predicate AllGood(r: Receiver, maxLen: nat, fs: seq<Fragment>, msgs: seq<Message>) {
    forall j :: 0 <= j < |fs| ==> Genuine(msgs, fs[j]) && Welcome(r, maxLen, fs[j]) && Encodable(fs[j].h)
  }

  lemma GoodParts(r: Receiver, maxLen: nat, a: seq<Fragment>, b: seq<Fragment>, msgs: seq<Message>)
    requires AllGood(r, maxLen, a + b, msgs)
    ensures AllGood(r, maxLen, a, msgs) && AllGood(r, maxLen, b, msgs)
  {
    assert forall j :: 0 <= j < |a| ==> a[j] == (a + b)[j];
    assert forall j :: 0 <= j < |b| ==> b[j] == (a + b)[|a| + j];
  }

  lemma CoveredJoin(a: seq<Fragment>, b: seq<Fragment>, n: nat, k: nat)
    ensures Covered(a + b, n, k) <==> Covered(a, n, k) || Covered(b, n, k)
    ensures Begun(a + b, n) <==> Begun(a, n) || Begun(b, n)
  {
    assert forall j :: 0 <= j < |a| ==> a[j] == (a + b)[j];
    assert forall j :: 0 <= j < |b| ==> b[j] == (a + b)[|a| + j];
    assert forall j :: |a| <= j < |a + b| ==> (a + b)[j] == b[j - |a|];
  }

  /** The next message has begun, and each of its bytes was there before or is covered. */
  ghost predicate WillBeWhole(r: Receiver, fs: seq<Fragment>, msgs: seq<Message>)
    requires |r.ring| == FLIGHT && r.readSeq < |msgs|
  {
    var n := r.readSeq;
    && (Held(r, n) || Begun(fs, n))
    && forall k :: 0 <= k < |msgs[n].body| ==> Has(r, n, k) || Covered(fs, n, k)
  }

  lemma WholeJoin(r: Receiver, maxLen: nat, a: seq<Fragment>, b: seq<Fragment>, msgs: seq<Message>)
    requires RingOk(r) && Faithful(r, msgs) && r.readSeq < |msgs| && AllGood(r, maxLen, a, msgs)
    ensures var o := RecvAll(r, maxLen, a);
            && o.Some? && RingOk(o.value) && o.value.readSeq == r.readSeq
            && (WillBeWhole(o.value, b, msgs) <==> WillBeWhole(r, a + b, msgs))
  {
    var n := r.readSeq;
    AllWelcome(r, maxLen, a, msgs);
    SlotsBegun(r, maxLen, a, msgs, n);
    CoveredJoin(a, b, n, 0);
    var o := RecvAll(r, maxLen, a).value;
    forall k | 0 <= k < |msgs[n].body|
      ensures Has(o, n, k) || Covered(b, n, k) <==> Has(r, n, k) || Covered(a + b, n, k)
    {
      BytesCovered(r, maxLen, a, msgs, n, k);
      CoveredJoin(a, b, n, k);
    }
  }

  lemma WholeAlready(r: Receiver, fs: seq<Fragment>, msgs: seq<Message>)
    requires RingOk(r) && Faithful(r, msgs) && r.readSeq < |msgs|
    ensures Ready(r) ==> WillBeWhole(r, fs, msgs)
    ensures fs == [] ==> (Ready(r) <==> WillBeWhole(r, fs, msgs))
  {
    ReadyIff(r, msgs);
  }

  lemma RecordTaken(r: Receiver, maxLen: nat, fss: seq<seq<Fragment>>, msgs: seq<Message>)
    requires RingOk(r) && Faithful(r, msgs) && !Ready(r) && fss != [] && AllGood(r, maxLen, fss[0], msgs)
    ensures var o := RecvAll(r, maxLen, fss[0]);
            o.Some? && Await(r, maxLen, RecordsOf(fss)) == Await(o.value, maxLen, RecordsOf(fss[1..]))
  {
    PayloadIsAll(r, maxLen, fss[0]);
    AllWelcome(r, maxLen, fss[0], msgs);
    assert RecordsOf(fss)[1..] == RecordsOf(fss[1..]);
  }

  /** The next message is delivered if and only if the records that arrive, with whatever was there already, cover
      it; what is delivered is then the sender's message, and otherwise the call waits for more. */
  lemma {:induction false} DeliveredWhenCovered(r: Receiver, maxLen: nat, fss: seq<seq<Fragment>>, msgs: seq<Message>)
    requires RingOk(r) && Faithful(r, msgs) && r.readSeq < |msgs| && AllGood(r, maxLen, Flat(fss), msgs)
    ensures var g := Await(r, maxLen, RecordsOf(fss));
            && !g.Failed? && (g.Delivered? <==> WillBeWhole(r, Flat(fss), msgs))
            && (g.Delivered? ==> g.r.current && g.r.readSeq == r.readSeq && CurrentMessage(g.r) == msgs[r.readSeq])
    decreases |fss|
  {
    WholeAlready(r, Flat(fss), msgs);
    if Ready(r) {
      CurrentIsSenders(r, msgs);
    } else if fss != [] {
      var a, b := fss[0], Flat(fss[1..]);
      GoodParts(r, maxLen, a, b, msgs);
      RecordTaken(r, maxLen, fss, msgs);
      AllWelcome(r, maxLen, a, msgs);
      WholeJoin(r, maxLen, a, b, msgs);
      DeliveredWhenCovered(RecvAll(r, maxLen, a).value, maxLen, fss[1..], msgs);
    }
  }

  /** A current message that is pushed back is given again by the next call, whatever arrives meanwhile, and is not
      delivered anew; without a current message there is nothing to push back. */
  lemma PushedBackComesAgain(c: Conn, maxLen: nat, records: seq<Record>)
    requires !c.dead && RingOk(c.r)
    ensures var c' := Step(Step(c, maxLen, PushBack), maxLen, Get(records));
            if c.r.current then c' == c.(r := c.r.(reuse := false))
            else c' == Step(c, maxLen, Get(records))
  {
  }

  /** A message that is not pushed back is let go by the next call, which waits for the next number. */
  lemma ReadMessageIsLetGo(r: Receiver, maxLen: nat, records: seq<Record>)
    requires RingOk(r) && r.current && !r.reuse
    ensures GetMessage(r, maxLen, records) ==
              Await(r.(ring := r.ring[r.readSeq % FLIGHT := None], readSeq := r.readSeq + 1, current := false),
                    maxLen, records)
  {
  }

  // ----- the switch of the read cipher -----

  /** Record k is ChangeCipherSpec, and those in front of it are handshake records. */
  predicate CcsAt(records: seq<Record>, k: nat)
    requires k < |records|
  {
    records[k] == ChangeCipherSpec([1]) && forall j :: 0 <= j < k ==> records[j].Handshake?
  }

  lemma CcsLater(records: seq<Record>, k: nat)
    requires k + 1 < |records| && records[0].Handshake?
    ensures CcsAt(records, k + 1) <==> CcsAt(records[1..], k)
  {
    assert forall j :: 0 <= j < k ==> records[1..][j] == records[j+1];
    assert forall j :: 0 < j < k + 1 ==> records[j] == records[1..][j-1];
  }

  lemma {:induction false} CcsGot(records: seq<Record>) returns (k: nat)
    requires ReadCcs(records).GotCcs?
    ensures k < |records| && CcsAt(records, k)
  {
    if records[0].Handshake? {
      k := CcsGot(records[1..]);
      CcsLater(records, k);
      k := k + 1;
    } else {
      k := 0;
    }
  }

  lemma {:induction false} GotAt(records: seq<Record>, k: nat)
    requires k < |records| && CcsAt(records, k)
    ensures ReadCcs(records).GotCcs?
  {
    if k > 0 {
      CcsLater(records, k - 1);
      GotAt(records[1..], k - 1);
    }
  }

  lemma {:induction false} BlockedIff(records: seq<Record>)
    ensures ReadCcs(records).CcsBlocked? <==> forall j :: 0 <= j < |records| ==> records[j].Handshake?
  {
    if records != [] {
      BlockedIff(records[1..]);
      assert forall j :: 0 <= j < |records[1..]| ==> records[1..][j] == records[j+1];
      assert forall j :: 0 < j < |records| ==> records[j] == records[1..][j-1];
    }
  }

  /** ChangeCipherSpec is found behind any number of handshake records, which are passed over, if it comes before any
      other record and is the one byte it should be. */
  lemma CcsFound(records: seq<Record>)
    ensures ReadCcs(records).GotCcs? <==> exists k :: 0 <= k < |records| && CcsAt(records, k)
    ensures ReadCcs(records).CcsBlocked? <==> forall j :: 0 <= j < |records| ==> records[j].Handshake?
  {
    BlockedIff(records);
    if ReadCcs(records).GotCcs? {
      var k := CcsGot(records);
    } else if k: nat :| k < |records| && CcsAt(records, k) {
      GotAt(records, k);
    }
  }

  /** The cipher is switched if and only if no message is buffered but the current one. */
  lemma SwitchedIff(r: Receiver)
    requires RingOk(r)
    ensures SetReadState(r).Some? <==> forall n :: InWindowOf(r, n) && Held(r, n) ==> r.current && n == r.readSeq
    ensures SetReadState(r).Some? ==> SetReadState(r).value == r.(epoch := r.epoch + 1)
  {
    if SetReadState(r).Some? {
      forall n: nat | InWindowOf(r, n) && Held(r, n) ensures r.current && n == r.readSeq {
        assert r.ring[n % FLIGHT].Some?;
        InWindow(n, r.readSeq, r.readSeq);
      }
    } else {
      var i :| 0 <= i < FLIGHT && r.ring[i].Some? && !(r.current && i == r.readSeq % FLIGHT);
      var n := r.ring[i].value.seqNo;
      assert InWindowOf(r, n) && Held(r, n);
    }
  }
}
