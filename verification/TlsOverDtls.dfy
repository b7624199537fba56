/** The client of TlsClient on top of the receiver of DtlsReceive: one handshake over DTLS, in which ssl_get_message and
    read_change_cipher_spec are those of d1_both.c and d1_pkt.c, and reuse_message is one field of both. */
module TlsOverDtls {
  import opened Wrappers
  import opened HandshakeWire
  import opened TlsClient
  import R = DtlsReceive

  // ----- what a turn does to the current message and the read cipher -----

  predicate Switched(hs: Hs) { ReadCcs in hs.trace }

  /** A turn that asks for a message has it as the current one. */
  predicate Took(hs: Hs, t: Turn, hs': Hs) {
    hs'.current == Some(Got(hs, t)) && Switched(hs') == Switched(hs)
  }

  /** Any other turn leaves the message alone. */
  predicate Left(hs: Hs, hs': Hs) {
    hs'.reuse == hs.reuse && hs'.current == hs.current && Switched(hs') == Switched(hs)
  }

  lemma NotCcs(s: seq<Event>, e: Event)
    requires e != ReadCcs
    ensures ReadCcs in s + [e] <==> ReadCcs in s
  {
  }

  lemma GetHelloVerifyEffect(hs: Hs, t: Turn)
    ensures var hs' := GetHelloVerify(hs, t).hs; hs'.dead || Took(hs, t, hs')
  {
  }

  lemma GetServerHelloEffect(hs: Hs, t: Turn)
    ensures var hs' := GetServerHello(hs, t).hs; hs'.dead || Took(hs, t, hs')
  {
  }

  lemma GetServerCertificateEffect(hs: Hs, t: Turn)
    ensures var hs' := GetServerCertificate(hs, t).hs;
            hs'.dead || if hs.hello.certAuth then Took(hs, t, hs') else Left(hs, hs')
  {
    if hs.hello.certAuth { NotCcs(hs.trace, ReadCert); }
  }

  lemma GetCertStatusEffect(hs: Hs, t: Turn)
    ensures var hs' := GetCertStatus(hs, t).hs;
            hs'.dead || if hs.hello.statusExpected then Took(hs, t, hs') else Left(hs, hs')
  {
    if hs.hello.statusExpected {
      if Got(hs, t) == MT_CERTIFICATE_STATUS { NotCcs(hs.trace, ReadCertStatus); }
    }
  }

  lemma GetServerKeyExchangeEffect(hs: Hs, t: Turn)
    ensures var hs' := GetServerKeyExchange(hs, t).hs; hs'.dead || Took(hs, t, hs')
  {
    if Got(hs, t) == MT_SERVER_KEY_EXCHANGE { NotCcs(hs.trace, ReadKeyExchange); }
  }

  lemma GetCertificateRequestEffect(hs: Hs, t: Turn)
    ensures var hs' := GetCertificateRequest(hs, t).hs;
            hs'.dead || if hs.hello.certAuth then Took(hs, t, hs') else Left(hs, hs')
  {
    if hs.hello.certAuth {
      if Got(hs, t) == MT_CERTIFICATE_REQUEST { NotCcs(hs.trace, ReadCertRequest); }
    }
  }

  lemma GetServerHelloDoneEffect(hs: Hs, t: Turn)
    ensures var hs' := GetServerHelloDone(hs, t).hs; hs'.dead || Took(hs, t, hs')
  {
  }

  lemma GetNewSessionTicketEffect(hs: Hs, t: Turn)
    ensures var hs' := GetNewSessionTicket(hs, t).hs;
            hs'.dead || if hs.hello.ticketExpected then Took(hs, t, hs') else Left(hs, hs')
  {
    if hs.hello.ticketExpected { NotCcs(hs.trace, ReadTicket); }
  }

  lemma GetFinishedEffect(hs: Hs, t: Turn)
    ensures var hs' := GetFinished(hs, t).hs; hs'.dead || Took(hs, t, hs')
  {
  }

  lemma SendClientHelloEffect(hs: Hs, t: Turn)
    ensures Left(hs, SendClientHello(hs, t).hs)
  {
  }

  lemma VerifyServerCertEffect(hs: Hs)
    ensures Left(hs, VerifyServerCert(hs).hs)
  {
    if hs.hello.certAuth { NotCcs(hs.trace, VerifiedCert); }
  }

  lemma SendClientCertificateEffect(hs: Hs)
    ensures Left(hs, SendClientCertificate(hs).hs)
  {
  }

  lemma SendClientKeyExchangeEffect(hs: Hs)
    ensures Left(hs, SendClientKeyExchange(hs).hs)
  {
  }

  lemma SendCertVerifyEffect(hs: Hs, t: Turn)
    ensures Left(hs, SendCertVerify(hs, t).hs)
  {
  }

  lemma SendChangeCipherSpecEffect(hs: Hs)
    ensures Left(hs, SendChangeCipherSpec(hs).hs)
  {
  }

  lemma SendNextProtoEffect(hs: Hs)
    ensures Left(hs, SendNextProto(hs).hs)
  {
    if hs.hello.nextProto { NotCcs(hs.trace, SentNextProto); }
  }

  lemma SendChannelIdEffect(hs: Hs)
    ensures Left(hs, SendChannelId(hs).hs)
  {
    if hs.hello.channelId { NotCcs(hs.trace, SentChannelId); }
  }

  lemma SendFinishedEffect(hs: Hs, t: Turn)
    ensures Left(hs, SendFinished(hs, t).hs)
  {
  }

  /** Whether the turn asks for a message. */
  predicate Asks(hs: Hs, t: Turn) {
    !hs.dead && Reads(hs.state) && MakesCall(hs.state, hs.session, hs.hello, hs.certRequest, t)
  }

  /** Every turn that does not stop, but for the switch and the release at the end. */
  lemma GoEffect(hs: Hs, t: Turn)
    requires !hs.dead && hs.state <= SSL_ST_OK && hs.state != CR_CHANGE && hs.state != FINISH_HANDSHAKE
    ensures var hs' := Go(hs, t).hs;
            hs'.dead || if Asks(hs, t) then Took(hs, t, hs') else Left(hs, hs')
  {
    var s := hs.state;
    if s == CW_CLNT_HELLO { SendClientHelloEffect(hs, t); }
    else if s == CR_HELLO_VERIFY { GetHelloVerifyEffect(hs, t); }
    else if s == CR_SRVR_HELLO { GetServerHelloEffect(hs, t); }
    else if s == CR_CERT { GetServerCertificateEffect(hs, t); }
    else if s == CR_CERT_STATUS { GetCertStatusEffect(hs, t); }
    else if s == VERIFY_SERVER_CERT { VerifyServerCertEffect(hs); }
    else if s == CR_KEY_EXCH { GetServerKeyExchangeEffect(hs, t); }
    else if s == CR_CERT_REQ { GetCertificateRequestEffect(hs, t); }
    else if s == CR_SRVR_DONE { GetServerHelloDoneEffect(hs, t); }
    else if s == CW_CERT { SendClientCertificateEffect(hs); }
    else if s == CW_KEY_EXCH { SendClientKeyExchangeEffect(hs); }
    else if s == CW_CERT_VRFY_A || s == CW_CERT_VRFY_B { SendCertVerifyEffect(hs, t); }
    else if s == CW_CHANGE { SendChangeCipherSpecEffect(hs); }
    else if s == CW_NEXT_PROTO { SendNextProtoEffect(hs); }
    else if s == CW_CHANNEL_ID { SendChannelIdEffect(hs); }
    else if s == CW_FINISHED { SendFinishedEffect(hs, t); }
    else if s == CR_SESSION_TICKET { GetNewSessionTicketEffect(hs, t); }
    else if s == CR_FINISHED { GetFinishedEffect(hs, t); }
  }

  // ----- client and receiver together -----

  datatype Joint = Joint(hs: Hs, r: R.Receiver)

  /** One turn: what the environment decides, the limit on message lengths and the records that arrive. */
  datatype Input = Input(t: Turn, maxLen: nat, records: seq<R.Record>)

  /** Done, or a failure that is fatal. */
  function Finally(t: Turn): Turn { t.(result := if t.result == Ok then Ok else Fatal) }

  datatype Answer = Answer(t: Turn, r: R.Receiver)

  /** The receiver's half of reading ChangeCipherSpec. */
  function Switch(r: R.Receiver, t: Turn): (a: Answer)
    requires |r.ring| == FLIGHT
    ensures |a.r.ring| == FLIGHT
  {
    var o := R.SetReadState(r);
    if o.None? then Answer(t.(result := Fatal), r) else Answer(Finally(t), o.value)
  }

  /** The call that the turn makes, as the receiver answers it. */
  function Answered(c: Joint, i: Input): (a: Answer)
    requires |c.r.ring| == FLIGHT
    ensures |a.r.ring| == FLIGHT
  {
    var t := i.t;
    if Asks(c.hs, t) then
      match R.GetMessage(c.r, i.maxLen, i.records)
      case Failed => Answer(t.(result := Fatal), c.r)
      case Blocked(r) => Answer(t.(result := WouldBlock), r)
      case Delivered(r, _) => Answer(Finally(t).(msg := R.CurrentMessage(r).ty), r)
    else if !c.hs.dead && c.hs.state == CR_CHANGE then
      match R.ReadCcs(i.records)
      case CcsFailed => Answer(t.(result := Fatal), c.r)
      case CcsBlocked => Answer(t.(result := WouldBlock), c.r)
      case GotCcs =>
        Switch(c.r, t)
    else Answer(t, c.r)
  }

  /** What a turn leaves for the receiver: a message that is pushed back, or let go at the end. */
  function Settle(hs: Hs, t: Turn, a: Answer, hs': Hs): (r: R.Receiver)
    requires |a.r.ring| == FLIGHT
    ensures |r.ring| == FLIGHT
  {
    if Asks(hs, t) && hs'.reuse && a.t.result == Ok then a.r.(reuse := a.r.current)
    else if hs.state == FINISH_HANDSHAKE && hs'.state == SSL_ST_OK then R.Release(a.r)
    else a.r
  }

  function JointStep(c: Joint, i: Input): (c': Joint)
    requires |c.r.ring| == FLIGHT
    ensures |c'.r.ring| == FLIGHT
  {
    var a := Answered(c, i);
    var hs := Step(c.hs, a.t).hs;
    Joint(hs, Settle(c.hs, i.t, a, hs))
  }

  function JointRun(c: Joint, inputs: seq<Input>): (c': Joint)
    requires |c.r.ring| == FLIGHT
    ensures |c'.r.ring| == FLIGHT
    decreases |inputs|
  {
    if inputs == [] then c else JointRun(JointStep(c, inputs[0]), inputs[1..])
  }

  lemma StepStopped(hs: Hs, t: Turn)
    requires !hs.dead && (hs.state == CR_CHANGE || Asks(hs, t)) && (t.result == WouldBlock || t.result == Fatal)
    ensures Step(hs, t).hs == if t.result == Fatal then hs.(dead := true) else Waiting(hs)
  {
  }

  /** A turn whose message has not come waits for it; one for which the receiver fails ends the connection. */
  lemma MessageWaitsOrFails(c: Joint, i: Input)
    requires |c.r.ring| == FLIGHT && Asks(c.hs, i.t)
    ensures var g := R.GetMessage(c.r, i.maxLen, i.records);
            && (g.Blocked? ==> JointStep(c, i).hs == Waiting(c.hs) && !Waiting(c.hs).dead)
            && (g.Failed? ==> JointStep(c, i).hs.dead)
  {
    var a := Answered(c, i);
    if !R.GetMessage(c.r, i.maxLen, i.records).Delivered? { StepStopped(c.hs, a.t); }
  }

  /** So does reading ChangeCipherSpec. */
  lemma CcsWaitsOrFails(c: Joint, i: Input)
    requires |c.r.ring| == FLIGHT && !c.hs.dead && c.hs.state == CR_CHANGE
    ensures var o := R.ReadCcs(i.records);
            && (o.CcsBlocked? ==> JointStep(c, i).hs == c.hs) && (o.CcsFailed? ==> JointStep(c, i).hs.dead)
  {
    var a := Answered(c, i);
    if !R.ReadCcs(i.records).GotCcs? { StepStopped(c.hs, a.t); }
  }

  /** The two agree on the current message, on whether it was pushed back, and on the epoch. */
  ghost predicate Agreed(hs: Hs, r: R.Receiver)
    requires |r.ring| == FLIGHT
  {
    && R.RingOk(r) && R.OneEpoch(r)
    && r.reuse == hs.reuse && r.epoch == (if Switched(hs) then 1 else 0)
    && (if r.current then hs.current == Some(R.CurrentMessage(r).ty) else hs.current == None)
  }

  ghost predicate Linked(c: Joint)
    requires |c.r.ring| == FLIGHT
  {
    c.hs.dead || (Inv(c.hs) && Agreed(c.hs, c.r))
  }

  // ----- what the receiver does -----

  lemma {:induction false} AwaitIdle(r: R.Receiver, maxLen: nat, records: seq<R.Record>)
    requires R.RingOk(r) && !r.current && !r.reuse
    ensures var g := R.Await(r, maxLen, records); g.Blocked? ==> !g.r.current && !g.r.reuse
    decreases |records|
  {
    if !R.Ready(r) && records != [] {
      var o := R.RecvRecord(r, maxLen, records[0]);
      if o.Some? {
        if records[0].Handshake? { R.PayloadKeepsRing(r, maxLen, records[0].payload); }
        AwaitIdle(o.value, maxLen, records[1..]);
      }
    }
  }

  /** A message that was pushed back comes again; otherwise a new one comes, put together in the present epoch, or
      none. */
  lemma Receives(r: R.Receiver, maxLen: nat, records: seq<R.Record>)
    requires R.RingOk(r) && R.OneEpoch(r)
    ensures var g := R.GetMessage(r, maxLen, records);
            && (g.Delivered? ==> R.RingOk(g.r) && R.OneEpoch(g.r) && g.r.current && !g.r.reuse && g.r.epoch == r.epoch)
            && (g.Blocked? ==> R.RingOk(g.r) && R.OneEpoch(g.r) && !g.r.current && !g.r.reuse && g.r.epoch == r.epoch)
            && (r.reuse ==> g.Delivered? && R.CurrentMessage(g.r) == R.CurrentMessage(r))
            && (g.Delivered? && !r.reuse ==> R.CurrentPart(g.r).epochs == {r.epoch})
  {
    var r1 := R.Advance(r);
    R.AdvanceKeepsRing(r);
    R.AdvanceKeepsEpoch(r);
    R.AwaitKeepsEpoch(r1, maxLen, records);
    if !r.reuse { AwaitIdle(r1, maxLen, records); }
  }

  // ----- what the two do together -----

  lemma TakenAgrees(hs: Hs, t: Turn, hs': Hs, r: R.Receiver, g: R.Receiver)
    requires |r.ring| == FLIGHT && Agreed(hs, r) && (hs.reuse ==> hs.current.Some?) && Took(hs, t, hs')
    requires |g.ring| == FLIGHT && R.RingOk(g) && R.OneEpoch(g) && g.current && !g.reuse && g.epoch == r.epoch
    requires t.msg == R.CurrentMessage(g).ty && (r.reuse ==> R.CurrentMessage(g) == R.CurrentMessage(r))
    ensures Agreed(hs', if hs'.reuse then g.(reuse := g.current) else g)
  {
  }

  /** A turn that asks for a message. */
  lemma AsksKeeps(c: Joint, i: Input, a: Answer, hs': Hs)
    requires |c.r.ring| == FLIGHT && Agreed(c.hs, c.r) && (c.hs.reuse ==> c.hs.current.Some?) && Asks(c.hs, i.t)
    requires a == Answered(c, i) && a.t.result != Fatal
    requires if a.t.result == Ok then Took(c.hs, a.t, hs') else hs' == Waiting(c.hs)
    requires c.hs.state != FINISH_HANDSHAKE
    ensures Agreed(hs', Settle(c.hs, i.t, a, hs'))
  {
    Receives(c.r, i.maxLen, i.records);
    if a.t.result == Ok {
      TakenAgrees(c.hs, a.t, hs', c.r, a.r);
    }
  }

  lemma {:induction false} CcsBehind(f: Facts, m: nat)
    requires m <= 19
    ensures ReadCcs in Parts(f, 0, m) <==> m >= if f.session then 5 else 18
  {
    PartsJoined(f, 0, m);
    forall k: nat ensures ReadCcs in PartOf(f)(k) <==> k == if f.session then 5 else 18 { CcsPlace(f, k); }
    var at := if f.session then 5 else 18;
    if m >= at { InJoined(PartOf(f), at, m, ReadCcs); } else { NotInJoined(PartOf(f), 0, m, ReadCcs); }
  }

  lemma CcsPlace(f: Facts, k: nat)
    ensures ReadCcs in Part(f, k) <==> k == if f.session then 5 else 18
  {
  }

  lemma SwitchedWhen(hs: Hs)
    requires Inv(hs)
    ensures hs.state == CR_CHANGE ==> !Switched(hs)
    ensures hs.state == CR_FINISHED ==> Switched(hs)
  {
    SessionBehind(hs);
    CcsBehind(FactsOf(hs), Behind(hs));
  }

  /** The turn that switches the read cipher. */
  lemma SwitchKeeps(c: Joint, i: Input, a: Answer, hs': Hs)
    requires |c.r.ring| == FLIGHT && Agreed(c.hs, c.r) && !c.hs.dead && c.hs.state == CR_CHANGE && !Switched(c.hs)
    requires a == Answered(c, i) && a.t.result != Fatal && SameMessage(c.hs, hs')
    requires Switched(hs') == (a.t.result == Ok)
    ensures Agreed(hs', Settle(c.hs, i.t, a, hs'))
  {
    if a.t.result == Ok { SwitchAgrees(c.r); }
  }

  lemma SwitchAgrees(r: R.Receiver)
    requires |r.ring| == FLIGHT && R.RingOk(r) && R.OneEpoch(r) && R.SetReadState(r).Some?
    ensures var r' := R.SetReadState(r).value; R.RingOk(r') && R.OneEpoch(r')
  {
  }

  /** The release at the end. */
  lemma FinishKeeps(c: Joint, i: Input, a: Answer, hs': Hs)
    requires |c.r.ring| == FLIGHT && Agreed(c.hs, c.r) && c.hs.state == FINISH_HANDSHAKE && !c.hs.reuse
    requires a == Answered(c, i) && Switched(hs') == Switched(c.hs) && !hs'.reuse
    requires hs'.current == if hs'.state == SSL_ST_OK then None else c.hs.current
    ensures Agreed(hs', Settle(c.hs, i.t, a, hs'))
  {
    R.AdvanceKeepsRing(c.r);
    R.AdvanceKeepsEpoch(c.r);
  }

  lemma OtherKeeps(c: Joint, i: Input, a: Answer, hs': Hs)
    requires |c.r.ring| == FLIGHT && Agreed(c.hs, c.r) && !c.hs.dead && Left(c.hs, hs')
    requires !Asks(c.hs, i.t) && c.hs.state != CR_CHANGE && c.hs.state != FINISH_HANDSHAKE && a == Answered(c, i)
    ensures Agreed(hs', Settle(c.hs, i.t, a, hs'))
  {
  }

  predicate SameMessage(hs: Hs, hs': Hs) { hs'.reuse == hs.reuse && hs'.current == hs.current }

  /** What any turn does, whether it stops or goes on. */
  ghost predicate Effect(hs: Hs, t: Turn, hs': Hs) {
    if hs.state == FINISH_HANDSHAKE then
      && hs'.reuse == hs.reuse && Switched(hs') == Switched(hs)
      && hs'.current == if hs'.state == SSL_ST_OK then None else hs.current
    else if hs.state == CR_CHANGE then
      t.result != Fatal && SameMessage(hs, hs') && Switched(hs') == (Switched(hs) || t.result == Ok)
    else if Asks(hs, t) then t.result != Fatal && if t.result == Ok then Took(hs, t, hs') else hs' == Waiting(hs)
    else Left(hs, hs')
  }

  lemma StopEffect(hs: Hs, t: Turn)
    requires Shape(hs) && Stops(hs, t) && !Stop(hs, t).dead
    ensures Effect(hs, t, Stop(hs, t))
  {
  }

  lemma FinishEffect(hs: Hs, t: Turn)
    requires !hs.dead && hs.state == FINISH_HANDSHAKE && !Stops(hs, t)
    ensures Effect(hs, t, To(hs.(current := None), SSL_ST_OK).hs)
  {
  }

  lemma ChangeEffect(hs: Hs, t: Turn)
    requires !hs.dead && hs.state == CR_CHANGE && !Stops(hs, t)
    ensures Effect(hs, t, ReadChangeCipherSpec(hs).hs)
  {
    assert hs.trace + [ReadCcs] == hs.trace + [ReadCcs];
  }

  lemma StepEffect(hs: Hs, t: Turn)
    requires Shape(hs) && !Step(hs, t).hs.dead && !hs.dead
    ensures Effect(hs, t, Step(hs, t).hs)
  {
    if Stops(hs, t) { StopEffect(hs, t); }
    else if hs.state == FINISH_HANDSHAKE { FinishEffect(hs, t); }
    else if hs.state == CR_CHANGE { ChangeEffect(hs, t); }
    else { GoEffect(hs, t); }
  }

  lemma EffectKeeps(c: Joint, i: Input, a: Answer, hs': Hs)
    requires |c.r.ring| == FLIGHT && Inv(c.hs) && Agreed(c.hs, c.r) && !c.hs.dead
    requires a == Answered(c, i) && Effect(c.hs, a.t, hs')
    ensures Agreed(hs', Settle(c.hs, i.t, a, hs'))
  {
    SwitchedWhen(c.hs);
    if Asks(c.hs, i.t) {
      AsksKeeps(c, i, a, hs');
    } else if c.hs.state == CR_CHANGE {
      SwitchKeeps(c, i, a, hs');
    } else if c.hs.state == FINISH_HANDSHAKE {
      FinishKeeps(c, i, a, hs');
    } else {
      OtherKeeps(c, i, a, hs');
    }
  }

  lemma JointKeeps(c: Joint, i: Input)
    requires |c.r.ring| == FLIGHT && Linked(c)
    ensures Linked(JointStep(c, i))
  {
    var a := Answered(c, i);
    var hs' := Step(c.hs, a.t).hs;
    if !hs'.dead && !c.hs.dead {
      StepKeeps(c.hs, a.t);
      StepEffect(c.hs, a.t);
      EffectKeeps(c, i, a, hs');
    }
  }

  lemma {:induction false} RunLinked(c: Joint, inputs: seq<Input>)
    requires |c.r.ring| == FLIGHT && Linked(c)
    ensures Linked(JointRun(c, inputs))
    decreases |inputs|
  {
    if inputs != [] {
      JointKeeps(c, inputs[0]);
      RunLinked(JointStep(c, inputs[0]), inputs[1..]);
    }
  }

  lemma StartLinked(start: Joint, offersSession: bool)
    requires start == Joint(Start(true, offersSession), R.START)
    ensures Linked(start)
  {
    StartInv(true, offersSession);
  }

  /** On every run, client and receiver agree on the current message, on whether it was pushed back, and on the
      epoch. */
  lemma AlwaysAgreed(start: Joint, offersSession: bool, inputs: seq<Input>)
    requires start == Joint(Start(true, offersSession), R.START) && !JointRun(start, inputs).hs.dead
    ensures var c := JointRun(start, inputs); Agreed(c.hs, c.r)
  {
    StartLinked(start, offersSession);
    RunLinked(start, inputs);
  }

  lemma ReadsPresentEpoch(c: Joint, i: Input, a: Answer, hs': Hs)
    requires |c.r.ring| == FLIGHT && Agreed(c.hs, c.r) && Asks(c.hs, i.t) && !c.hs.reuse && a == Answered(c, i)
    requires a.t.result != Fatal && Agreed(hs', Settle(c.hs, i.t, a, hs')) && hs'.current.Some?
    ensures var r := Settle(c.hs, i.t, a, hs');
            r.current && R.Ready(r) && R.CurrentPart(r).epochs == {if Switched(c.hs) then 1 else 0}
  {
    Receives(c.r, i.maxLen, i.records);
  }

  /** The current message was put together only from records of epoch e. */
  predicate OnlyFrom(r: R.Receiver, e: nat)
    requires |r.ring| == FLIGHT
  {
    r.current && R.Ready(r) && R.CurrentPart(r).epochs == {e}
  }

  /** Epoch isolation, on every run: a message that the client reads anew was put together only from records that
      came in the epoch it is read in.  The server's Finished comes after the switch, so that it is made of protected
      records. */
  lemma EpochsIsolated(start: Joint, offersSession: bool, inputs: seq<Input>, i: Input)
    requires start == Joint(Start(true, offersSession), R.START)
    requires var c := JointRun(start, inputs); Asks(c.hs, i.t) && !c.hs.reuse && !JointStep(c, i).hs.dead
    ensures var c := JointRun(start, inputs);
            var c' := JointStep(c, i);
            && (c'.hs.current.Some? ==> OnlyFrom(c'.r, if ReadCcs in c.hs.trace then 1 else 0))
            && (c.hs.state == CR_FINISHED ==> ReadCcs in c.hs.trace)
  {
    var c := JointRun(start, inputs);
    StartLinked(start, offersSession);
    RunLinked(start, inputs);
    SwitchedWhen(c.hs);
    OneIsolated(c, i);
  }

  lemma OneIsolated(c: Joint, i: Input)
    requires |c.r.ring| == FLIGHT && Inv(c.hs) && Agreed(c.hs, c.r)
    requires Asks(c.hs, i.t) && !c.hs.reuse && !JointStep(c, i).hs.dead
    ensures var c' := JointStep(c, i); c'.hs.current.Some? ==> OnlyFrom(c'.r, if Switched(c.hs) then 1 else 0)
  {
    var a := Answered(c, i);
    var hs' := Step(c.hs, a.t).hs;
    StepEffect(c.hs, a.t);
    EffectKeeps(c, i, a, hs');
    if hs'.current.Some? { ReadsPresentEpoch(c, i, a, hs'); }
  }
}
