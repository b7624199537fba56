/** Where each choice of a handshake comes from (handshake_client.c:190-511): every message that comes in is processed
    once and in its order, pushed back or not; and the ServerHello, the application and the peer decide what they
    should, False Start (RFC 7918) included. */
module TlsChoices {
  import opened Wrappers
  import opened TlsClient
  import opened TlsProgress

  // ----- what has happened in a run -----

  /** A turn that was not blocked and did not end the connection: the state it was taken in, what the environment
      decided, and whether a new message came in. */
  datatype Done = Done(state: State, turn: Turn, isNew: bool)

  function Ran(hs: Hs, t: Turn): seq<Done> {
    if Stops(hs, t) || Step(hs, t).hs.dead then [] else [Done(hs.state, t, Asks(hs, t) && !hs.reuse)]
  }

  function CallRan(hs: Hs, ts: seq<Turn>): seq<Done>
    decreases |ts|
  {
    if ts == [] then []
    else Ran(hs, ts[0]) + if Step(hs, ts[0]).Again? then CallRan(Step(hs, ts[0]).hs, ts[1..]) else []
  }

  function AllRan(hs: Hs, calls: seq<seq<Turn>>): seq<Done>
    decreases |calls|
  {
    if calls == [] then [] else CallRan(hs, calls[0]) + AllRan(Connect(hs, calls[0]).0, calls[1..])
  }

  /** All turns of a run, in their order. */
  function History(dtls: bool, offersSession: bool, calls: seq<seq<Turn>>): seq<Done> {
    AllRan(Start(dtls, offersSession), calls)
  }

  /** What the environment decided when a state was left for the last time.  The two states of CertificateVerify are
      one. */
  function Last(h: seq<Done>, s: State): Option<Turn> {
    if h == [] then None
    else
      var d := h[|h|-1];
      if d.state == s || (s == CW_CERT_VRFY_A && d.state == CW_CERT_VRFY_B) then Some(d.turn) else Last(h[..|h|-1], s)
  }

  /** The messages that came in. */
  function Incoming(h: seq<Done>): seq<MsgType> {
    if h == [] then []
    else Incoming(h[..|h|-1]) + if h[|h|-1].isNew then [h[|h|-1].turn.msg] else []
  }

  /** Each ClientHello found the offered session still usable. */
  predicate AlwaysUsable(h: seq<Done>) {
    h == [] || (AlwaysUsable(h[..|h|-1]) && (h[|h|-1].state == CW_CLNT_HELLO ==> h[|h|-1].turn.keepsSession))
  }

  lemma OneMore(h: seq<Done>, d: Done)
    ensures Incoming(h + [d]) == Incoming(h) + if d.isNew then [d.turn.msg] else []
    ensures AlwaysUsable(h + [d]) <==> AlwaysUsable(h) && (d.state == CW_CLNT_HELLO ==> d.turn.keepsSession)
    ensures forall s :: Last(h + [d], s) ==
              if d.state == s || (s == CW_CERT_VRFY_A && d.state == CW_CERT_VRFY_B) then Some(d.turn) else Last(h, s)
  {
    assert (h + [d])[..|h|] == h;
  }

  // ----- messages -----

  /** The message whose reading an event is. */
  function TypeRead(e: Event): seq<MsgType> {
    match e
    case ReadHelloVerify => [MT_HELLO_VERIFY_REQUEST]
    case ReadServerHello => [MT_SERVER_HELLO]
    case ReadCert => [MT_CERTIFICATE]
    case ReadCertStatus => [MT_CERTIFICATE_STATUS]
    case ReadKeyExchange => [MT_SERVER_KEY_EXCHANGE]
    case ReadCertRequest => [MT_CERTIFICATE_REQUEST]
    case ReadServerDone => [MT_SERVER_HELLO_DONE]
    case ReadTicket => [MT_NEW_SESSION_TICKET]
    case ReadFinished => [MT_FINISHED]
    case _ => []
  }

  function TypesRead(trace: seq<Event>): seq<MsgType> {
    if trace == [] then [] else TypesRead(trace[..|trace|-1]) + TypeRead(trace[|trace|-1])
  }

  /** The message that was pushed back, if there is one. */
  function Pushed(hs: Hs): seq<MsgType> {
    if hs.reuse && hs.current.Some? then [hs.current.value] else []
  }

  /** What was read, and then what was pushed back. */
  function Processed(hs: Hs): seq<MsgType> { TypesRead(hs.trace) + Pushed(hs) }

  function Fresh(hs: Hs, t: Turn): seq<MsgType> { if Asks(hs, t) && !hs.reuse then [t.msg] else [] }

  lemma ReadNow(hs: Hs, t: Turn, hs': Hs, e: Event)
    requires hs'.trace == hs.trace + [e] && TypeRead(e) == [Got(hs, t)] && !hs'.reuse
    requires Asks(hs, t) && (hs.reuse ==> hs.current.Some?)
    ensures Processed(hs') == Processed(hs) + Fresh(hs, t)
  {
    assert hs'.trace[..|hs.trace|] == hs.trace;
  }

  lemma ReadLater(hs: Hs, t: Turn, hs': Hs)
    requires hs'.trace == hs.trace && hs'.reuse && hs'.current == Some(Got(hs, t))
    requires Asks(hs, t) && (hs.reuse ==> hs.current.Some?)
    ensures Processed(hs') == Processed(hs) + Fresh(hs, t)
  {
    assert TypesRead(hs.trace) + [] == TypesRead(hs.trace);
    assert Processed(hs) + [] == Processed(hs);
  }

  lemma Sent(hs: Hs, t: Turn, hs': Hs, e: Event)
    requires hs'.trace == hs.trace + [e] && TypeRead(e) == [] && Pushed(hs') == Pushed(hs) && !Asks(hs, t)
    ensures Processed(hs') == Processed(hs) + Fresh(hs, t)
  {
    assert hs'.trace[..|hs.trace|] == hs.trace;
    assert TypesRead(hs.trace) + [] == TypesRead(hs.trace);
    assert Processed(hs) + [] == Processed(hs);
  }

  lemma NothingRead(hs: Hs, t: Turn, hs': Hs)
    requires hs'.trace == hs.trace || (exists e :: hs'.trace == hs.trace + [e] && TypeRead(e) == [])
    requires Pushed(hs') == Pushed(hs) && !Asks(hs, t)
    ensures Processed(hs') == Processed(hs) + Fresh(hs, t)
  {
    if hs'.trace != hs.trace {
      var e :| hs'.trace == hs.trace + [e] && TypeRead(e) == [];
      Sent(hs, t, hs', e);
    }
    assert Processed(hs) + [] == Processed(hs);
  }

  // ----- choices -----

  /** The client has decided on False Start. */
  predicate Early(hs: Hs) {
    hs.inFalseStart || hs.state == FALSE_START || (hs.state == CW_FLUSH && hs.nextState == FALSE_START)
  }

  /** The client waits for the ServerHello, is about to, or has read it. */
  predicate AwaitsHello(hs: Hs) {
    || hs.state == CR_SRVR_HELLO || (hs.state == CW_FLUSH && hs.nextState == CR_SRVR_HELLO)
    || !BeforeServerHello(hs)
  }

  predicate Verifies(s: State) { s == CW_CERT_VRFY_A || s == CW_CERT_VRFY_B }

  /** What a turn that does not end the connection decides. */
  predicate Decides(hs: Hs, t: Turn, hs': Hs) {
    && hs'.dtls == hs.dtls
    && hs'.hello == (if hs.state == CR_SRVR_HELLO then t.hello else hs.hello)
    && hs'.session == SessionAfter(hs, t)
    && hs'.sendCookie == (if hs.state == CR_HELLO_VERIFY then t.msg == MT_HELLO_VERIFY_REQUEST else hs.sendCookie)
    && (hs.dtls && AwaitsHello(hs') ==> AwaitsHello(hs) || hs.state == CR_HELLO_VERIFY || hs.sendCookie)
    && hs'.past.certVerify == (if Verifies(hs.state) then hs.certRequest && t.hasCert else hs.past.certVerify)
    && (hs.state != CR_CERT_REQ ==> hs'.certRequest == hs.certRequest)
    && (Early(hs') <==> if hs.state == CW_FINISHED then t.falseStart && !hs.dtls && !hs.session else Early(hs))
  }

  /** Who has started early is in a full handshake over TLS and waits for the server's last messages. */
  predicate EarlyOk(hs: Hs) {
    && (hs.inFalseStart ==> CR_SESSION_TICKET <= hs.state && hs.state != CW_FLUSH)
    && (Early(hs) ==> !hs.dtls && !hs.session)
  }

  // What cannot be come to again once it is behind.

  predicate AfterHello(hs: Hs) { !BeforeServerHello(hs) }

  predicate AfterVerify(hs: Hs) { AfterHello(hs) && !hs.session && hs.state > CW_CERT_VRFY_B }

  predicate AfterFinished(hs: Hs) { AfterHello(hs) && hs.state > CW_FINISHED && (hs.session ==> hs.state >= CW_FLUSH) }

  predicate Onward(hs: Hs, hs': Hs) {
    && (AfterHello(hs) ==> AfterHello(hs')) && (AfterVerify(hs) ==> AfterVerify(hs'))
    && (AfterFinished(hs) ==> AfterFinished(hs'))
  }

  predicate Leaves(hs: Hs, hs': Hs) {
    && (hs.state == CR_SRVR_HELLO ==> AfterHello(hs')) && (Verifies(hs.state) ==> AfterVerify(hs'))
    && (hs.state == CW_FINISHED ==> AfterFinished(hs'))
  }

  /** Only False Start and the end return success, and only False Start changes what says that it happened. */
  predicate Concludes(hs: Hs, o: Outcome) {
    && (o.Return? && o.ok ==> hs.state == FALSE_START || (hs.state == SSL_ST_OK && o.hs == hs))
    && (hs.state != FALSE_START ==> o.hs.inFalseStart == hs.inFalseStart)
  }

  predicate StepOk(hs: Hs, t: Turn, hs': Hs) {
    || hs'.dead
    || (Processed(hs') == Processed(hs) + Fresh(hs, t) && Decides(hs, t, hs') && EarlyOk(hs') && Onward(hs, hs')
        && Leaves(hs, hs'))
  }

  // One small lemma a step.

  lemma SendClientHelloOk(hs: Hs, t: Turn)
    requires !hs.dead && Shape(hs) && EarlyOk(hs) && hs.state == CW_CLNT_HELLO
    ensures StepOk(hs, t, SendClientHello(hs, t).hs) && Concludes(hs, SendClientHello(hs, t))
  {
    NothingRead(hs, t, SendClientHello(hs, t).hs);
  }

  lemma GetHelloVerifyOk(hs: Hs, t: Turn)
    requires !hs.dead && Shape(hs) && EarlyOk(hs) && hs.state == CR_HELLO_VERIFY
    ensures StepOk(hs, t, GetHelloVerify(hs, t).hs) && Concludes(hs, GetHelloVerify(hs, t))
  {
    var hs' := GetHelloVerify(hs, t).hs;
    if Got(hs, t) == MT_HELLO_VERIFY_REQUEST { ReadNow(hs, t, hs', ReadHelloVerify); } else { ReadLater(hs, t, hs'); }
  }

  lemma GetServerHelloOk(hs: Hs, t: Turn)
    requires !hs.dead && Shape(hs) && EarlyOk(hs) && hs.state == CR_SRVR_HELLO
    ensures StepOk(hs, t, GetServerHello(hs, t).hs) && Concludes(hs, GetServerHello(hs, t))
  {
    var hs' := GetServerHello(hs, t).hs;
    if !hs'.dead { ReadNow(hs, t, hs', ReadServerHello); }
  }

  lemma GetServerCertificateOk(hs: Hs, t: Turn)
    requires !hs.dead && Shape(hs) && EarlyOk(hs) && hs.state == CR_CERT
    ensures StepOk(hs, t, GetServerCertificate(hs, t).hs) && Concludes(hs, GetServerCertificate(hs, t))
  {
    var hs' := GetServerCertificate(hs, t).hs;
    if !hs.hello.certAuth { NothingRead(hs, t, hs'); } else if !hs'.dead { ReadNow(hs, t, hs', ReadCert); }
  }

  lemma GetCertStatusOk(hs: Hs, t: Turn)
    requires !hs.dead && Shape(hs) && EarlyOk(hs) && hs.state == CR_CERT_STATUS
    ensures StepOk(hs, t, GetCertStatus(hs, t).hs) && Concludes(hs, GetCertStatus(hs, t))
  {
    var hs' := GetCertStatus(hs, t).hs;
    if !hs.hello.statusExpected { NothingRead(hs, t, hs'); }
    else if Got(hs, t) == MT_CERTIFICATE_STATUS { ReadNow(hs, t, hs', ReadCertStatus); }
    else { ReadLater(hs, t, hs'); }
  }

  lemma VerifyServerCertOk(hs: Hs, t: Turn)
    requires !hs.dead && Shape(hs) && EarlyOk(hs) && hs.state == VERIFY_SERVER_CERT
    ensures StepOk(hs, t, VerifyServerCert(hs).hs) && Concludes(hs, VerifyServerCert(hs))
  {
    NothingRead(hs, t, VerifyServerCert(hs).hs);
  }

  lemma GetServerKeyExchangeOk(hs: Hs, t: Turn)
    requires !hs.dead && Shape(hs) && EarlyOk(hs) && hs.state == CR_KEY_EXCH
    ensures StepOk(hs, t, GetServerKeyExchange(hs, t).hs) && Concludes(hs, GetServerKeyExchange(hs, t))
  {
    var hs' := GetServerKeyExchange(hs, t).hs;
    if Got(hs, t) == MT_SERVER_KEY_EXCHANGE { ReadNow(hs, t, hs', ReadKeyExchange); }
    else if !hs'.dead { ReadLater(hs, t, hs'); }
  }

  lemma GetCertificateRequestOk(hs: Hs, t: Turn)
    requires !hs.dead && Shape(hs) && EarlyOk(hs) && hs.state == CR_CERT_REQ
    ensures StepOk(hs, t, GetCertificateRequest(hs, t).hs) && Concludes(hs, GetCertificateRequest(hs, t))
  {
    var hs' := GetCertificateRequest(hs, t).hs;
    if !hs.hello.certAuth { NothingRead(hs, t, hs'); }
    else if Got(hs, t) == MT_CERTIFICATE_REQUEST { ReadNow(hs, t, hs', ReadCertRequest); }
    else if !hs'.dead { ReadLater(hs, t, hs'); }
  }

  lemma GetServerHelloDoneOk(hs: Hs, t: Turn)
    requires !hs.dead && Shape(hs) && EarlyOk(hs) && hs.state == CR_SRVR_DONE
    ensures StepOk(hs, t, GetServerHelloDone(hs, t).hs) && Concludes(hs, GetServerHelloDone(hs, t))
  {
    var hs' := GetServerHelloDone(hs, t).hs;
    if !hs'.dead { ReadNow(hs, t, hs', ReadServerDone); }
  }

  lemma SendClientCertificateOk(hs: Hs, t: Turn)
    requires !hs.dead && Shape(hs) && EarlyOk(hs) && hs.state == CW_CERT
    ensures StepOk(hs, t, SendClientCertificate(hs).hs) && Concludes(hs, SendClientCertificate(hs))
  {
    NothingRead(hs, t, SendClientCertificate(hs).hs);
  }

  lemma SendClientKeyExchangeOk(hs: Hs, t: Turn)
    requires !hs.dead && Shape(hs) && EarlyOk(hs) && hs.state == CW_KEY_EXCH
    ensures StepOk(hs, t, SendClientKeyExchange(hs).hs) && Concludes(hs, SendClientKeyExchange(hs))
  {
    NothingRead(hs, t, SendClientKeyExchange(hs).hs);
  }

  lemma SendCertVerifyOk(hs: Hs, t: Turn)
    requires !hs.dead && Shape(hs) && EarlyOk(hs) && CW_CERT_VRFY_A <= hs.state <= CW_CERT_VRFY_B
    ensures StepOk(hs, t, SendCertVerify(hs, t).hs) && Concludes(hs, SendCertVerify(hs, t))
  {
    NothingRead(hs, t, SendCertVerify(hs, t).hs);
  }

  lemma SendChangeCipherSpecOk(hs: Hs, t: Turn)
    requires !hs.dead && Shape(hs) && EarlyOk(hs) && hs.state == CW_CHANGE
    ensures StepOk(hs, t, SendChangeCipherSpec(hs).hs) && Concludes(hs, SendChangeCipherSpec(hs))
  {
    NothingRead(hs, t, SendChangeCipherSpec(hs).hs);
  }

  lemma SendNextProtoOk(hs: Hs, t: Turn)
    requires !hs.dead && Shape(hs) && EarlyOk(hs) && hs.state == CW_NEXT_PROTO
    ensures StepOk(hs, t, SendNextProto(hs).hs) && Concludes(hs, SendNextProto(hs))
  {
    NothingRead(hs, t, SendNextProto(hs).hs);
  }

  lemma SendChannelIdOk(hs: Hs, t: Turn)
    requires !hs.dead && Shape(hs) && EarlyOk(hs) && hs.state == CW_CHANNEL_ID
    ensures StepOk(hs, t, SendChannelId(hs).hs) && Concludes(hs, SendChannelId(hs))
  {
    NothingRead(hs, t, SendChannelId(hs).hs);
  }

  lemma SendFinishedOk(hs: Hs, t: Turn)
    requires !hs.dead && Shape(hs) && EarlyOk(hs) && hs.state == CW_FINISHED
    ensures StepOk(hs, t, SendFinished(hs, t).hs) && Concludes(hs, SendFinished(hs, t))
  {
    var hs' := SendFinished(hs, t).hs;
    Sent(hs, t, hs', SentFinished);
    if !hs'.dead { FinishedDecides(hs, t); }
  }

  lemma FinishedDecides(hs: Hs, t: Turn)
    requires Shape(hs) && EarlyOk(hs) && hs.state == CW_FINISHED && !SendFinished(hs, t).hs.dead
    ensures var hs' := SendFinished(hs, t).hs;
            Decides(hs, t, hs') && EarlyOk(hs') && Onward(hs, hs') && Leaves(hs, hs')
  {
  }

  lemma StartEarlyOk(hs: Hs, t: Turn)
    requires !hs.dead && Shape(hs) && EarlyOk(hs) && hs.state == FALSE_START
    ensures StepOk(hs, t, StartEarly(hs).hs) && Concludes(hs, StartEarly(hs))
  {
    NothingRead(hs, t, StartEarly(hs).hs);
  }

  lemma GetNewSessionTicketOk(hs: Hs, t: Turn)
    requires !hs.dead && Shape(hs) && EarlyOk(hs) && hs.state == CR_SESSION_TICKET
    ensures StepOk(hs, t, GetNewSessionTicket(hs, t).hs) && Concludes(hs, GetNewSessionTicket(hs, t))
  {
    var hs' := GetNewSessionTicket(hs, t).hs;
    if !hs.hello.ticketExpected { NothingRead(hs, t, hs'); } else if !hs'.dead { ReadNow(hs, t, hs', ReadTicket); }
  }

  lemma ReadChangeCipherSpecOk(hs: Hs, t: Turn)
    requires !hs.dead && Shape(hs) && EarlyOk(hs) && hs.state == CR_CHANGE
    ensures StepOk(hs, t, ReadChangeCipherSpec(hs).hs) && Concludes(hs, ReadChangeCipherSpec(hs))
  {
    NothingRead(hs, t, ReadChangeCipherSpec(hs).hs);
  }

  lemma GetFinishedOk(hs: Hs, t: Turn)
    requires !hs.dead && Shape(hs) && EarlyOk(hs) && hs.state == CR_FINISHED
    ensures StepOk(hs, t, GetFinished(hs, t).hs) && Concludes(hs, GetFinished(hs, t))
  {
    var hs' := GetFinished(hs, t).hs;
    if !hs'.dead { ReadNow(hs, t, hs', ReadFinished); }
  }

  lemma MovesOk(hs: Hs, t: Turn)
    requires !hs.dead && Shape(hs) && EarlyOk(hs)
    requires hs.state == SSL_ST_INIT || hs.state == CW_FLUSH || hs.state == FINISH_HANDSHAKE || hs.state == SSL_ST_OK
    ensures StepOk(hs, t, Go(hs, t).hs) && Concludes(hs, Go(hs, t))
  {
    NothingRead(hs, t, Go(hs, t).hs);
  }

  lemma GoOk(hs: Hs, t: Turn)
    requires !hs.dead && Shape(hs) && EarlyOk(hs)
    ensures StepOk(hs, t, Go(hs, t).hs) && Concludes(hs, Go(hs, t))
  {
    var s := hs.state;
    if s == CW_CLNT_HELLO { SendClientHelloOk(hs, t); }
    else if s == CR_HELLO_VERIFY { GetHelloVerifyOk(hs, t); }
    else if s == CR_SRVR_HELLO { GetServerHelloOk(hs, t); }
    else if s == CR_CERT { GetServerCertificateOk(hs, t); }
    else if s == CR_CERT_STATUS { GetCertStatusOk(hs, t); }
    else if s == VERIFY_SERVER_CERT { VerifyServerCertOk(hs, t); }
    else if s == CR_KEY_EXCH { GetServerKeyExchangeOk(hs, t); }
    else if s == CR_CERT_REQ { GetCertificateRequestOk(hs, t); }
    else if s == CR_SRVR_DONE { GetServerHelloDoneOk(hs, t); }
    else if s == CW_CERT { SendClientCertificateOk(hs, t); }
    else if s == CW_KEY_EXCH { SendClientKeyExchangeOk(hs, t); }
    else if s == CW_CERT_VRFY_A || s == CW_CERT_VRFY_B { SendCertVerifyOk(hs, t); }
    else if s == CW_CHANGE { SendChangeCipherSpecOk(hs, t); }
    else if s == CW_NEXT_PROTO { SendNextProtoOk(hs, t); }
    else if s == CW_CHANNEL_ID { SendChannelIdOk(hs, t); }
    else if s == CW_FINISHED { SendFinishedOk(hs, t); }
    else if s == FALSE_START { StartEarlyOk(hs, t); }
    else if s == CR_SESSION_TICKET { GetNewSessionTicketOk(hs, t); }
    else if s == CR_CHANGE { ReadChangeCipherSpecOk(hs, t); }
    else if s == CR_FINISHED { GetFinishedOk(hs, t); }
    else { MovesOk(hs, t); }
  }

  /** A turn that is blocked settles nothing. */
  predicate SettlesNothing(hs: Hs, hs': Hs) {
    && Processed(hs') == Processed(hs) && EarlyOk(hs') && (Early(hs') <==> Early(hs))
    && FactsOf(hs') == FactsOf(hs) && hs'.dtls == hs.dtls && Onward(hs, hs')
    && (AwaitsHello(hs') <==> AwaitsHello(hs))
  }

  lemma WaitingOk(hs: Hs)
    requires EarlyOk(hs)
    ensures SettlesNothing(hs, Waiting(hs))
  {
  }

  lemma SigningOk(hs: Hs)
    requires EarlyOk(hs) && Verifies(hs.state)
    ensures SettlesNothing(hs, hs.(state := CW_CERT_VRFY_B))
  {
  }

  /** What every state of a client satisfies. */
  ghost predicate Sound(hs: Hs) { Alive(hs) && (hs.dead || EarlyOk(hs)) }

  lemma TurnSound(hs: Hs, t: Turn)
    requires Sound(hs)
    ensures Sound(Step(hs, t).hs)
  {
    StepKeeps(hs, t);
    if !hs.dead {
      if Stops(hs, t) {
        WaitingOk(hs);
        if Verifies(hs.state) { SigningOk(hs); }
      } else {
        GoOk(hs, t);
      }
    }
  }

  // ----- whole runs -----

  /** Everything in the handshake is accounted for by its history. */
  ghost predicate Explained(hs: Hs, h: seq<Done>, dtls: bool, offersSession: bool) {
    && Processed(hs) == Incoming(h)
    && hs.dtls == dtls
    && hs.hello == (if Last(h, CR_SRVR_HELLO).Some? then Last(h, CR_SRVR_HELLO).value.hello else NO_HELLO)
    && hs.session == (offersSession && AlwaysUsable(h)
                      && (Last(h, CR_SRVR_HELLO).Some? ==> Last(h, CR_SRVR_HELLO).value.hello.resumes))
    && hs.sendCookie == (Last(h, CR_HELLO_VERIFY).Some?
                         && Last(h, CR_HELLO_VERIFY).value.msg == MT_HELLO_VERIFY_REQUEST)
    && (dtls && AwaitsHello(hs) ==> Last(h, CR_HELLO_VERIFY).Some?)
    && hs.past.certVerify == (hs.certRequest && Last(h, CW_CERT_VRFY_A).Some? && Last(h, CW_CERT_VRFY_A).value.hasCert)
    && (Early(hs) <==> FalseStartAllowed(hs, h))
  }

  /** False Start is decided when the client's Finished has been sent: it must be enabled for the connection, which is
      not one over DTLS or with a resumed session. */
  predicate FalseStartAllowed(hs: Hs, h: seq<Done>) {
    Last(h, CW_FINISHED).Some? && Last(h, CW_FINISHED).value.falseStart && !hs.dtls && !hs.session
  }

  /** The history is no further than the handshake. */
  predicate NotAhead(hs: Hs, h: seq<Done>) {
    && (Last(h, CR_SRVR_HELLO).Some? ==> AfterHello(hs)) && (Last(h, CW_CERT_VRFY_A).Some? ==> AfterVerify(hs))
    && (Last(h, CW_FINISHED).Some? ==> AfterFinished(hs))
  }

  ghost predicate Told(hs: Hs, h: seq<Done>, dtls: bool, offersSession: bool) {
    hs.dead || (Inv(hs) && EarlyOk(hs) && NotAhead(hs, h) && Explained(hs, h, dtls, offersSession))
  }

  lemma StepTold(hs: Hs, t: Turn, h: seq<Done>, dtls: bool, offersSession: bool)
    requires !hs.dead && Told(hs, h, dtls, offersSession) && !Stops(hs, t)
    ensures Told(Go(hs, t).hs, h + [Done(hs.state, t, Asks(hs, t) && !hs.reuse)], dtls, offersSession)
  {
    GoOk(hs, t);
    GoKeeps(hs, t);
    OneMore(h, Done(hs.state, t, Asks(hs, t) && !hs.reuse));
    ToldNext(hs, t, Go(hs, t).hs, h, Done(hs.state, t, Asks(hs, t) && !hs.reuse), dtls, offersSession);
  }

  lemma ToldNext(hs: Hs, t: Turn, hs': Hs, h: seq<Done>, d: Done, dtls: bool, offersSession: bool)
    requires !hs.dead && Told(hs, h, dtls, offersSession) && Alive(hs') && StepOk(hs, t, hs')
    requires d == Done(hs.state, t, Asks(hs, t) && !hs.reuse)
    ensures Told(hs', h + [d], dtls, offersSession)
  {
    if !hs'.dead {
      NotAheadNext(hs, hs', h, d);
      ExplainedNext(hs, t, hs', h, d, dtls, offersSession);
    }
  }

  lemma NotAheadNext(hs: Hs, hs': Hs, h: seq<Done>, d: Done)
    requires NotAhead(hs, h) && Onward(hs, hs') && Leaves(hs, hs') && d.state == hs.state
    ensures NotAhead(hs', h + [d])
  {
    OneMore(h, d);
  }

  lemma ExplainedNext(hs: Hs, t: Turn, hs': Hs, h: seq<Done>, d: Done, dtls: bool, offersSession: bool)
    requires Shape(hs) && EarlyOk(hs) && NotAhead(hs, h) && Explained(hs, h, dtls, offersSession)
    requires !hs'.dead && StepOk(hs, t, hs') && d == Done(hs.state, t, Asks(hs, t) && !hs.reuse)
    ensures Explained(hs', h + [d], dtls, offersSession)
  {
    OneMore(h, d);
  }

  lemma StillTold(hs: Hs, hs': Hs, h: seq<Done>, dtls: bool, offersSession: bool)
    requires !hs.dead && Told(hs, h, dtls, offersSession) && Alive(hs') && SettlesNothing(hs, hs')
    ensures Told(hs', h, dtls, offersSession)
  {
  }

  lemma StopTold(hs: Hs, t: Turn, h: seq<Done>, dtls: bool, offersSession: bool)
    requires Told(hs, h, dtls, offersSession) && Stops(hs, t)
    ensures Told(Stop(hs, t), h, dtls, offersSession)
  {
    StopKeeps(hs, t);
    if !hs.dead && t.result != Fatal {
      WaitingOk(hs);
      if t.result == SignLater && Verifies(hs.state) { SigningOk(hs); }
      StillTold(hs, Stop(hs, t), h, dtls, offersSession);
    }
  }

  lemma TurnTold(hs: Hs, t: Turn, h: seq<Done>, dtls: bool, offersSession: bool)
    requires Told(hs, h, dtls, offersSession)
    ensures Told(Step(hs, t).hs, h + Ran(hs, t), dtls, offersSession)
  {
    if Stops(hs, t) {
      StopTold(hs, t, h, dtls, offersSession);
      assert h + [] == h;
    } else {
      StepTold(hs, t, h, dtls, offersSession);
    }
  }

  /** What every turn keeps of a handshake and its history, whole calls and runs keep. */
  ghost predicate KeptByTurns(p: (Hs, seq<Done>) -> bool) {
    forall hs, t, h :: p(hs, h) ==> p(Step(hs, t).hs, h + Ran(hs, t))
  }

  lemma JoinsOn<T>(a: seq<T>, b: seq<T>, c: seq<T>)
    ensures a + b + c == a + (b + c) && a + [] == a
  {
  }

  lemma {:induction false} KeptByCall(p: (Hs, seq<Done>) -> bool, hs: Hs, ts: seq<Turn>, h: seq<Done>)
    requires KeptByTurns(p) && p(hs, h)
    ensures p(Connect(hs, ts).0, h + CallRan(hs, ts))
    decreases |ts|
  {
    JoinsOn(h, [], []);
    if ts != [] {
      var o, ran := Step(hs, ts[0]), Ran(hs, ts[0]);
      assert p(o.hs, h + ran);
      if o.Again? { KeptByCall(p, o.hs, ts[1..], h + ran); }
      JoinsOn(h, ran, if o.Again? then CallRan(o.hs, ts[1..]) else []);
      JoinsOn(h + ran, [], []);
    }
  }

  lemma {:induction false} KeptByRun(p: (Hs, seq<Done>) -> bool, hs: Hs, calls: seq<seq<Turn>>, h: seq<Done>)
    requires KeptByTurns(p) && p(hs, h)
    ensures p(Run(hs, calls), h + AllRan(hs, calls))
    decreases |calls|
  {
    JoinsOn(h, [], []);
    if calls != [] {
      var hs', ran := Connect(hs, calls[0]).0, CallRan(hs, calls[0]);
      KeptByCall(p, hs, calls[0], h);
      KeptByRun(p, hs', calls[1..], h + ran);
      JoinsOn(h, ran, AllRan(hs', calls[1..]));
    }
  }

  ghost function Telling(dtls: bool, offersSession: bool): (Hs, seq<Done>) -> bool {
    (hs: Hs, h: seq<Done>) => Told(hs, h, dtls, offersSession)
  }

  lemma ToldByTurns(dtls: bool, offersSession: bool)
    ensures KeptByTurns(Telling(dtls, offersSession))
  {
    forall hs, t, h | Told(hs, h, dtls, offersSession)
      ensures Told(Step(hs, t).hs, h + Ran(hs, t), dtls, offersSession)
    {
      TurnTold(hs, t, h, dtls, offersSession);
    }
  }

  lemma StartExplained(dtls: bool, offersSession: bool)
    ensures var hs := Start(dtls, offersSession);
            EarlyOk(hs) && NotAhead(hs, []) && Explained(hs, [], dtls, offersSession)
  {
  }

  lemma StartTold(dtls: bool, offersSession: bool)
    ensures Told(Start(dtls, offersSession), [], dtls, offersSession)
  {
    StartInv(dtls, offersSession);
    StartExplained(dtls, offersSession);
  }

  lemma AfterTold(dtls: bool, offersSession: bool, calls: seq<seq<Turn>>)
    ensures Told(After(dtls, offersSession, calls), History(dtls, offersSession, calls), dtls, offersSession)
  {
    var p, start := Telling(dtls, offersSession), Start(dtls, offersSession);
    ToldByTurns(dtls, offersSession);
    StartTold(dtls, offersSession);
    assert p(start, []);
    KeptByRun(p, start, calls, []);
    assert [] + AllRan(start, calls) == AllRan(start, calls);
  }

  lemma CallKeepsTold(hs: Hs, ts: seq<Turn>, h: seq<Done>, dtls: bool, offersSession: bool)
    requires Told(hs, h, dtls, offersSession)
    ensures Told(Connect(hs, ts).0, h + CallRan(hs, ts), dtls, offersSession)
  {
    ToldByTurns(dtls, offersSession);
    KeptByCall(Telling(dtls, offersSession), hs, ts, h);
  }

  // ----- what that comes to -----

  /** On every run the handshake messages that came in are exactly those that were read, in the order they came, and
      then the one that is pushed back: none is lost, read twice, or passed over, whether it was the one waited for or
      came in place of an optional one. */
  lemma MessagesReadInOrder(dtls: bool, offersSession: bool, calls: seq<seq<Turn>>)
    requires !After(dtls, offersSession, calls).dead
    ensures var hs := After(dtls, offersSession, calls);
            && (hs.reuse ==> hs.current.Some?)
            && TypesRead(hs.trace) + (if hs.reuse then [hs.current.value] else []) ==
                 Incoming(History(dtls, offersSession, calls))
  {
    AfterTold(dtls, offersSession, calls);
  }

  /** On every run: what the ServerHello asks for is what it said, the session is resumed if it was offered, usable at
      each ClientHello and named by the ServerHello, and CertificateVerify is sent if and only if a certificate was
      requested and there is one. */
  lemma ChoicesHonoured(dtls: bool, offersSession: bool, calls: seq<seq<Turn>>)
    requires !After(dtls, offersSession, calls).dead
    ensures var hs, h := After(dtls, offersSession, calls), History(dtls, offersSession, calls);
            var hello, verify := Last(h, CR_SRVR_HELLO), Last(h, CW_CERT_VRFY_A);
            && (hello.Some? ==> hs.hello == hello.value.hello)
            && (hs.session <==> offersSession && AlwaysUsable(h) && (hello.Some? ==> hello.value.hello.resumes))
            && (hs.past.certVerify <==> hs.certRequest && verify.Some? && verify.value.hasCert)
  {
    AfterTold(dtls, offersSession, calls);
  }

  /** On every run over DTLS the client looks for a HelloVerifyRequest before it waits for the ServerHello, and sends
      the cookie if and only if one came. */
  lemma CookieIffAsked(dtls: bool, offersSession: bool, calls: seq<seq<Turn>>)
    requires !After(dtls, offersSession, calls).dead
    ensures var hs := After(dtls, offersSession, calls);
            var verify := Last(History(dtls, offersSession, calls), CR_HELLO_VERIFY);
            && (dtls && (hs.state == CR_SRVR_HELLO || !BeforeServerHello(hs)) ==> verify.Some?)
            && (hs.sendCookie <==> verify.Some? && verify.value.msg == MT_HELLO_VERIFY_REQUEST)
  {
    AfterTold(dtls, offersSession, calls);
  }

  /** On every run False Start is decided on if and only if the connection allows it when the client's Finished is sent,
      it is not over DTLS, and no session is resumed; and it is behind the client only if it was decided on. */
  lemma FalseStartIffAllowed(dtls: bool, offersSession: bool, calls: seq<seq<Turn>>)
    requires !After(dtls, offersSession, calls).dead
    ensures var hs, h := After(dtls, offersSession, calls), History(dtls, offersSession, calls);
            var finished := Last(h, CW_FINISHED);
            && (Early(hs) <==> finished.Some? && finished.value.falseStart && !dtls && !hs.session)
            && (hs.inFalseStart ==> Early(hs))
  {
    AfterTold(dtls, offersSession, calls);
  }

  /** Where a call of ssl3_connect that succeeds leaves the handshake. */
  predicate SucceedsAt(hs: Hs, hs': Hs) {
    || (hs'.state == SSL_ST_OK && hs'.inFalseStart == hs.inFalseStart)
    || (hs'.state == CR_SESSION_TICKET && hs'.inFalseStart && !hs.inFalseStart)
  }

  lemma TurnReturns(hs: Hs, t: Turn)
    requires !hs.dead && Shape(hs) && EarlyOk(hs)
    ensures var o := Step(hs, t);
            && (o.Return? && o.ok ==> SucceedsAt(hs, o.hs))
            && (o.Return? && !o.ok ==> o.hs.inFalseStart == hs.inFalseStart)
            && (o.Again? ==> o.hs.inFalseStart == hs.inFalseStart)
  {
    if !Stops(hs, t) {
      if hs.state == FALSE_START { EarlyReturns(hs, t); } else { GoOk(hs, t); }
    }
  }

  lemma EarlyReturns(hs: Hs, t: Turn)
    requires !hs.dead && hs.state == FALSE_START
    ensures Step(hs, t) == Return(hs.(state := CR_SESSION_TICKET, inFalseStart := true), true)
  {
  }

  /** A call succeeds at the end of the handshake, or at False Start; and False Start lets the call that comes to it
      succeed, at once. */
  lemma {:induction false} CallSucceedsAt(hs: Hs, ts: seq<Turn>)
    requires !hs.dead && Sound(hs)
    ensures var (hs', ok) := Connect(hs, ts);
            !hs'.dead ==> if ok then SucceedsAt(hs, hs') else hs'.inFalseStart == hs.inFalseStart
    decreases |ts|
  {
    if ts != [] {
      TurnReturns(hs, ts[0]);
      TurnSound(hs, ts[0]);
      var o := Step(hs, ts[0]);
      if o.Again? {
        if o.hs.dead { DeadCall(o.hs, ts[1..]); } else { CallSucceedsAt(o.hs, ts[1..]); }
      }
    }
  }

  lemma {:induction false} DeadCall(hs: Hs, ts: seq<Turn>)
    requires hs.dead
    ensures Connect(hs, ts).0.dead && !Connect(hs, ts).1
  {
  }

  /** Once the handshake is over every call succeeds and changes nothing. */
  lemma OverSucceeds(hs: Hs, t: Turn, more: seq<Turn>)
    requires !hs.dead && hs.state == SSL_ST_OK
    ensures Connect(hs, [t] + more) == (hs, true)
  {
  }

  // ----- blocking and failing -----

  /** A message that is waited for again is read as it would have been before. */
  predicate SameLive(o: Outcome, p: Outcome) { o.hs.dead || p == o }

  lemma GetHelloVerifyAgain(hs: Hs, t: Turn)
    requires hs.state == CR_HELLO_VERIFY && !hs.reuse
    ensures SameLive(GetHelloVerify(hs, t), GetHelloVerify(hs.(current := None), t))
  {
  }

  lemma GetServerHelloAgain(hs: Hs, t: Turn)
    requires hs.state == CR_SRVR_HELLO && !hs.reuse
    ensures SameLive(GetServerHello(hs, t), GetServerHello(hs.(current := None), t))
  {
  }

  lemma GetServerCertificateAgain(hs: Hs, t: Turn)
    requires hs.state == CR_CERT && !hs.reuse && hs.hello.certAuth
    ensures SameLive(GetServerCertificate(hs, t), GetServerCertificate(hs.(current := None), t))
  {
  }

  lemma GetCertStatusAgain(hs: Hs, t: Turn)
    requires hs.state == CR_CERT_STATUS && !hs.reuse && hs.hello.statusExpected
    ensures SameLive(GetCertStatus(hs, t), GetCertStatus(hs.(current := None), t))
  {
  }

  lemma GetServerKeyExchangeAgain(hs: Hs, t: Turn)
    requires hs.state == CR_KEY_EXCH && !hs.reuse
    ensures SameLive(GetServerKeyExchange(hs, t), GetServerKeyExchange(hs.(current := None), t))
  {
  }

  lemma GetCertificateRequestAgain(hs: Hs, t: Turn)
    requires hs.state == CR_CERT_REQ && !hs.reuse && hs.hello.certAuth
    ensures SameLive(GetCertificateRequest(hs, t), GetCertificateRequest(hs.(current := None), t))
  {
  }

  lemma GetServerHelloDoneAgain(hs: Hs, t: Turn)
    requires hs.state == CR_SRVR_DONE && !hs.reuse
    ensures SameLive(GetServerHelloDone(hs, t), GetServerHelloDone(hs.(current := None), t))
  {
  }

  lemma GetNewSessionTicketAgain(hs: Hs, t: Turn)
    requires hs.state == CR_SESSION_TICKET && !hs.reuse && hs.hello.ticketExpected
    ensures SameLive(GetNewSessionTicket(hs, t), GetNewSessionTicket(hs.(current := None), t))
  {
  }

  lemma GetFinishedAgain(hs: Hs, t: Turn)
    requires hs.state == CR_FINISHED && !hs.reuse
    ensures SameLive(GetFinished(hs, t), GetFinished(hs.(current := None), t))
  {
  }

  lemma ReadAgain(hs: Hs, t: Turn)
    requires Reads(hs.state) && !hs.reuse && MakesCall(hs.state, hs.session, hs.hello, hs.certRequest, t)
    ensures SameLive(Go(hs, t), Go(hs.(current := None), t))
  {
    var s := hs.state;
    if s == CR_HELLO_VERIFY { GetHelloVerifyAgain(hs, t); }
    else if s == CR_SRVR_HELLO { GetServerHelloAgain(hs, t); }
    else if s == CR_CERT { GetServerCertificateAgain(hs, t); }
    else if s == CR_CERT_STATUS { GetCertStatusAgain(hs, t); }
    else if s == CR_KEY_EXCH { GetServerKeyExchangeAgain(hs, t); }
    else if s == CR_CERT_REQ { GetCertificateRequestAgain(hs, t); }
    else if s == CR_SRVR_DONE { GetServerHelloDoneAgain(hs, t); }
    else if s == CR_SESSION_TICKET { GetNewSessionTicketAgain(hs, t); }
    else if s == CR_FINISHED { GetFinishedAgain(hs, t); }
  }

  lemma SignAgain(hs: Hs, t: Turn)
    requires Shape(hs) && Verifies(hs.state)
    ensures Go(hs.(state := CW_CERT_VRFY_B), t) == Go(hs, t)
  {
  }

  lemma StopsAgain(hs: Hs, hs': Hs, t: Turn)
    requires !hs'.dead && hs'.session == hs.session && hs'.hello == hs.hello && hs'.certRequest == hs.certRequest
    requires hs'.state == hs.state || (Verifies(hs.state) && Verifies(hs'.state))
    requires !Stops(hs, t)
    ensures !Stops(hs', t)
  {
  }

  /** What a state asks for when it blocks is what it asks for the next time. */
  lemma AsksAgain(hs: Hs, blocked: Turn, t: Turn)
    requires !hs.dead && Stops(hs, blocked) && Reads(hs.state)
    ensures MakesCall(hs.state, hs.session, hs.hello, hs.certRequest, t)
  {
  }

  /** A turn that is blocked ends nothing and leaves no trace: what succeeds later does what it would have done at
      once. */
  lemma BlockingIsInvisible(hs: Hs, blocked: Turn, t: Turn)
    requires !hs.dead && Shape(hs) && Stops(hs, blocked) && blocked.result != Fatal && !Stops(hs, t)
    ensures var hs' := Step(hs, blocked).hs;
            && !hs'.dead && !Stops(hs', t) && (!Go(hs, t).hs.dead ==> Step(hs', t) == Step(hs, t))
  {
    var hs' := Stop(hs, blocked);
    StopsAgain(hs, hs', t);
    if Verifies(hs.state) && blocked.result == SignLater {
      SignAgain(hs, t);
    } else if Reads(hs.state) && !hs.reuse {
      AsksAgain(hs, blocked, t);
      ReadAgain(hs, t);
    }
  }

  /** The states that have nothing to do: messages that the ServerHello did not announce or the server did not ask for,
      and the end of a resumed handshake, where there is no session to copy. */
  predicate NothingToDo(hs: Hs, t: Turn) {
    var s := hs.state;
    || s == SSL_ST_INIT
    || ((s == CR_CERT || s == VERIFY_SERVER_CERT || s == CR_CERT_REQ) && !hs.hello.certAuth)
    || (s == CR_CERT_STATUS && !hs.hello.statusExpected)
    || (s == CW_CERT && !hs.certRequest) || (Verifies(s) && !(hs.certRequest && t.hasCert))
    || (s == CW_NEXT_PROTO && !hs.hello.nextProto) || (s == CW_CHANNEL_ID && !hs.hello.channelId)
    || (s == CR_SESSION_TICKET && !hs.hello.ticketExpected) || (s == FINISH_HANDSHAKE && hs.session)
  }

  /** They are passed whatever happens, without a message, and every other state fails if its call fails, but for the
      two that make none. */
  lemma NothingToDoCannotFail(hs: Hs, t: Turn)
    requires !hs.dead && hs.state <= SSL_ST_OK
    ensures NothingToDo(hs, t) ==> !Stops(hs, t)
    ensures !NothingToDo(hs, t) && t.result == Fatal && hs.state != FALSE_START && hs.state != SSL_ST_OK ==>
              Step(hs, t).hs.dead
  {
  }

  lemma NothingToDoMovesOn(hs: Hs, t: Turn)
    requires !hs.dead && NothingToDo(hs, t)
    ensures var o := Go(hs, t);
            o.Again? && o.hs.state > hs.state && o.hs == hs.(state := o.hs.state, current := o.hs.current)
  {
  }

  /** The call that finishes the handshake succeeds. */
  lemma FinishingSucceeds(hs: Hs, t: Turn, next: Turn, more: seq<Turn>)
    requires !hs.dead && hs.state == FINISH_HANDSHAKE && (t.result == Ok || hs.session)
    ensures var (hs', ok) := Connect(hs, [t, next] + more); ok && hs'.state == SSL_ST_OK && !hs'.dead
  {
    var hs1 := hs.(current := None, state := SSL_ST_OK);
    assert Step(hs, t) == Again(hs1);
    assert Step(hs1, next) == Return(hs1, true);
    TwoTurns(hs, t, next, more, hs1, hs1);
  }

  /** ssl3_connect returns success before the handshake is over exactly when it comes to False Start, which is as often
      as False Start is allowed: in a full handshake over TLS for which it was enabled when the client's Finished was
      sent, once. */
  lemma SucceedsEarlyIff(dtls: bool, offersSession: bool, calls: seq<seq<Turn>>, ts: seq<Turn>)
    requires !Connect(After(dtls, offersSession, calls), ts).0.dead && !After(dtls, offersSession, calls).dead
    ensures var hs := After(dtls, offersSession, calls);
            var (hs', ok) := Connect(hs, ts);
            var finished := Last(History(dtls, offersSession, calls) + CallRan(hs, ts), CW_FINISHED);
            && (ok && hs'.state != SSL_ST_OK <==> !hs.inFalseStart && hs'.inFalseStart)
            && (hs'.inFalseStart ==> finished.Some? && finished.value.falseStart && !dtls && !hs'.session)
  {
    var hs, h := After(dtls, offersSession, calls), History(dtls, offersSession, calls);
    AfterTold(dtls, offersSession, calls);
    CallSucceedsAt(hs, ts);
    CallKeepsTold(hs, ts, h, dtls, offersSession);
  }

  lemma TwoTurns(hs: Hs, t: Turn, next: Turn, more: seq<Turn>, hs1: Hs, hs2: Hs)
    requires Step(hs, t) == Again(hs1) && Step(hs1, next) == Return(hs2, true)
    ensures Connect(hs, [t, next] + more) == (hs2, true)
  {
    assert ([t, next] + more)[1..] == [next] + more;
  }

  lemma FlushedEarly(hs: Hs, t: Turn)
    requires !hs.dead && hs.state == CW_FLUSH && hs.nextState == FALSE_START && t.result == Ok
    ensures Step(hs, t) == Again(hs.(state := FALSE_START))
  {
  }

  /** When False Start has been decided on, the call that flushes the client's flight comes to it and succeeds. */
  lemma FalseStartHappens(dtls: bool, offersSession: bool, calls: seq<seq<Turn>>, t: Turn, next: Turn, more: seq<Turn>)
    requires var hs := After(dtls, offersSession, calls); !hs.dead && hs.state == CW_FLUSH && t.result == Ok
    requires var finished := Last(History(dtls, offersSession, calls), CW_FINISHED);
             && finished.Some? && finished.value.falseStart && !dtls && !After(dtls, offersSession, calls).session
    ensures var (hs', ok) := Connect(After(dtls, offersSession, calls), [t, next] + more);
            ok && hs'.inFalseStart && hs'.state == CR_SESSION_TICKET && !hs'.dead
  {
    var hs := After(dtls, offersSession, calls);
    FalseStartIffAllowed(dtls, offersSession, calls);
    AfterTold(dtls, offersSession, calls);
    FlushedEarly(hs, t);
    EarlyReturns(hs.(state := FALSE_START), next);
    TwoTurns(hs, t, next, more, hs.(state := FALSE_START), hs.(state := CR_SESSION_TICKET, inFalseStart := true));
  }
}
