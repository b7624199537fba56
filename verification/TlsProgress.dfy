/** Progress of the client handshake (handshake_client.c:190-511): exactly when a turn ends the connection, and that the
    handshake completes if and only if none does. */
module TlsProgress {
  import opened TlsClient

  // ----- what ends the connection -----

  /** The types of message that a state goes on with. */
  predicate Acceptable(s: State, hello: Hello, ty: MsgType) {
    if s == CR_SRVR_HELLO then ty == MT_SERVER_HELLO
    else if s == CR_CERT then ty == MT_CERTIFICATE
    else if s == CR_KEY_EXCH then ty == MT_SERVER_KEY_EXCHANGE || !hello.needsKeyExchange
    else if s == CR_CERT_REQ then ty == MT_CERTIFICATE_REQUEST || ty == MT_SERVER_HELLO_DONE
    else if s == CR_SRVR_DONE then ty == MT_SERVER_HELLO_DONE
    else if s == CR_SESSION_TICKET then ty == MT_NEW_SESSION_TICKET
    else if s == CR_FINISHED then ty == MT_FINISHED
    else true
  }

  predicate Asks(hs: Hs, t: Turn) {
    Reads(hs.state) && MakesCall(hs.state, hs.session, hs.hello, hs.certRequest, t)
  }

  /** The message is not one to go on with, or the channel ID hashes of a full handshake cannot be recorded. */
  predicate Unexpected(hs: Hs, t: Turn) {
    || (Asks(hs, t) && !Acceptable(hs.state, hs.hello, Got(hs, t)))
    || (hs.state == CW_FINISHED && !hs.session && !t.hashesOk)
  }

  /** The message that a state is there for. */
  function Wanted(s: State): MsgType {
    if s == CR_HELLO_VERIFY then MT_HELLO_VERIFY_REQUEST
    else if s == CR_SRVR_HELLO then MT_SERVER_HELLO
    else if s == CR_CERT then MT_CERTIFICATE
    else if s == CR_CERT_STATUS then MT_CERTIFICATE_STATUS
    else if s == CR_KEY_EXCH then MT_SERVER_KEY_EXCHANGE
    else if s == CR_CERT_REQ then MT_CERTIFICATE_REQUEST
    else if s == CR_SRVR_DONE then MT_SERVER_HELLO_DONE
    else if s == CR_SESSION_TICKET then MT_NEW_SESSION_TICKET
    else MT_FINISHED
  }

  /** The session is kept as long as it is usable, and resumed if the ServerHello says so. */
  function SessionAfter(hs: Hs, t: Turn): bool {
    if hs.state == CW_CLNT_HELLO then hs.session && t.keepsSession
    else if hs.state == CR_SRVR_HELLO then hs.session && t.hello.resumes
    else hs.session
  }

  /** What a turn comes to: it ends the connection exactly if something unexpected happens; otherwise it decides the
      session, and pushes no message back if the wanted one came. */
  predicate Outcomes(hs: Hs, t: Turn, hs': Hs) {
    && (hs'.dead <==> Unexpected(hs, t))
    && (!hs'.dead ==> hs'.session == SessionAfter(hs, t))
    && (!hs'.dead && !hs.reuse && t.msg == Wanted(hs.state) ==> !hs'.reuse)
  }

  // One small lemma a step.

  lemma GetHelloVerifyOutcomes(hs: Hs, t: Turn)
    requires !hs.dead && hs.state == CR_HELLO_VERIFY
    ensures Outcomes(hs, t, GetHelloVerify(hs, t).hs)
  {
  }

  lemma GetServerHelloOutcomes(hs: Hs, t: Turn)
    requires !hs.dead && hs.state == CR_SRVR_HELLO
    ensures Outcomes(hs, t, GetServerHello(hs, t).hs)
  {
  }

  lemma GetServerCertificateOutcomes(hs: Hs, t: Turn)
    requires !hs.dead && hs.state == CR_CERT
    ensures Outcomes(hs, t, GetServerCertificate(hs, t).hs)
  {
  }

  lemma GetCertStatusOutcomes(hs: Hs, t: Turn)
    requires !hs.dead && hs.state == CR_CERT_STATUS
    ensures Outcomes(hs, t, GetCertStatus(hs, t).hs)
  {
  }

  lemma GetServerKeyExchangeOutcomes(hs: Hs, t: Turn)
    requires !hs.dead && hs.state == CR_KEY_EXCH
    ensures Outcomes(hs, t, GetServerKeyExchange(hs, t).hs)
  {
  }

  lemma GetCertificateRequestOutcomes(hs: Hs, t: Turn)
    requires !hs.dead && hs.state == CR_CERT_REQ
    ensures Outcomes(hs, t, GetCertificateRequest(hs, t).hs)
  {
  }

  lemma GetServerHelloDoneOutcomes(hs: Hs, t: Turn)
    requires !hs.dead && hs.state == CR_SRVR_DONE
    ensures Outcomes(hs, t, GetServerHelloDone(hs, t).hs)
  {
  }

  lemma GetNewSessionTicketOutcomes(hs: Hs, t: Turn)
    requires !hs.dead && hs.state == CR_SESSION_TICKET
    ensures Outcomes(hs, t, GetNewSessionTicket(hs, t).hs)
  {
  }

  lemma GetFinishedOutcomes(hs: Hs, t: Turn)
    requires !hs.dead && hs.state == CR_FINISHED
    ensures Outcomes(hs, t, GetFinished(hs, t).hs)
  {
  }

  lemma SendClientHelloOutcomes(hs: Hs, t: Turn)
    requires !hs.dead && hs.state == CW_CLNT_HELLO
    ensures Outcomes(hs, t, SendClientHello(hs, t).hs)
  {
  }

  lemma VerifyServerCertOutcomes(hs: Hs, t: Turn)
    requires !hs.dead && hs.state == VERIFY_SERVER_CERT
    ensures Outcomes(hs, t, VerifyServerCert(hs).hs)
  {
  }

  lemma SendClientCertificateOutcomes(hs: Hs, t: Turn)
    requires !hs.dead && hs.state == CW_CERT
    ensures Outcomes(hs, t, SendClientCertificate(hs).hs)
  {
  }

  lemma SendClientKeyExchangeOutcomes(hs: Hs, t: Turn)
    requires !hs.dead && hs.state == CW_KEY_EXCH
    ensures Outcomes(hs, t, SendClientKeyExchange(hs).hs)
  {
  }

  lemma SendCertVerifyOutcomes(hs: Hs, t: Turn)
    requires !hs.dead && CW_CERT_VRFY_A <= hs.state <= CW_CERT_VRFY_B
    ensures Outcomes(hs, t, SendCertVerify(hs, t).hs)
  {
  }

  lemma SendChangeCipherSpecOutcomes(hs: Hs, t: Turn)
    requires !hs.dead && hs.state == CW_CHANGE
    ensures Outcomes(hs, t, SendChangeCipherSpec(hs).hs)
  {
  }

  lemma SendNextProtoOutcomes(hs: Hs, t: Turn)
    requires !hs.dead && hs.state == CW_NEXT_PROTO
    ensures Outcomes(hs, t, SendNextProto(hs).hs)
  {
  }

  lemma SendChannelIdOutcomes(hs: Hs, t: Turn)
    requires !hs.dead && hs.state == CW_CHANNEL_ID
    ensures Outcomes(hs, t, SendChannelId(hs).hs)
  {
  }

  lemma SendFinishedOutcomes(hs: Hs, t: Turn)
    requires !hs.dead && hs.state == CW_FINISHED
    ensures Outcomes(hs, t, SendFinished(hs, t).hs)
  {
  }

  lemma StartEarlyOutcomes(hs: Hs, t: Turn)
    requires !hs.dead && hs.state == FALSE_START
    ensures Outcomes(hs, t, StartEarly(hs).hs)
  {
  }

  lemma ReadChangeCipherSpecOutcomes(hs: Hs, t: Turn)
    requires !hs.dead && hs.state == CR_CHANGE
    ensures Outcomes(hs, t, ReadChangeCipherSpec(hs).hs)
  {
  }

  /** A turn whose call succeeds ends the connection if and only if something unexpected happens. */
  lemma GoOutcomes(hs: Hs, t: Turn)
    requires !hs.dead && hs.state <= SSL_ST_OK
    ensures Outcomes(hs, t, Go(hs, t).hs)
  {
    var s := hs.state;
    if s == CR_HELLO_VERIFY { GetHelloVerifyOutcomes(hs, t); }
    else if s == CR_SRVR_HELLO { GetServerHelloOutcomes(hs, t); }
    else if s == CR_CERT { GetServerCertificateOutcomes(hs, t); }
    else if s == CR_CERT_STATUS { GetCertStatusOutcomes(hs, t); }
    else if s == CR_KEY_EXCH { GetServerKeyExchangeOutcomes(hs, t); }
    else if s == CR_CERT_REQ { GetCertificateRequestOutcomes(hs, t); }
    else if s == CR_SRVR_DONE { GetServerHelloDoneOutcomes(hs, t); }
    else if s == CR_SESSION_TICKET { GetNewSessionTicketOutcomes(hs, t); }
    else if s == CR_FINISHED { GetFinishedOutcomes(hs, t); }
    else if s == CW_CLNT_HELLO { SendClientHelloOutcomes(hs, t); }
    else if s == VERIFY_SERVER_CERT { VerifyServerCertOutcomes(hs, t); }
    else if s == CW_CERT { SendClientCertificateOutcomes(hs, t); }
    else if s == CW_KEY_EXCH { SendClientKeyExchangeOutcomes(hs, t); }
    else if s == CW_CERT_VRFY_A || s == CW_CERT_VRFY_B { SendCertVerifyOutcomes(hs, t); }
    else if s == CW_CHANGE { SendChangeCipherSpecOutcomes(hs, t); }
    else if s == CW_NEXT_PROTO { SendNextProtoOutcomes(hs, t); }
    else if s == CW_CHANNEL_ID { SendChannelIdOutcomes(hs, t); }
    else if s == CW_FINISHED { SendFinishedOutcomes(hs, t); }
    else if s == FALSE_START { StartEarlyOutcomes(hs, t); }
    else if s == CR_CHANGE { ReadChangeCipherSpecOutcomes(hs, t); }
  }

  lemma DiesIffUnexpected(hs: Hs, t: Turn)
    requires Shape(hs) && !hs.dead && t.result == Ok
    ensures Step(hs, t).hs.dead <==> Unexpected(hs, t)
  {
    GoOutcomes(hs, t);
  }

  // ----- completion -----

  /** Turn after turn, whether or not ssl3_connect returns in between. */
  function Turns(hs: Hs, ts: seq<Turn>): Hs
    decreases |ts|
  {
    if ts == [] then hs else Turns(Step(hs, ts[0]).hs, ts[1..])
  }

  predicate NoneUnexpected(hs: Hs, ts: seq<Turn>)
    decreases |ts|
  {
    ts == [] || (!Unexpected(hs, ts[0]) && NoneUnexpected(Step(hs, ts[0]).hs, ts[1..]))
  }

  lemma OnlyDoneIsZero(hs: Hs)
    requires Shape(hs) && Rank(hs) == 0
    ensures hs.state == SSL_ST_OK
  {
  }

  lemma {:induction false} DeadStays(hs: Hs, ts: seq<Turn>)
    requires hs.dead
    ensures Turns(hs, ts).dead
    decreases |ts|
  {
    if ts != [] { DeadStays(Step(hs, ts[0]).hs, ts[1..]); }
  }

  /** If every call succeeds, and there are at least Rank turns, the handshake is complete at their end if and only if
      nothing unexpected happened; otherwise the connection is dead. */
  lemma {:induction false} Completes(hs: Hs, ts: seq<Turn>)
    requires Inv(hs) && !hs.dead && |ts| >= Rank(hs) && forall k :: 0 <= k < |ts| ==> ts[k].result == Ok
    ensures if NoneUnexpected(hs, ts) then !Turns(hs, ts).dead && Turns(hs, ts).state == SSL_ST_OK
            else Turns(hs, ts).dead
    decreases |ts|
  {
    if ts == [] {
      OnlyDoneIsZero(hs);
    } else {
      var hs' := Step(hs, ts[0]).hs;
      DiesIffUnexpected(hs, ts[0]);
      if hs'.dead {
        DeadStays(hs', ts[1..]);
      } else {
        LiveStep(hs, ts[0]);
        if hs.state == SSL_ST_OK { DoneStays(hs, ts[0]); }
        Completes(hs', ts[1..]);
      }
    }
  }

  lemma DoneStays(hs: Hs, t: Turn)
    requires !hs.dead && hs.state == SSL_ST_OK
    ensures Step(hs, t).hs == hs
  {
  }

  lemma LiveStep(hs: Hs, t: Turn)
    requires Inv(hs) && !hs.dead && t.result == Ok && !Step(hs, t).hs.dead
    ensures Inv(Step(hs, t).hs) && (hs.state != SSL_ST_OK ==> Rank(Step(hs, t).hs) < Rank(hs))
  {
    GoKeeps(hs, t);
  }

  // ----- runs that complete -----

  /** What the environment does in a run that is to complete: everything succeeds and the wanted message comes.  The
      rest is free. */
  function Obliging(hs: Hs, like: Turn): Turn { like.(result := Ok, msg := Wanted(hs.state), hashesOk := true) }

  lemma ObligingExpected(hs: Hs, like: Turn)
    requires !hs.reuse
    ensures !Unexpected(hs, Obliging(hs, like))
  {
  }

  /** The session will be resumed if and only if `goal` holds. */
  predicate Heading(hs: Hs, like: Turn, goal: bool) {
    if hs.state <= CW_CLNT_HELLO then goal == (hs.session && like.keepsSession && like.hello.resumes)
    else if BeforeServerHello(hs) then goal == (hs.session && like.hello.resumes) && (hs.session ==> like.keepsSession)
    else goal == hs.session
  }

  lemma RankBefore(hs: Hs)
    requires Shape(hs)
    ensures Rank(hs) >= 20 <==> BeforeServerHello(hs)
  {
  }

  lemma HeadingEarly(hs: Hs, like: Turn, goal: bool)
    requires Shape(hs) && !hs.dead && !hs.reuse && Heading(hs, like, goal) && BeforeServerHello(hs)
    ensures Heading(Go(hs, Obliging(hs, like)).hs, like, goal)
  {
  }

  lemma HeadingLater(hs: Hs, hs': Hs, like: Turn, goal: bool)
    requires Shape(hs) && Shape(hs') && Heading(hs, like, goal) && !BeforeServerHello(hs)
    requires Rank(hs') < Rank(hs) && hs'.session == hs.session
    ensures Heading(hs', like, goal)
  {
    RankBefore(hs);
    RankBefore(hs');
  }

  /** An obliging turn leads on. */
  lemma ObligingStep(hs: Hs, like: Turn, goal: bool)
    requires Inv(hs) && !hs.dead && !hs.reuse && hs.state != SSL_ST_OK && Heading(hs, like, goal)
    ensures var hs' := Step(hs, Obliging(hs, like)).hs;
            Inv(hs') && !hs'.dead && !hs'.reuse && Rank(hs') < Rank(hs) && Heading(hs', like, goal)
  {
    var t := Obliging(hs, like);
    ObligingExpected(hs, like);
    GoOutcomes(hs, t);
    LiveStep(hs, t);
    if BeforeServerHello(hs) {
      HeadingEarly(hs, like, goal);
    } else {
      HeadingLater(hs, Step(hs, t).hs, like, goal);
    }
  }

  /** From every live state with nothing pushed back, the handshake can still complete. */
  lemma {:induction false} CanComplete(hs: Hs, like: Turn, goal: bool) returns (ts: seq<Turn>)
    requires Inv(hs) && !hs.dead && !hs.reuse && Heading(hs, like, goal)
    ensures var hs' := Turns(hs, ts); !hs'.dead && hs'.state == SSL_ST_OK && hs'.session == goal
    decreases Rank(hs)
  {
    if hs.state == SSL_ST_OK {
      ts := [];
    } else {
      var t := Obliging(hs, like);
      ObligingStep(hs, like, goal);
      var more := CanComplete(Step(hs, t).hs, like, goal);
      ts := [t] + more;
      assert ts[1..] == more;
    }
  }

  /** One turn a call. */
  function Singly(ts: seq<Turn>): seq<seq<Turn>> { if ts == [] then [] else [[ts[0]]] + Singly(ts[1..]) }

  lemma {:induction false} SinglyRuns(hs: Hs, ts: seq<Turn>)
    ensures Run(hs, Singly(ts)) == Turns(hs, ts)
    decreases |ts|
  {
    if ts != [] {
      OneTurn(hs, ts[0]);
      SinglyRuns(Step(hs, ts[0]).hs, ts[1..]);
      assert Singly(ts)[1..] == Singly(ts[1..]);
    }
  }

  lemma OneTurn(hs: Hs, t: Turn)
    ensures Connect(hs, [t]).0 == Step(hs, t).hs
  {
  }

  /** Full and resumed handshakes complete, over TLS and over DTLS, whatever the ServerHello asks for and whichever
      choices the client makes: there is a run to the end, and in it the session is resumed exactly if it was offered
      and usable and the server took it up. */
  lemma HandshakesComplete(dtls: bool, offersSession: bool, like: Turn) returns (calls: seq<seq<Turn>>)
    ensures var hs := After(dtls, offersSession, calls);
            && !hs.dead && hs.state == SSL_ST_OK
            && hs.session == (offersSession && like.keepsSession && like.hello.resumes)
  {
    var start := Start(dtls, offersSession);
    StartInv(dtls, offersSession);
    var ts := CanComplete(start, like, offersSession && like.keepsSession && like.hello.resumes);
    SinglyRuns(start, ts);
    calls := Singly(ts);
  }
}
