/** The loop of ssl3_connect (handshake_client.c:190-511) over the fields that it updates in place, proved to follow the
    machine of TlsClient. */
module TlsConnect {
  import opened Wrappers
  import opened TlsChoices
  import opened TlsClient
  import opened TlsProgress

  class ClientHandshake {
    const dtls: bool
    var state: State
    var nextState: State
    var session: bool                   // ssl->session != NULL
    var sendCookie: bool
    var hello: Hello
    var certRequest: bool
    var inFalseStart: bool
    var reuse: bool                     // reuse_message
    var current: Option<MsgType>        // message_type, while there is a current message
    var flight: seq<Event>              // outgoing_messages
    ghost var trace: seq<Event>
    ghost var past: Past
    var dead: bool                      // a fatal error has ended the connection

    ghost function Abs(): Hs
      reads this
    {
      Hs(state, nextState, dtls, session, sendCookie, hello, certRequest, inFalseStart, reuse, current, flight, trace,
         past, dead)
    }

    /** What has happened and what is queued is what the state says, and who has started early might, unless the
        connection is dead. */
    ghost predicate Valid()
      reads this
    {
      Sound(Abs())
    }

    constructor (isDtls: bool, offersSession: bool)
      ensures Valid() && Abs() == Start(isDtls, offersSession)
    {
      dtls, state, nextState, session, sendCookie := isDtls, SSL_ST_INIT, SSL_ST_INIT, offersSession, false;
      hello, certRequest, inFalseStart, reuse, current, flight := NO_HELLO, false, false, false, None, [];
      trace, past, dead := [], Past(false, false, false), false;
      new;
      StartInv(isDtls, offersSession);
    }

    /** The type of the message that ssl_get_message gives. */
    function PeekType(t: Turn): MsgType
      reads this
    {
      if reuse && current.Some? then current.value else t.msg
    }

    /** ssl_get_message, once the message is there. */
    method GetMessage(t: Turn)
      modifies this`reuse, this`current
      ensures Abs() == Taken(old(Abs()), t)
    {
      reuse, current := false, Some(PeekType(t));
    }

    /** add_message and add_change_cipher_spec */
    method Queue(e: Event)
      modifies this`flight, this`trace
      ensures Abs() == Send(old(Abs()), e)
    {
      flight := flight + [e];
      trace := trace + [e];
    }

    ghost method Note(e: Event)
      modifies this`trace
      ensures Abs() == Log(old(Abs()), e)
    {
      trace := trace + [e];
    }

    /** ssl3_send_client_hello */
    method DoSendClientHello(t: Turn)
      modifies this
      ensures SendClientHello(old(Abs()), t) == Again(Abs())
    {
      session := session && t.keepsSession;
      Queue(SentHello);
      nextState := if !dtls || sendCookie then CR_SRVR_HELLO else CR_HELLO_VERIFY;
      state := CW_FLUSH;
    }

    /** dtls1_get_hello_verify */
    method DoGetHelloVerify(t: Turn)
      modifies this
      ensures GetHelloVerify(old(Abs()), t) == Again(Abs())
    {
      var ty := PeekType(t);
      GetMessage(t);
      if ty != MT_HELLO_VERIFY_REQUEST {
        sendCookie, reuse := false, true;
        state := CR_SRVR_HELLO;
      } else {
        Note(ReadHelloVerify);
        sendCookie := true;
        flight := [];
        state := CW_CLNT_HELLO;
      }
    }

    /** ssl3_get_server_hello */
    method DoGetServerHello(t: Turn) returns (ok: bool)
      modifies this
      ensures GetServerHello(old(Abs()), t) == if ok then Again(Abs()) else Return(Abs(), false)
    {
      var ty := PeekType(t);
      if ty != MT_SERVER_HELLO {
        dead := true;
        return false;
      }
      GetMessage(t);
      Note(ReadServerHello);
      session, hello := session && t.hello.resumes, t.hello;
      state := if session then CR_SESSION_TICKET else CR_CERT;
      return true;
    }

    /** ssl3_get_server_certificate */
    method DoGetServerCertificate(t: Turn) returns (ok: bool)
      modifies this
      ensures GetServerCertificate(old(Abs()), t) == if ok then Again(Abs()) else Return(Abs(), false)
    {
      if hello.certAuth {
        var ty := PeekType(t);
        if ty != MT_CERTIFICATE {
          dead := true;
          return false;
        }
        GetMessage(t);
        Note(ReadCert);
      }
      state := CR_CERT_STATUS;
      return true;
    }

    /** ssl3_get_cert_status */
    method DoGetCertStatus(t: Turn)
      modifies this
      ensures GetCertStatus(old(Abs()), t) == Again(Abs())
    {
      if hello.statusExpected {
        var ty := PeekType(t);
        GetMessage(t);
        if ty == MT_CERTIFICATE_STATUS {
          Note(ReadCertStatus);
          past := past.(statusRead := true);
        } else {
          reuse := true;
        }
      }
      state := VERIFY_SERVER_CERT;
    }

    /** ssl3_verify_server_cert */
    method DoVerifyServerCert()
      modifies this
      ensures VerifyServerCert(old(Abs())) == Again(Abs())
    {
      if hello.certAuth {
        Note(VerifiedCert);
      }
      state := CR_KEY_EXCH;
    }

    /** ssl3_get_server_key_exchange */
    method DoGetServerKeyExchange(t: Turn) returns (ok: bool)
      modifies this
      ensures GetServerKeyExchange(old(Abs()), t) == if ok then Again(Abs()) else Return(Abs(), false)
    {
      var ty := PeekType(t);
      if ty != MT_SERVER_KEY_EXCHANGE && hello.needsKeyExchange {
        dead := true;
        return false;
      }
      GetMessage(t);
      if ty == MT_SERVER_KEY_EXCHANGE {
        Note(ReadKeyExchange);
        past := past.(exchanged := true);
      } else {
        reuse := true;
      }
      state := CR_CERT_REQ;
      return true;
    }

    /** ssl3_get_certificate_request */
    method DoGetCertificateRequest(t: Turn) returns (ok: bool)
      modifies this
      ensures GetCertificateRequest(old(Abs()), t) == if ok then Again(Abs()) else Return(Abs(), false)
    {
      if hello.certAuth {
        var ty := PeekType(t);
        if ty != MT_SERVER_HELLO_DONE && ty != MT_CERTIFICATE_REQUEST {
          dead := true;
          return false;
        }
        GetMessage(t);
        if ty == MT_SERVER_HELLO_DONE {
          reuse := true;
        } else {
          Note(ReadCertRequest);
          certRequest := true;
        }
      }
      state := CR_SRVR_DONE;
      return true;
    }

    /** ssl3_get_server_hello_done, and received_flight */
    method DoGetServerHelloDone(t: Turn) returns (ok: bool)
      modifies this
      ensures GetServerHelloDone(old(Abs()), t) == if ok then Again(Abs()) else Return(Abs(), false)
    {
      var ty := PeekType(t);
      if ty != MT_SERVER_HELLO_DONE {
        dead := true;
        return false;
      }
      GetMessage(t);
      Note(ReadServerDone);
      flight := [];
      state := CW_CERT;
      return true;
    }

    /** ssl3_send_client_certificate */
    method DoSendClientCertificate()
      modifies this
      ensures SendClientCertificate(old(Abs())) == Again(Abs())
    {
      if certRequest {
        Queue(SentCert);
      }
      state := CW_KEY_EXCH;
    }

    /** ssl3_send_client_key_exchange */
    method DoSendClientKeyExchange()
      modifies this
      ensures SendClientKeyExchange(old(Abs())) == Again(Abs())
    {
      Queue(SentKeyExchange);
      state := CW_CERT_VRFY_A;
    }

    /** ssl3_send_cert_verify */
    method DoSendCertVerify(t: Turn)
      modifies this
      ensures SendCertVerify(old(Abs()), t) == Again(Abs())
    {
      if certRequest && t.hasCert {
        Queue(SentCertVerify);
        past := past.(certVerify := true);
      }
      state := CW_CHANGE;
    }

    /** add_change_cipher_spec and tls1_change_cipher_state */
    method DoSendChangeCipherSpec()
      modifies this
      ensures SendChangeCipherSpec(old(Abs())) == Again(Abs())
    {
      Queue(SentCcs);
      state := CW_NEXT_PROTO;
    }

    /** ssl3_send_next_proto */
    method DoSendNextProto()
      modifies this
      ensures SendNextProto(old(Abs())) == Again(Abs())
    {
      if hello.nextProto {
        Queue(SentNextProto);
      }
      state := CW_CHANNEL_ID;
    }

    /** ssl3_send_channel_id */
    method DoSendChannelId()
      modifies this
      ensures SendChannelId(old(Abs())) == Again(Abs())
    {
      if hello.channelId {
        Queue(SentChannelId);
      }
      state := CW_FINISHED;
    }

    /** ssl3_send_finished, and what follows it */
    method DoSendFinished(t: Turn) returns (ok: bool)
      modifies this
      ensures SendFinished(old(Abs()), t) == if ok then Again(Abs()) else Return(Abs(), false)
      ensures ok ==> (nextState == FALSE_START <==> t.falseStart && !dtls && !session)
    {
      Queue(SentFinished);
      state := CW_FLUSH;
      if session {
        nextState := FINISH_HANDSHAKE;
      } else if !t.hashesOk {
        dead := true;
        return false;
      } else if t.falseStart && !dtls {
        nextState := FALSE_START;
      } else {
        nextState := CR_SESSION_TICKET;
      }
      return true;
    }

    /** ssl3_get_new_session_ticket */
    method DoGetNewSessionTicket(t: Turn) returns (ok: bool)
      modifies this
      ensures GetNewSessionTicket(old(Abs()), t) == if ok then Again(Abs()) else Return(Abs(), false)
    {
      if hello.ticketExpected {
        var ty := PeekType(t);
        if ty != MT_NEW_SESSION_TICKET {
          dead := true;
          return false;
        }
        GetMessage(t);
        Note(ReadTicket);
      }
      state := CR_CHANGE;
      return true;
    }

    /** read_change_cipher_spec and tls1_change_cipher_state */
    method DoReadChangeCipherSpec()
      modifies this
      ensures ReadChangeCipherSpec(old(Abs())) == Again(Abs())
    {
      Note(ReadCcs);
      state := CR_FINISHED;
    }

    /** ssl3_get_finished, and received_flight */
    method DoGetFinished(t: Turn) returns (ok: bool)
      modifies this
      ensures GetFinished(old(Abs()), t) == if ok then Again(Abs()) else Return(Abs(), false)
    {
      var ty := PeekType(t);
      if ty != MT_FINISHED {
        dead := true;
        return false;
      }
      GetMessage(t);
      Note(ReadFinished);
      flight := [];
      state := if session then CW_CHANGE else FINISH_HANDSHAKE;
      return true;
    }

    /** One turn of the loop up to the end of the server's first flight. */
    method DoReading(t: Turn) returns (ok: bool)
      requires state <= CR_SRVR_DONE
      modifies this
      ensures Go(old(Abs()), t) == if ok then Again(Abs()) else Return(Abs(), false)
    {
      ok := true;
      if state == SSL_ST_INIT { state := CW_CLNT_HELLO; }
      else if state == CW_CLNT_HELLO { DoSendClientHello(t); }
      else if state == CR_HELLO_VERIFY { DoGetHelloVerify(t); }
      else if state == CR_SRVR_HELLO { ok := DoGetServerHello(t); }
      else if state == CR_CERT { ok := DoGetServerCertificate(t); }
      else if state == CR_CERT_STATUS { DoGetCertStatus(t); }
      else if state == VERIFY_SERVER_CERT { DoVerifyServerCert(); }
      else if state == CR_KEY_EXCH { ok := DoGetServerKeyExchange(t); }
      else if state == CR_CERT_REQ { ok := DoGetCertificateRequest(t); }
      else { ok := DoGetServerHelloDone(t); }
    }

    /** One turn of the loop while the client sends. */
    method DoWriting(t: Turn) returns (ok: bool)
      requires CW_CERT <= state <= CW_FINISHED
      modifies this
      ensures Go(old(Abs()), t) == if ok then Again(Abs()) else Return(Abs(), false)
    {
      ok := true;
      if state == CW_CERT { DoSendClientCertificate(); }
      else if state == CW_KEY_EXCH { DoSendClientKeyExchange(); }
      else if state == CW_CERT_VRFY_A || state == CW_CERT_VRFY_B { DoSendCertVerify(t); }
      else if state == CW_CHANGE { DoSendChangeCipherSpec(); }
      else if state == CW_NEXT_PROTO { DoSendNextProto(); }
      else if state == CW_CHANNEL_ID { DoSendChannelId(); }
      else { ok := DoSendFinished(t); }
    }

    /** The other turns of the loop; those that return to the caller say so. */
    method DoClosing(t: Turn) returns (again: bool, ok: bool)
      requires state >= FALSE_START
      modifies this
      ensures Go(old(Abs()), t) == if again then Again(Abs()) else Return(Abs(), ok)
    {
      again, ok := true, true;
      if state == FALSE_START {
        state := CR_SESSION_TICKET;
        inFalseStart := true;
        again := false;
      } else if state == CR_SESSION_TICKET {
        again := DoGetNewSessionTicket(t);
        ok := again;
      } else if state == CR_CHANGE {
        DoReadChangeCipherSpec();
      } else if state == CR_FINISHED {
        again := DoGetFinished(t);
        ok := again;
      } else if state == CW_FLUSH {
        state := nextState;
      } else if state == FINISH_HANDSHAKE {
        current := None;
        state := SSL_ST_OK;
      } else if state == SSL_ST_OK {
        again := false;
      } else {
        dead := true;
        again, ok := false, false;
      }
    }

    /** A turn whose call blocks or fails. */
    method StopHere(t: Turn)
      requires Stops(Abs(), t)
      modifies this
      ensures Abs() == Stop(old(Abs()), t)
    {
      if dead || t.result == Fatal {
        dead := true;
      } else if t.result == SignLater && (state == CW_CERT_VRFY_A || state == CW_CERT_VRFY_B) {
        state := CW_CERT_VRFY_B;
      } else if Reads(state) && !reuse {
        current := None;
      }
    }

    /** The switch of ssl3_connect. */
    method DoTurn(t: Turn) returns (again: bool, ok: bool)
      modifies this
      ensures Step(old(Abs()), t) == if again then Again(Abs()) else Return(Abs(), ok)
    {
      if dead || (MakesCall(state, session, hello, certRequest, t) && t.result != Ok) {
        StopHere(t);
        return false, false;
      }
      if state <= CR_SRVR_DONE {
        ok := DoReading(t);
        again := ok;
      } else if state <= CW_FINISHED {
        ok := DoWriting(t);
        again := ok;
      } else {
        again, ok := DoClosing(t);
      }
    }

    /** One turn of the loop: it goes on, or returns.  It keeps the record of the handshake straight, and unless it
        fails it brings the handshake nearer to its end. */
    method TakeTurn(t: Turn) returns (again: bool, ok: bool)
      requires Valid()
      modifies this
      ensures Valid()
      ensures Step(old(Abs()), t) == if again then Again(Abs()) else Return(Abs(), ok)
      ensures old(!dead && state != SSL_ST_OK) && t.result == Ok && !dead ==> Rank(Abs()) < Rank(old(Abs()))
      ensures old(!dead) && t.result == Ok ==> (dead <==> Unexpected(old(Abs()), t))
    {
      TurnKeeps(Abs(), t);
      again, ok := DoTurn(t);
    }

    /** ssl3_connect: the loop takes the turns of the machine until one of them returns. */
    method Connect(ts: seq<Turn>) returns (ok: bool)
      requires Valid()
      modifies this
      ensures Valid() && (Abs(), ok) == TlsClient.Connect(old(Abs()), ts)
      ensures !dead && state == SSL_ST_OK ==> trace == Handshake(FactsOf(Abs())) && Possible(FactsOf(Abs()), dtls)
      ensures !dead && ok ==> SucceedsAt(old(Abs()), Abs())
      ensures !dead && !ok ==> inFalseStart == old(inFalseStart)
      ensures !dead && inFalseStart ==> !dtls && !session
    {
      ghost var start := Abs();
      ConnectSafe(start, ts);
      var i := 0;
      while i < |ts|
        invariant Valid() && i <= |ts| && TlsClient.Connect(start, ts) == TlsClient.Connect(Abs(), ts[i..])
      {
        var again, done := TakeTurn(ts[i]);
        if !again {
          return done;
        }
        assert ts[i..][1..] == ts[i + 1..];
        i := i + 1;
      }
      return false;
    }
  }

  lemma TurnKeeps(hs: Hs, t: Turn)
    requires Sound(hs)
    ensures var hs' := Step(hs, t).hs;
            && Sound(hs')
            && (!hs.dead && hs.state != SSL_ST_OK && t.result == Ok && !hs'.dead ==> Rank(hs') < Rank(hs))
            && (!hs.dead && t.result == Ok ==> (hs'.dead <==> Unexpected(hs, t)))
  {
    if !hs.dead && t.result == Ok { DiesIffUnexpected(hs, t); }
    TurnSound(hs, t);
    if !hs.dead && hs.state != SSL_ST_OK && t.result == Ok && !Step(hs, t).hs.dead { StepProgresses(hs, t); }
  }

  lemma {:induction false} CallSound(hs: Hs, ts: seq<Turn>)
    requires Sound(hs)
    ensures Sound(TlsClient.Connect(hs, ts).0)
    decreases |ts|
  {
    if ts != [] {
      TurnSound(hs, ts[0]);
      if Step(hs, ts[0]).Again? { CallSound(Step(hs, ts[0]).hs, ts[1..]); }
    }
  }

  lemma ConnectSafe(hs: Hs, ts: seq<Turn>)
    requires Sound(hs)
    ensures var (hs', ok) := TlsClient.Connect(hs, ts);
            && Sound(hs')
            && (!hs'.dead ==> if ok then SucceedsAt(hs, hs') else hs'.inFalseStart == hs.inFalseStart)
            && (!hs'.dead && hs'.state == SSL_ST_OK ==>
                  hs'.trace == Handshake(FactsOf(hs')) && Possible(FactsOf(hs'), hs'.dtls))
  {
    CallSound(hs, ts);
    if hs.dead { DeadCall(hs, ts); } else { CallSucceedsAt(hs, ts); }
    var hs' := TlsClient.Connect(hs, ts).0;
    if !hs'.dead && hs'.state == SSL_ST_OK { CompleteMeansWhole(hs'); }
  }
}
