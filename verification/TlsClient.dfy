/** The client handshake state machine up to TLS 1.2 (handshake_client.c:190-511 and the steps it calls; RFC 5246,
    section 7.3, RFC 6347, section 4.2.1, RFC 7918), as a function on values.  Cryptography and message contents are
    left to the environment. */
module TlsClient {
  import opened Wrappers
  import HandshakeWire

  /** The states of the handshake, numbered here in the order of a full handshake. */
  type State = nat

  const SSL_ST_INIT: State := 0
  const CW_CLNT_HELLO: State := 1
  const CR_HELLO_VERIFY: State := 2
  const CR_SRVR_HELLO: State := 3
  const CR_CERT: State := 4
  const CR_CERT_STATUS: State := 5
  const VERIFY_SERVER_CERT: State := 6
  const CR_KEY_EXCH: State := 7
  const CR_CERT_REQ: State := 8
  const CR_SRVR_DONE: State := 9
  const CW_CERT: State := 10
  const CW_KEY_EXCH: State := 11
  const CW_CERT_VRFY_A: State := 12
  const CW_CERT_VRFY_B: State := 13
  const CW_CHANGE: State := 14
  const CW_NEXT_PROTO: State := 15
  const CW_CHANNEL_ID: State := 16
  const CW_FINISHED: State := 17
  const FALSE_START: State := 18
  const CR_SESSION_TICKET: State := 19
  const CR_CHANGE: State := 20
  const CR_FINISHED: State := 21
  const CW_FLUSH: State := 22
  const FINISH_HANDSHAKE: State := 23
  const SSL_ST_OK: State := 24

  /** SSL3_MT_* and DTLS1_MT_HELLO_VERIFY_REQUEST */
  type MsgType = nat

  const MT_SERVER_HELLO: MsgType := 2
  const MT_HELLO_VERIFY_REQUEST: MsgType := 3
  const MT_NEW_SESSION_TICKET: MsgType := 4
  const MT_CERTIFICATE: MsgType := 11
  const MT_SERVER_KEY_EXCHANGE: MsgType := 12
  const MT_CERTIFICATE_REQUEST: MsgType := 13
  const MT_SERVER_HELLO_DONE: MsgType := 14
  const MT_FINISHED: MsgType := 20
  const MT_CERTIFICATE_STATUS: MsgType := 22

  /** What a run of the handshake did, in order. */
  datatype Event =
    | SentHello | ReadHelloVerify | ReadServerHello | ReadCert | ReadCertStatus | VerifiedCert | ReadKeyExchange
    | ReadCertRequest | ReadServerDone | SentCert | SentKeyExchange | SentCertVerify | SentCcs | SentNextProto
    | SentChannelId | SentFinished | ReadTicket | ReadCcs | ReadFinished

  /** What the ServerHello settles: whether it names the offered session, and what the cipher and extensions ask for. */
  datatype Hello = Hello(resumes: bool, certAuth: bool, needsKeyExchange: bool, statusExpected: bool, nextProto: bool,
                         channelId: bool, ticketExpected: bool)

  /** How the call that a state makes turns out. */
  datatype Result = Ok | WouldBlock | SignLater | Fatal

  /** What the environment decides in one turn of the loop: the result of the call and, where it matters, the type of
      the next message, the contents of the ServerHello, whether the offered session is still usable, whether there
      is a client certificate, whether False Start is allowed and whether the channel ID hashes could be recorded. */
  datatype Turn = Turn(result: Result, msg: MsgType, hello: Hello, keepsSession: bool, hasCert: bool, falseStart: bool,
                       hashesOk: bool)

  /** Which of the optional messages came or went: CertificateStatus, ServerKeyExchange and CertificateVerify. */
  datatype Past = Past(statusRead: bool, exchanged: bool, certVerify: bool)

  /** The fields that the machine reads and writes.  flight is what has been queued since the last clear; trace and past
      are what happened so far; dead says that a fatal error has ended the connection. */
  datatype Hs = Hs(
    state: State, nextState: State, dtls: bool, session: bool, sendCookie: bool, hello: Hello, certRequest: bool,
    inFalseStart: bool, reuse: bool, current: Option<MsgType>, flight: seq<Event>, trace: seq<Event>, past: Past,
    dead: bool)

  const NO_HELLO: Hello := Hello(false, false, false, false, false, false, false)

  function Start(dtls: bool, offersSession: bool): Hs {
    Hs(SSL_ST_INIT, SSL_ST_INIT, dtls, offersSession, false, NO_HELLO, false, false, false, None, [], [],
       Past(false, false, false), false)
  }

  /** Another turn of the loop, or a return to the caller. */
  datatype Outcome = Again(hs: Hs) | Return(hs: Hs, ok: bool)

  // ----- the steps -----

  /** Whether the state makes a call that may block or fail. */
  predicate MakesCall(s: State, session: bool, hello: Hello, certRequest: bool, t: Turn) {
    if s == SSL_ST_INIT || s == FALSE_START || s == SSL_ST_OK then false
    else if s == CR_CERT || s == VERIFY_SERVER_CERT || s == CR_CERT_REQ then hello.certAuth
    else if s == CR_CERT_STATUS then hello.statusExpected
    else if s == CW_CERT then certRequest
    else if s == CW_CERT_VRFY_A || s == CW_CERT_VRFY_B then certRequest && t.hasCert
    else if s == CW_NEXT_PROTO then hello.nextProto
    else if s == CW_CHANNEL_ID then hello.channelId
    else if s == CR_SESSION_TICKET then hello.ticketExpected
    else if s == FINISH_HANDSHAKE then !session
    else true
  }

  /** The states whose call is ssl_get_message. */
  predicate Reads(s: State) {
    || s == CR_HELLO_VERIFY || s == CR_SRVR_HELLO || s == CR_CERT || s == CR_CERT_STATUS || s == CR_KEY_EXCH
    || s == CR_CERT_REQ || s == CR_SRVR_DONE || s == CR_SESSION_TICKET || s == CR_FINISHED
  }

  /** ssl_get_message: the message that was pushed back, or the next one. */
  function Got(hs: Hs, t: Turn): MsgType {
    if hs.reuse && hs.current.Some? then hs.current.value else t.msg
  }

  function Taken(hs: Hs, t: Turn): Hs { hs.(reuse := false, current := Some(Got(hs, t))) }

  /** ssl_get_message lets go of the current message before it waits for the next. */
  function Waiting(hs: Hs): Hs {
    if Reads(hs.state) && !hs.reuse then hs.(current := None) else hs
  }

  function Log(hs: Hs, e: Event): Hs { hs.(trace := hs.trace + [e]) }

  /** add_message and add_change_cipher_spec */
  function Send(hs: Hs, e: Event): Hs { Log(hs, e).(flight := hs.flight + [e]) }

  function To(hs: Hs, s: State): Outcome { Again(hs.(state := s)) }

  function Dies(hs: Hs): Outcome { Return(hs.(dead := true), false) }

  /** Whether the turn ends at once: after a fatal error, or because the call does not succeed. */
  predicate Stops(hs: Hs, t: Turn) {
    hs.dead || (MakesCall(hs.state, hs.session, hs.hello, hs.certRequest, t) && t.result != Ok)
  }

  function Stop(hs: Hs, t: Turn): Hs {
    if hs.dead || t.result == Fatal then hs.(dead := true)
    else if t.result == SignLater && (hs.state == CW_CERT_VRFY_A || hs.state == CW_CERT_VRFY_B) then
      hs.(state := CW_CERT_VRFY_B)
    else Waiting(hs)
  }

  /** One turn of the loop of ssl3_connect. */
  function Step(hs: Hs, t: Turn): Outcome {
    if Stops(hs, t) then Return(Stop(hs, t), false) else Go(hs, t)
  }

  /** What a state does once its call, if it makes one, has succeeded. */
  function Go(hs: Hs, t: Turn): Outcome {
    var s := hs.state;
    if s == SSL_ST_INIT then To(hs, CW_CLNT_HELLO)
    else if s == CW_CLNT_HELLO then SendClientHello(hs, t)
    else if s == CR_HELLO_VERIFY then GetHelloVerify(hs, t)
    else if s == CR_SRVR_HELLO then GetServerHello(hs, t)
    else if s == CR_CERT then GetServerCertificate(hs, t)
    else if s == CR_CERT_STATUS then GetCertStatus(hs, t)
    else if s == VERIFY_SERVER_CERT then VerifyServerCert(hs)
    else if s == CR_KEY_EXCH then GetServerKeyExchange(hs, t)
    else if s == CR_CERT_REQ then GetCertificateRequest(hs, t)
    else if s == CR_SRVR_DONE then GetServerHelloDone(hs, t)
    else if s == CW_CERT then SendClientCertificate(hs)
    else if s == CW_KEY_EXCH then SendClientKeyExchange(hs)
    else if s == CW_CERT_VRFY_A || s == CW_CERT_VRFY_B then SendCertVerify(hs, t)
    else if s == CW_CHANGE then SendChangeCipherSpec(hs)
    else if s == CW_NEXT_PROTO then SendNextProto(hs)
    else if s == CW_CHANNEL_ID then SendChannelId(hs)
    else if s == CW_FINISHED then SendFinished(hs, t)
    else if s == FALSE_START then StartEarly(hs)
    else if s == CR_SESSION_TICKET then GetNewSessionTicket(hs, t)
    else if s == CR_CHANGE then ReadChangeCipherSpec(hs)
    else if s == CR_FINISHED then GetFinished(hs, t)
    else if s == CW_FLUSH then To(hs, hs.nextState)
    else if s == FINISH_HANDSHAKE then To(hs.(current := None), SSL_ST_OK)
    else if s == SSL_ST_OK then Return(hs, true)
    else Dies(hs)
  }

  function SendClientHello(hs: Hs, t: Turn): Outcome {
    var next := if !hs.dtls || hs.sendCookie then CR_SRVR_HELLO else CR_HELLO_VERIFY;
    To(Send(hs, SentHello).(session := hs.session && t.keepsSession, nextState := next), CW_FLUSH)
  }

  /** dtls1_get_hello_verify; a flight that has been answered is cleared. */
  function GetHelloVerify(hs: Hs, t: Turn): Outcome {
    if Got(hs, t) != MT_HELLO_VERIFY_REQUEST then To(Taken(hs, t).(sendCookie := false, reuse := true), CR_SRVR_HELLO)
    else To(Log(Taken(hs, t), ReadHelloVerify).(sendCookie := true, flight := []), CW_CLNT_HELLO)
  }

  function GetServerHello(hs: Hs, t: Turn): Outcome {
    if Got(hs, t) != MT_SERVER_HELLO then Dies(hs)
    else
      var resumed := hs.session && t.hello.resumes;
      To(Log(Taken(hs, t), ReadServerHello).(session := resumed, hello := t.hello),
         if resumed then CR_SESSION_TICKET else CR_CERT)
  }

  function GetServerCertificate(hs: Hs, t: Turn): Outcome {
    if !hs.hello.certAuth then To(hs, CR_CERT_STATUS)
    else if Got(hs, t) != MT_CERTIFICATE then Dies(hs)
    else To(Log(Taken(hs, t), ReadCert), CR_CERT_STATUS)
  }

  function GetCertStatus(hs: Hs, t: Turn): Outcome {
    if !hs.hello.statusExpected then To(hs, VERIFY_SERVER_CERT)
    else if Got(hs, t) == MT_CERTIFICATE_STATUS then
      To(Log(Taken(hs, t), ReadCertStatus).(past := hs.past.(statusRead := true)), VERIFY_SERVER_CERT)
    else To(Taken(hs, t).(reuse := true), VERIFY_SERVER_CERT)
  }

  function VerifyServerCert(hs: Hs): Outcome {
    To(if hs.hello.certAuth then Log(hs, VerifiedCert) else hs, CR_KEY_EXCH)
  }

  function GetServerKeyExchange(hs: Hs, t: Turn): Outcome {
    if Got(hs, t) == MT_SERVER_KEY_EXCHANGE then
      To(Log(Taken(hs, t), ReadKeyExchange).(past := hs.past.(exchanged := true)), CR_CERT_REQ)
    else if hs.hello.needsKeyExchange then Dies(hs)
    else To(Taken(hs, t).(reuse := true), CR_CERT_REQ)
  }

  function GetCertificateRequest(hs: Hs, t: Turn): Outcome {
    if !hs.hello.certAuth then To(hs, CR_SRVR_DONE)
    else if Got(hs, t) == MT_SERVER_HELLO_DONE then To(Taken(hs, t).(reuse := true), CR_SRVR_DONE)
    else if Got(hs, t) == MT_CERTIFICATE_REQUEST then
      To(Log(Taken(hs, t), ReadCertRequest).(certRequest := true), CR_SRVR_DONE)
    else Dies(hs)
  }

  function GetServerHelloDone(hs: Hs, t: Turn): Outcome {
    if Got(hs, t) != MT_SERVER_HELLO_DONE then Dies(hs)
    else To(Log(Taken(hs, t), ReadServerDone).(flight := []), CW_CERT)
  }

  function SendClientCertificate(hs: Hs): Outcome {
    To(if hs.certRequest then Send(hs, SentCert) else hs, CW_KEY_EXCH)
  }

  function SendClientKeyExchange(hs: Hs): Outcome { To(Send(hs, SentKeyExchange), CW_CERT_VRFY_A) }

  function SendCertVerify(hs: Hs, t: Turn): Outcome {
    To(if hs.certRequest && t.hasCert then Send(hs, SentCertVerify).(past := hs.past.(certVerify := true)) else hs,
       CW_CHANGE)
  }

  function SendChangeCipherSpec(hs: Hs): Outcome { To(Send(hs, SentCcs), CW_NEXT_PROTO) }

  function SendNextProto(hs: Hs): Outcome {
    To(if hs.hello.nextProto then Send(hs, SentNextProto) else hs, CW_CHANNEL_ID)
  }

  function SendChannelId(hs: Hs): Outcome {
    To(if hs.hello.channelId then Send(hs, SentChannelId) else hs, CW_FINISHED)
  }

  /** The state changes before the last call that can fail, and next_state after it. */
  function SendFinished(hs: Hs, t: Turn): Outcome {
    var hs1 := Send(hs, SentFinished).(state := CW_FLUSH);
    if hs.session then Again(hs1.(nextState := FINISH_HANDSHAKE))
    else if !t.hashesOk then Dies(hs1)
    else Again(hs1.(nextState := if t.falseStart && !hs.dtls then FALSE_START else CR_SESSION_TICKET))
  }

  /** False Start: the caller may send data before the server's Finished is in. */
  function StartEarly(hs: Hs): Outcome { Return(hs.(state := CR_SESSION_TICKET, inFalseStart := true), true) }

  function GetNewSessionTicket(hs: Hs, t: Turn): Outcome {
    if !hs.hello.ticketExpected then To(hs, CR_CHANGE)
    else if Got(hs, t) != MT_NEW_SESSION_TICKET then Dies(hs)
    else To(Log(Taken(hs, t), ReadTicket), CR_CHANGE)
  }

  function ReadChangeCipherSpec(hs: Hs): Outcome { To(Log(hs, ReadCcs), CR_FINISHED) }

  function GetFinished(hs: Hs, t: Turn): Outcome {
    if Got(hs, t) != MT_FINISHED then Dies(hs)
    else To(Log(Taken(hs, t), ReadFinished).(flight := []), if hs.session then CW_CHANGE else FINISH_HANDSHAKE)
  }

  /** ssl3_connect: turns until one returns.  When the environment has nothing more to say, the step blocks. */
  function Connect(hs: Hs, ts: seq<Turn>): (Hs, bool)
    decreases |ts|
  {
    if ts == [] then (hs, false)
    else match Step(hs, ts[0])
      case Again(hs') => Connect(hs', ts[1..])
      case Return(hs', ok) => (hs', ok)
  }

  /** The application calls ssl3_connect as often as it likes. */
  function Run(hs: Hs, calls: seq<seq<Turn>>): Hs
    decreases |calls|
  {
    if calls == [] then hs else Run(Connect(hs, calls[0]).0, calls[1..])
  }

  // ----- what a handshake consists of -----

  /** What decides which optional messages a handshake has. */
  datatype Facts = Facts(session: bool, cookie: bool, hello: Hello, certRequest: bool, past: Past)

  function FactsOf(hs: Hs): Facts { Facts(hs.session, hs.sendCookie, hs.hello, hs.certRequest, hs.past) }

  function If(c: bool, e: Event): (s: seq<Event>)
    ensures |s| <= 1
  {
    if c then [e] else []
  }

  /** The parts of a handshake in their order.  There is at most one cookie round.  In a full handshake the
      certificate is verified before the key exchange goes on, and the client's ChangeCipherSpec and Finished come
      before the server's; in a resumed one the server's come first. */
  function Part(f: Facts, k: nat): seq<Event> {
    if k <= 1 then (if f.cookie && k == 1 then [SentHello, ReadHelloVerify] else [])
    else if k == 2 then [SentHello]
    else if k == 3 then [ReadServerHello]
    else if f.session then ResumedPart(f, k)
    else if k <= 9 then ServerPart(f, k)
    else ClientPart(f, k)
  }

  function ResumedPart(f: Facts, k: nat): (s: seq<Event>)
    ensures |s| <= 1
  {
    if k == 4 then If(f.hello.ticketExpected, ReadTicket)
    else if k == 5 then [ReadCcs]
    else if k == 6 then [ReadFinished]
    else if k == 7 then [SentCcs]
    else if k == 8 then If(f.hello.nextProto, SentNextProto)
    else if k == 9 then If(f.hello.channelId, SentChannelId)
    else if k == 10 then [SentFinished]
    else []
  }

  function ServerPart(f: Facts, k: nat): (s: seq<Event>)
    ensures |s| <= 1
  {
    if k == 4 then If(f.hello.certAuth, ReadCert)
    else if k == 5 then If(f.past.statusRead, ReadCertStatus)
    else if k == 6 then If(f.hello.certAuth, VerifiedCert)
    else if k == 7 then If(f.past.exchanged, ReadKeyExchange)
    else if k == 8 then If(f.certRequest, ReadCertRequest)
    else if k == 9 then [ReadServerDone]
    else []
  }

  function ClientPart(f: Facts, k: nat): (s: seq<Event>)
    ensures |s| <= 1
  {
    if k == 10 then If(f.certRequest, SentCert)
    else if k == 11 then [SentKeyExchange]
    else if k == 12 then If(f.past.certVerify, SentCertVerify)
    else if k == 13 then [SentCcs]
    else if k == 14 then If(f.hello.nextProto, SentNextProto)
    else if k == 15 then If(f.hello.channelId, SentChannelId)
    else if k == 16 then [SentFinished]
    else if k == 17 then If(f.hello.ticketExpected, ReadTicket)
    else if k == 18 then [ReadCcs]
    else if k == 19 then [ReadFinished]
    else []
  }

  /** p(a + 1) to p(b), one after the other. */
  function Joined(p: nat -> seq<Event>, a: nat, b: nat): seq<Event>
    decreases b
  {
    if b <= a then [] else Joined(p, a, b - 1) + p(b)
  }

  function PartOf(f: Facts): nat -> seq<Event> { (k: nat) => Part(f, k) }

  /** Parts a + 1 to b. */
  function Parts(f: Facts, a: nat, b: nat): seq<Event>
    decreases b
  {
    if b <= a then [] else Parts(f, a, b - 1) + Part(f, b)
  }

  lemma {:induction false} PartsJoined(f: Facts, a: nat, b: nat)
    ensures Parts(f, a, b) == Joined(PartOf(f), a, b)
    decreases b
  {
    if b > a { PartsJoined(f, a, b - 1); }
  }

  /** A whole handshake. */
  function Handshake(f: Facts): seq<Event> { Parts(f, 0, if f.session then 10 else 19) }

  lemma {:induction false} SameJoined(p: nat -> seq<Event>, q: nat -> seq<Event>, a: nat, b: nat)
    requires forall k :: a < k <= b ==> p(k) == q(k)
    ensures Joined(p, a, b) == Joined(q, a, b)
    decreases b
  {
    if b > a { SameJoined(p, q, a, b - 1); }
  }

  lemma SameParts(f: Facts, g: Facts, a: nat, b: nat)
    requires forall k :: a < k <= b ==> Part(f, k) == Part(g, k)
    ensures Parts(f, a, b) == Parts(g, a, b)
  {
    SameJoined(PartOf(f), PartOf(g), a, b);
    PartsJoined(f, a, b);
    PartsJoined(g, a, b);
  }

  lemma {:induction false} JoinedLength(p: nat -> seq<Event>, a: nat, b: nat)
    requires a <= b && forall k :: a < k <= b ==> |p(k)| <= 1
    ensures |Joined(p, a, b)| <= b - a
    decreases b
  {
    if b > a { JoinedLength(p, a, b - 1); }
  }

  lemma PartsLength(f: Facts, a: nat, b: nat)
    requires 1 <= a <= b
    ensures |Parts(f, a, b)| <= b - a
  {
    JoinedLength(PartOf(f), a, b);
    PartsJoined(f, a, b);
  }

  // ----- where each state stands -----

  predicate BeforeServerHello(hs: Hs) {
    || hs.state <= CR_SRVR_HELLO
    || (hs.state == CW_FLUSH && (hs.nextState == CR_HELLO_VERIFY || hs.nextState == CR_SRVR_HELLO))
  }

  /** The states of a full handshake only. */
  predicate OnlyFull(s: State) { CR_CERT <= s <= CW_CERT_VRFY_B || s == FALSE_START }

  /** How many parts are behind a state. */
  function Behind(hs: Hs): nat {
    var s := hs.state;
    if s <= CW_CLNT_HELLO then 1
    else if BeforeServerHello(hs) then 2
    else if hs.session then
      if CW_CHANGE <= s <= CW_FINISHED then s - 8
      else if CR_SESSION_TICKET <= s <= CR_FINISHED then s - 16
      else 10
    else
      if s <= CW_CERT_VRFY_A then s - 1
      else if s <= CW_FINISHED then s - 2
      else if s == CW_FLUSH || s <= CR_SESSION_TICKET then 16
      else if s <= CR_FINISHED then s - 3
      else 19
  }

  /** The first part that is still queued stands behind this many. */
  function QueuedFrom(hs: Hs): nat {
    var s := hs.state;
    if BeforeServerHello(hs) then 1
    else if hs.session then (if CR_SESSION_TICKET <= s <= CR_FINISHED then 1 else 6)
    else if s <= CR_SRVR_DONE then 1
    else if s <= CW_FLUSH then 9
    else 19
  }

  function QueuedTo(hs: Hs): nat {
    var s := hs.state;
    if s <= CW_CLNT_HELLO then 1
    else if BeforeServerHello(hs) then 2
    else if hs.session then (if CR_SESSION_TICKET <= s <= CR_FINISHED then 2 else Behind(hs))
    else if s <= CR_SRVR_DONE then 2
    else if s <= CW_FINISHED then Behind(hs)
    else if s <= CW_FLUSH then 16
    else 19
  }

  /** What has happened, and what is queued, is exactly what the state says. */
  ghost predicate OnTrack(hs: Hs) { hs.trace == Parts(FactsOf(hs), 0, Behind(hs)) }

  ghost predicate Queue(hs: Hs) { hs.flight == Parts(FactsOf(hs), QueuedFrom(hs), QueuedTo(hs)) }

  /** Where a message may have been pushed back. */
  predicate MayReuse(s: State) { s == CR_SRVR_HELLO || VERIFY_SERVER_CERT <= s <= CR_SRVR_DONE }

  /** Where the flush between flights leads. */
  predicate NextOk(hs: Hs) {
    if BeforeServerHello(hs) then true
    else if hs.session then hs.nextState == FINISH_HANDSHAKE
    else hs.nextState == FALSE_START || hs.nextState == CR_SESSION_TICKET
  }

  /** An optional message is not behind a state that comes before it. */
  predicate PastOk(hs: Hs) {
    var before, s := BeforeServerHello(hs), hs.state;
    && (before || CR_CERT <= s <= CR_CERT_STATUS ==> !hs.past.statusRead)
    && (before || CR_CERT <= s <= CR_KEY_EXCH ==> !hs.past.exchanged)
    && (before || CR_CERT <= s <= CR_CERT_REQ ==> !hs.certRequest)
    && (before || CR_CERT <= s <= CW_CERT_VRFY_B ==> !hs.past.certVerify)
  }

  predicate Allowed(f: Facts) {
    && (f.past.statusRead ==> f.hello.statusExpected)
    && (f.certRequest ==> f.hello.certAuth)
    && (f.past.certVerify ==> f.certRequest)
  }

  /** Optional messages come only where the ServerHello or the server's request allows them, and a ServerKeyExchange
      that the cipher needs is behind a state that comes after it. */
  predicate Coherent(hs: Hs) {
    && Allowed(FactsOf(hs))
    && (hs.hello.needsKeyExchange && !hs.session && CR_CERT_REQ <= hs.state && hs.state != CW_FLUSH ==>
          hs.past.exchanged)
    && (hs.hello.needsKeyExchange && !hs.session && hs.state == CW_FLUSH && !BeforeServerHello(hs) ==>
          hs.past.exchanged)
  }

  predicate Shape(hs: Hs) {
    && hs.state <= SSL_ST_OK && (hs.reuse ==> hs.current.Some? && MayReuse(hs.state))
    && (hs.sendCookie ==> hs.dtls)
    && (hs.state == CR_HELLO_VERIFY || (hs.state == CW_FLUSH && hs.nextState == CR_HELLO_VERIFY) ==>
          hs.dtls && !hs.sendCookie)
    && (OnlyFull(hs.state) ==> !hs.session)
    && PastOk(hs) && Coherent(hs)
    && (hs.state == CW_FLUSH ==> NextOk(hs))
    && (CR_CERT <= hs.state <= CW_FINISHED && !hs.session ==>
          hs.nextState == CR_HELLO_VERIFY || hs.nextState == CR_SRVR_HELLO)
    && (hs.state == CR_HELLO_VERIFY || hs.state == CR_SRVR_HELLO ==>
          hs.nextState == CR_HELLO_VERIFY || hs.nextState == CR_SRVR_HELLO)
  }

  ghost predicate Inv(hs: Hs) { Shape(hs) && OnTrack(hs) && Queue(hs) }

  lemma StartInv(dtls: bool, offersSession: bool)
    ensures Inv(Start(dtls, offersSession))
  {
  }

  // ----- how steps move on -----

  /** Two sets of facts agree on the first n parts. */
  ghost predicate Agree(f: Facts, g: Facts, n: nat) { forall k :: 0 < k <= n ==> Part(g, k) == Part(f, k) }

  // What is settled late does not matter earlier.

  lemma HelloLater(f: Facts, session: bool, hello: Hello)
    ensures Agree(f, f.(session := session, hello := hello), 3)
  {
  }

  lemma StatusLater(f: Facts)
    ensures Agree(f, f.(past := f.past.(statusRead := true)), 4)
  {
  }

  lemma ExchangeLater(f: Facts)
    ensures Agree(f, f.(past := f.past.(exchanged := true)), 6)
  {
  }

  lemma RequestLater(f: Facts)
    ensures Agree(f, f.(certRequest := true), 7)
  {
  }

  lemma VerifyLater(f: Facts)
    ensures Agree(f, f.(past := f.past.(certVerify := true)), 11)
  {
  }

  /** With n parts behind, the next one is e. */
  lemma Happens(hs: Hs, hs': Hs, n: nat, e: Event)
    requires OnTrack(hs) && Agree(FactsOf(hs), FactsOf(hs'), n) && hs'.trace == hs.trace + [e]
    requires Behind(hs) == n && Behind(hs') == n + 1 && Part(FactsOf(hs'), n + 1) == [e]
    ensures OnTrack(hs')
  {
    SameParts(FactsOf(hs), FactsOf(hs'), 0, n);
  }

  /** With n parts behind, the next one is empty. */
  lemma Omitted(hs: Hs, hs': Hs, n: nat)
    requires OnTrack(hs) && Agree(FactsOf(hs), FactsOf(hs'), n) && hs'.trace == hs.trace
    requires Behind(hs) == n && Behind(hs') == n + 1 && Part(FactsOf(hs'), n + 1) == []
    ensures OnTrack(hs')
  {
    SameParts(FactsOf(hs), FactsOf(hs'), 0, n);
    assert hs.trace + [] == hs.trace;
  }

  /** What is queued stays. */
  lemma Unchanged(hs: Hs, hs': Hs, n: nat)
    requires Queue(hs) && Agree(FactsOf(hs), FactsOf(hs'), n) && hs'.flight == hs.flight && QueuedTo(hs) <= n
    requires QueuedFrom(hs') == QueuedFrom(hs) && QueuedTo(hs') == QueuedTo(hs)
    ensures Queue(hs')
  {
    SameParts(FactsOf(hs), FactsOf(hs'), QueuedFrom(hs), QueuedTo(hs));
  }

  lemma Cleared(hs': Hs)
    requires hs'.flight == [] && QueuedFrom(hs') == QueuedTo(hs')
    ensures Queue(hs')
  {
  }

  /** The next part is a message that is sent. */
  lemma SendKeeps(hs: Hs, hs': Hs, n: nat, e: Event)
    requires OnTrack(hs) && Queue(hs) && Agree(FactsOf(hs), FactsOf(hs'), n)
    requires hs'.trace == hs.trace + [e] && hs'.flight == hs.flight + [e] && Part(FactsOf(hs'), n + 1) == [e]
    requires QueuedFrom(hs') == QueuedFrom(hs) <= n
    requires Behind(hs) == n == QueuedTo(hs) && Behind(hs') == n + 1 == QueuedTo(hs')
    ensures OnTrack(hs') && Queue(hs')
  {
    Happens(hs, hs', n, e);
    SameParts(FactsOf(hs), FactsOf(hs'), QueuedFrom(hs), n);
  }

  /** The next part is a message that is not sent. */
  lemma SkipKeeps(hs: Hs, hs': Hs, n: nat)
    requires OnTrack(hs) && Queue(hs) && Agree(FactsOf(hs), FactsOf(hs'), n)
    requires hs'.trace == hs.trace && hs'.flight == hs.flight && Part(FactsOf(hs'), n + 1) == []
    requires QueuedFrom(hs') == QueuedFrom(hs) <= n
    requires Behind(hs) == n == QueuedTo(hs) && Behind(hs') == n + 1 == QueuedTo(hs')
    ensures OnTrack(hs') && Queue(hs')
  {
    Omitted(hs, hs', n);
    SameParts(FactsOf(hs), FactsOf(hs'), QueuedFrom(hs), n);
    assert hs.flight + [] == hs.flight;
  }

  /** Only the state changes, and not how far the handshake has come. */
  lemma MovesKeep(hs: Hs, hs': Hs)
    requires OnTrack(hs) && Queue(hs) && FactsOf(hs') == FactsOf(hs) && hs'.trace == hs.trace && hs'.flight == hs.flight
    requires Behind(hs') == Behind(hs) && QueuedFrom(hs') == QueuedFrom(hs) && QueuedTo(hs') == QueuedTo(hs)
    ensures OnTrack(hs') && Queue(hs')
  {
  }

  /** How many turns are left at most. */
  function Rank(hs: Hs): nat {
    var s := hs.state;
    if s == SSL_ST_INIT then 26
    else if s == CW_CLNT_HELLO then (if hs.dtls && !hs.sendCookie then 25 else 22)
    else if s == CR_HELLO_VERIFY then 23
    else if s == CR_SRVR_HELLO then 20
    else if s == CW_FLUSH && hs.nextState == CR_HELLO_VERIFY then 24
    else if s == CW_FLUSH && hs.nextState == CR_SRVR_HELLO then 21
    else if s == FINISH_HANDSHAKE then 1
    else if s == SSL_ST_OK then 0
    else if hs.session then
      if s == CR_SESSION_TICKET then 9
      else if s == CR_CHANGE then 8
      else if s == CR_FINISHED then 7
      else if CW_CHANGE <= s <= CW_FINISHED then 20 - s
      else 2
    else
      if s == CW_CERT_VRFY_A || s == CW_CERT_VRFY_B then 11
      else if s <= CW_KEY_EXCH then 23 - s
      else if s <= CW_FINISHED then 24 - s
      else if s == CW_FLUSH then 6
      else if s <= CR_FINISHED then 23 - s
      else 0
  }

  /** The states that queue messages. */
  predicate Queues(s: State) { s == CW_CLNT_HELLO || CW_CERT <= s <= CW_FINISHED }

  /** What every step does, unless it ends the connection: it keeps the invariant and brings the handshake nearer to its
      end.  And only some queue messages. */
  ghost predicate Kept(hs: Hs, o: Outcome) {
    && (Queues(hs.state) || |o.hs.flight| <= |hs.flight|)
    && (o.hs.dead || (Inv(o.hs) && (hs.state == SSL_ST_OK || Rank(o.hs) < Rank(hs))))
  }

  // One small lemma a step.

  lemma InitKeeps(hs: Hs)
    requires Inv(hs) && hs.state == SSL_ST_INIT
    ensures Kept(hs, To(hs, CW_CLNT_HELLO))
  {
    MovesKeep(hs, To(hs, CW_CLNT_HELLO).hs);
  }

  lemma SendClientHelloKeeps(hs: Hs, t: Turn)
    requires Inv(hs) && hs.state == CW_CLNT_HELLO
    ensures Kept(hs, SendClientHello(hs, t))
  {
    var hs' := SendClientHello(hs, t).hs;
    HelloLater(FactsOf(hs), hs'.session, hs.hello);
    SendKeeps(hs, hs', 1, SentHello);
  }

  lemma GetHelloVerifyKeeps(hs: Hs, t: Turn)
    requires Inv(hs) && hs.state == CR_HELLO_VERIFY
    ensures Kept(hs, GetHelloVerify(hs, t))
  {
    var hs' := GetHelloVerify(hs, t).hs;
    if Got(hs, t) == MT_HELLO_VERIFY_REQUEST {
      CookieRound(FactsOf(hs), FactsOf(hs'));
      Cleared(hs');
    } else {
      MovesKeep(hs, hs');
    }
  }

  /** The first hello and the request for a cookie. */
  lemma CookieRound(f: Facts, g: Facts)
    requires !f.cookie && g.cookie
    ensures Parts(f, 0, 2) + [ReadHelloVerify] == Parts(g, 0, 1)
  {
    assert Parts(f, 0, 1) == [] && Parts(g, 0, 0) == [];
    assert [] + [SentHello] == [SentHello];
  }

  lemma GetServerHelloKeeps(hs: Hs, t: Turn)
    requires Inv(hs) && hs.state == CR_SRVR_HELLO
    ensures Kept(hs, GetServerHello(hs, t))
  {
    var hs' := GetServerHello(hs, t).hs;
    if !hs'.dead {
      HelloLater(FactsOf(hs), hs'.session, hs'.hello);
      Happens(hs, hs', 2, ReadServerHello);
      Unchanged(hs, hs', 2);
    }
  }

  lemma GetServerCertificateKeeps(hs: Hs, t: Turn)
    requires Inv(hs) && hs.state == CR_CERT
    ensures Kept(hs, GetServerCertificate(hs, t))
  {
    var hs' := GetServerCertificate(hs, t).hs;
    if !hs'.dead {
      if hs.hello.certAuth {
        Happens(hs, hs', 3, ReadCert);
      } else {
        Omitted(hs, hs', 3);
      }
      Unchanged(hs, hs', 3);
    }
  }

  lemma GetCertStatusKeeps(hs: Hs, t: Turn)
    requires Inv(hs) && hs.state == CR_CERT_STATUS
    ensures Kept(hs, GetCertStatus(hs, t))
  {
    var hs' := GetCertStatus(hs, t).hs;
    if hs.hello.statusExpected && Got(hs, t) == MT_CERTIFICATE_STATUS {
      StatusLater(FactsOf(hs));
      Happens(hs, hs', 4, ReadCertStatus);
    } else {
      Omitted(hs, hs', 4);
    }
    Unchanged(hs, hs', 4);
  }

  lemma VerifyServerCertKeeps(hs: Hs)
    requires Inv(hs) && hs.state == VERIFY_SERVER_CERT
    ensures Kept(hs, VerifyServerCert(hs))
  {
    var hs' := VerifyServerCert(hs).hs;
    if hs.hello.certAuth {
      Happens(hs, hs', 5, VerifiedCert);
    } else {
      Omitted(hs, hs', 5);
    }
    Unchanged(hs, hs', 5);
  }

  lemma ExchangeRead(hs: Hs, hs': Hs)
    requires Inv(hs) && hs.state == CR_KEY_EXCH && hs'.state == CR_CERT_REQ
    requires FactsOf(hs') == FactsOf(hs).(past := hs.past.(exchanged := true))
    requires hs'.trace == hs.trace + [ReadKeyExchange] && hs'.flight == hs.flight
    ensures OnTrack(hs') && Queue(hs')
  {
    ExchangeLater(FactsOf(hs));
    Happens(hs, hs', 6, ReadKeyExchange);
    Unchanged(hs, hs', 6);
  }

  lemma ExchangeSkipped(hs: Hs, hs': Hs)
    requires Inv(hs) && hs.state == CR_KEY_EXCH && hs'.state == CR_CERT_REQ && FactsOf(hs') == FactsOf(hs)
    requires hs'.trace == hs.trace && hs'.flight == hs.flight
    ensures OnTrack(hs') && Queue(hs')
  {
    Omitted(hs, hs', 6);
    Unchanged(hs, hs', 6);
  }

  lemma GetServerKeyExchangeKeeps(hs: Hs, t: Turn)
    requires Inv(hs) && hs.state == CR_KEY_EXCH
    ensures Kept(hs, GetServerKeyExchange(hs, t))
  {
    var hs' := GetServerKeyExchange(hs, t).hs;
    if Got(hs, t) == MT_SERVER_KEY_EXCHANGE {
      ExchangeRead(hs, hs');
    } else if !hs'.dead {
      ExchangeSkipped(hs, hs');
    }
  }

  lemma RequestRead(hs: Hs, hs': Hs)
    requires Inv(hs) && hs.state == CR_CERT_REQ && hs'.state == CR_SRVR_DONE
    requires FactsOf(hs') == FactsOf(hs).(certRequest := true)
    requires hs'.trace == hs.trace + [ReadCertRequest] && hs'.flight == hs.flight
    ensures OnTrack(hs') && Queue(hs')
  {
    RequestLater(FactsOf(hs));
    Happens(hs, hs', 7, ReadCertRequest);
    Unchanged(hs, hs', 7);
  }

  lemma RequestSkipped(hs: Hs, hs': Hs)
    requires Inv(hs) && hs.state == CR_CERT_REQ && hs'.state == CR_SRVR_DONE && FactsOf(hs') == FactsOf(hs)
    requires hs'.trace == hs.trace && hs'.flight == hs.flight
    ensures OnTrack(hs') && Queue(hs')
  {
    Omitted(hs, hs', 7);
    Unchanged(hs, hs', 7);
  }

  lemma GetCertificateRequestKeeps(hs: Hs, t: Turn)
    requires Inv(hs) && hs.state == CR_CERT_REQ
    ensures Kept(hs, GetCertificateRequest(hs, t))
  {
    var hs' := GetCertificateRequest(hs, t).hs;
    if hs.hello.certAuth && Got(hs, t) == MT_CERTIFICATE_REQUEST {
      RequestRead(hs, hs');
    } else if !hs'.dead {
      RequestSkipped(hs, hs');
    }
  }

  lemma GetServerHelloDoneKeeps(hs: Hs, t: Turn)
    requires Inv(hs) && hs.state == CR_SRVR_DONE
    ensures Kept(hs, GetServerHelloDone(hs, t))
  {
    var hs' := GetServerHelloDone(hs, t).hs;
    if !hs'.dead {
      Happens(hs, hs', 8, ReadServerDone);
      Cleared(hs');
    }
  }

  lemma SendClientCertificateKeeps(hs: Hs)
    requires Inv(hs) && hs.state == CW_CERT
    ensures Kept(hs, SendClientCertificate(hs))
  {
    var hs' := SendClientCertificate(hs).hs;
    if hs.certRequest {
      SendKeeps(hs, hs', 9, SentCert);
    } else {
      SkipKeeps(hs, hs', 9);
    }
  }

  lemma SendClientKeyExchangeKeeps(hs: Hs)
    requires Inv(hs) && hs.state == CW_KEY_EXCH
    ensures Kept(hs, SendClientKeyExchange(hs))
  {
    var hs' := SendClientKeyExchange(hs).hs;
    SendKeeps(hs, hs', 10, SentKeyExchange);
  }

  lemma SendCertVerifyKeeps(hs: Hs, t: Turn)
    requires Inv(hs) && CW_CERT_VRFY_A <= hs.state <= CW_CERT_VRFY_B
    ensures Kept(hs, SendCertVerify(hs, t))
  {
    var hs' := SendCertVerify(hs, t).hs;
    if hs.certRequest && t.hasCert {
      VerifyLater(FactsOf(hs));
      SendKeeps(hs, hs', 11, SentCertVerify);
    } else {
      SkipKeeps(hs, hs', 11);
    }
  }

  lemma SendChangeCipherSpecKeeps(hs: Hs)
    requires Inv(hs) && hs.state == CW_CHANGE
    ensures Kept(hs, SendChangeCipherSpec(hs))
  {
    var hs' := SendChangeCipherSpec(hs).hs;
    if hs.session { SendKeeps(hs, hs', 6, SentCcs); } else { SendKeeps(hs, hs', 12, SentCcs); }
  }

  lemma NextProtoSent(hs: Hs, hs': Hs)
    requires Inv(hs) && hs.state == CW_NEXT_PROTO && hs.hello.nextProto && hs'.state == CW_CHANNEL_ID
    requires FactsOf(hs') == FactsOf(hs)
    requires hs'.trace == hs.trace + [SentNextProto] && hs'.flight == hs.flight + [SentNextProto]
    ensures OnTrack(hs') && Queue(hs')
  {
    if hs.session { SendKeeps(hs, hs', 7, SentNextProto); } else { SendKeeps(hs, hs', 13, SentNextProto); }
  }

  lemma NextProtoSkipped(hs: Hs, hs': Hs)
    requires Inv(hs) && hs.state == CW_NEXT_PROTO && !hs.hello.nextProto && hs' == hs.(state := CW_CHANNEL_ID)
    ensures OnTrack(hs') && Queue(hs')
  {
    if hs.session { SkipKeeps(hs, hs', 7); } else { SkipKeeps(hs, hs', 13); }
  }

  lemma SendNextProtoKeeps(hs: Hs)
    requires Inv(hs) && hs.state == CW_NEXT_PROTO
    ensures Kept(hs, SendNextProto(hs))
  {
    var hs' := SendNextProto(hs).hs;
    if hs.hello.nextProto { NextProtoSent(hs, hs'); } else { NextProtoSkipped(hs, hs'); }
  }

  lemma ChannelIdSent(hs: Hs, hs': Hs)
    requires Inv(hs) && hs.state == CW_CHANNEL_ID && hs.hello.channelId && hs'.state == CW_FINISHED
    requires FactsOf(hs') == FactsOf(hs)
    requires hs'.trace == hs.trace + [SentChannelId] && hs'.flight == hs.flight + [SentChannelId]
    ensures OnTrack(hs') && Queue(hs')
  {
    if hs.session { SendKeeps(hs, hs', 8, SentChannelId); } else { SendKeeps(hs, hs', 14, SentChannelId); }
  }

  lemma ChannelIdSkipped(hs: Hs, hs': Hs)
    requires Inv(hs) && hs.state == CW_CHANNEL_ID && !hs.hello.channelId && hs' == hs.(state := CW_FINISHED)
    ensures OnTrack(hs') && Queue(hs')
  {
    if hs.session { SkipKeeps(hs, hs', 8); } else { SkipKeeps(hs, hs', 14); }
  }

  lemma SendChannelIdKeeps(hs: Hs)
    requires Inv(hs) && hs.state == CW_CHANNEL_ID
    ensures Kept(hs, SendChannelId(hs))
  {
    var hs' := SendChannelId(hs).hs;
    if hs.hello.channelId { ChannelIdSent(hs, hs'); } else { ChannelIdSkipped(hs, hs'); }
  }

  lemma SendFinishedKeeps(hs: Hs, t: Turn)
    requires Inv(hs) && hs.state == CW_FINISHED
    ensures Kept(hs, SendFinished(hs, t))
  {
    var hs' := SendFinished(hs, t).hs;
    if hs.session {
      SendKeeps(hs, hs', 9, SentFinished);
    } else if !hs'.dead {
      SendKeeps(hs, hs', 15, SentFinished);
    }
  }

  lemma StartEarlyKeeps(hs: Hs)
    requires Inv(hs) && hs.state == FALSE_START
    ensures Kept(hs, StartEarly(hs))
  {
    MovesKeep(hs, StartEarly(hs).hs);
  }

  lemma TicketSkipped(hs: Hs, hs': Hs)
    requires Inv(hs) && hs.state == CR_SESSION_TICKET && !hs.hello.ticketExpected && hs' == hs.(state := CR_CHANGE)
    ensures OnTrack(hs') && Queue(hs')
  {
    if hs.session { Omitted(hs, hs', 3); } else { Omitted(hs, hs', 16); }
    if hs.session { Unchanged(hs, hs', 3); } else { Unchanged(hs, hs', 16); }
  }

  lemma TicketRead(hs: Hs, hs': Hs)
    requires Inv(hs) && hs.state == CR_SESSION_TICKET && hs.hello.ticketExpected && hs'.state == CR_CHANGE
    requires FactsOf(hs') == FactsOf(hs) && hs'.trace == hs.trace + [ReadTicket] && hs'.flight == hs.flight
    ensures OnTrack(hs') && Queue(hs')
  {
    if hs.session { Happens(hs, hs', 3, ReadTicket); } else { Happens(hs, hs', 16, ReadTicket); }
    if hs.session { Unchanged(hs, hs', 3); } else { Unchanged(hs, hs', 16); }
  }

  lemma GetNewSessionTicketKeeps(hs: Hs, t: Turn)
    requires Inv(hs) && hs.state == CR_SESSION_TICKET
    ensures Kept(hs, GetNewSessionTicket(hs, t))
  {
    var hs' := GetNewSessionTicket(hs, t).hs;
    if !hs.hello.ticketExpected {
      TicketSkipped(hs, hs');
    } else if !hs'.dead {
      TicketRead(hs, hs');
    }
  }

  lemma ReadChangeCipherSpecKeeps(hs: Hs)
    requires Inv(hs) && hs.state == CR_CHANGE
    ensures Kept(hs, ReadChangeCipherSpec(hs))
  {
    var hs', n := ReadChangeCipherSpec(hs).hs, if hs.session then 4 else 17;
    Happens(hs, hs', n, ReadCcs);
    Unchanged(hs, hs', n);
  }

  lemma GetFinishedKeeps(hs: Hs, t: Turn)
    requires Inv(hs) && hs.state == CR_FINISHED
    ensures Kept(hs, GetFinished(hs, t))
  {
    var hs' := GetFinished(hs, t).hs;
    if !hs'.dead {
      Happens(hs, hs', if hs.session then 5 else 18, ReadFinished);
      Cleared(hs');
    }
  }

  lemma FlushKeeps(hs: Hs)
    requires Inv(hs) && hs.state == CW_FLUSH
    ensures Kept(hs, To(hs, hs.nextState))
  {
    MovesKeep(hs, To(hs, hs.nextState).hs);
  }

  lemma FinishKeeps(hs: Hs)
    requires Inv(hs) && hs.state == FINISH_HANDSHAKE
    ensures Kept(hs, To(hs.(current := None), SSL_ST_OK))
  {
    MovesKeep(hs, To(hs.(current := None), SSL_ST_OK).hs);
  }

  /** Every turn keeps the invariant, unless it ends the connection. */
  lemma GoKeeps(hs: Hs, t: Turn)
    requires Inv(hs)
    ensures Kept(hs, Go(hs, t))
  {
    var s := hs.state;
    if s == SSL_ST_INIT { InitKeeps(hs); }
    else if s == CW_CLNT_HELLO { SendClientHelloKeeps(hs, t); }
    else if s == CR_HELLO_VERIFY { GetHelloVerifyKeeps(hs, t); }
    else if s == CR_SRVR_HELLO { GetServerHelloKeeps(hs, t); }
    else if s == CR_CERT { GetServerCertificateKeeps(hs, t); }
    else if s == CR_CERT_STATUS { GetCertStatusKeeps(hs, t); }
    else if s == VERIFY_SERVER_CERT { VerifyServerCertKeeps(hs); }
    else if s == CR_KEY_EXCH { GetServerKeyExchangeKeeps(hs, t); }
    else if s == CR_CERT_REQ { GetCertificateRequestKeeps(hs, t); }
    else if s == CR_SRVR_DONE { GetServerHelloDoneKeeps(hs, t); }
    else if s == CW_CERT { SendClientCertificateKeeps(hs); }
    else if s == CW_KEY_EXCH { SendClientKeyExchangeKeeps(hs); }
    else if s == CW_CERT_VRFY_A || s == CW_CERT_VRFY_B { SendCertVerifyKeeps(hs, t); }
    else if s == CW_CHANGE { SendChangeCipherSpecKeeps(hs); }
    else if s == CW_NEXT_PROTO { SendNextProtoKeeps(hs); }
    else if s == CW_CHANNEL_ID { SendChannelIdKeeps(hs); }
    else if s == CW_FINISHED { SendFinishedKeeps(hs, t); }
    else if s == FALSE_START { StartEarlyKeeps(hs); }
    else if s == CR_SESSION_TICKET { GetNewSessionTicketKeeps(hs, t); }
    else if s == CR_CHANGE { ReadChangeCipherSpecKeeps(hs); }
    else if s == CR_FINISHED { GetFinishedKeeps(hs, t); }
    else if s == CW_FLUSH { FlushKeeps(hs); }
    else if s == FINISH_HANDSHAKE { FinishKeeps(hs); }
  }

  ghost predicate Alive(hs: Hs) { hs.dead || Inv(hs) }

  lemma StopKeeps(hs: Hs, t: Turn)
    requires Alive(hs) && Stops(hs, t)
    ensures Alive(Stop(hs, t))
  {
    if !hs.dead && t.result != Fatal {
      if t.result == SignLater && CW_CERT_VRFY_A <= hs.state <= CW_CERT_VRFY_B {
        SignLaterKeeps(hs);
      } else {
        WaitingKeeps(hs);
      }
    }
  }

  lemma SignLaterKeeps(hs: Hs)
    requires Inv(hs) && CW_CERT_VRFY_A <= hs.state <= CW_CERT_VRFY_B
    ensures Inv(hs.(state := CW_CERT_VRFY_B))
  {
    MovesKeep(hs, hs.(state := CW_CERT_VRFY_B));
  }

  lemma WaitingKeeps(hs: Hs)
    requires Inv(hs)
    ensures Inv(Waiting(hs))
  {
    MovesKeep(hs, Waiting(hs));
  }

  /** Every turn keeps the invariant, unless it ends the connection. */
  lemma StepKeeps(hs: Hs, t: Turn)
    requires Alive(hs)
    ensures Alive(Step(hs, t).hs)
  {
    if Stops(hs, t) { StopKeeps(hs, t); } else { GoKeeps(hs, t); }
  }

  lemma {:induction false} ConnectKeeps(hs: Hs, ts: seq<Turn>)
    requires Alive(hs)
    ensures Alive(Connect(hs, ts).0)
    decreases |ts|
  {
    if ts != [] {
      StepKeeps(hs, ts[0]);
      if Step(hs, ts[0]).Again? { ConnectKeeps(Step(hs, ts[0]).hs, ts[1..]); }
    }
  }

  lemma {:induction false} RunKeeps(hs: Hs, calls: seq<seq<Turn>>)
    requires Alive(hs)
    ensures Alive(Run(hs, calls))
    decreases |calls|
  {
    if calls != [] {
      ConnectKeeps(hs, calls[0]);
      RunKeeps(Connect(hs, calls[0]).0, calls[1..]);
    }
  }

  /** What may come together in a handshake: cookies are for DTLS, a CertificateStatus is one that was announced, a
      CertificateRequest needs a cipher with certificates, a CertificateVerify needs a CertificateRequest, and a
      cipher that needs a ServerKeyExchange has had one. */
  predicate Possible(f: Facts, dtls: bool) {
    && (f.cookie ==> dtls) && Allowed(f)
    && (!f.session && f.hello.needsKeyExchange ==> f.past.exchanged)
  }

  lemma CompleteMeansWhole(hs: Hs)
    requires Inv(hs) && hs.state == SSL_ST_OK
    ensures hs.trace == Handshake(FactsOf(hs)) && Possible(FactsOf(hs), hs.dtls)
  {
  }

  /** One event comes before another. */
  ghost predicate Precedes(s: seq<Event>, a: Event, b: Event) {
    exists i, j :: 0 <= i < j < |s| && s[i] == a && s[j] == b
  }

  /** What is in none of the parts is not in the whole. */
  lemma {:induction false} NotInJoined(p: nat -> seq<Event>, a: nat, b: nat, e: Event)
    requires forall k :: a < k <= b ==> e !in p(k)
    ensures e !in Joined(p, a, b)
    decreases b
  {
    if b > a { NotInJoined(p, a, b - 1, e); }
  }

  /** What is in a part is in the whole. */
  lemma {:induction false} InJoined(p: nat -> seq<Event>, i: nat, m: nat, a: Event)
    requires 0 < i <= m && a in p(i)
    ensures a in Joined(p, 0, m)
    decreases m
  {
    if i < m { InJoined(p, i, m - 1, a); }
  }

  lemma PrecedesNext(s: seq<Event>, t: seq<Event>, a: Event, b: Event)
    requires Precedes(s, a, b) || (a in s && t == [b])
    ensures Precedes(s + t, a, b)
  {
    if Precedes(s, a, b) {
      var i, j :| 0 <= i < j < |s| && s[i] == a && s[j] == b;
      assert (s + t)[i] == a && (s + t)[j] == b;
    } else {
      var i :| 0 <= i < |s| && s[i] == a;
      assert (s + t)[i] == a && (s + t)[|s|] == b;
    }
  }

  /** What is in an earlier part precedes what a later one holds. */
  lemma {:induction false} JoinedPrecede(p: nat -> seq<Event>, i: nat, j: nat, m: nat, a: Event, b: Event)
    requires 0 < i < j <= m && a in p(i) && p(j) == [b]
    ensures Precedes(Joined(p, 0, m), a, b)
    decreases m
  {
    if j == m {
      InJoined(p, i, m - 1, a);
    } else {
      JoinedPrecede(p, i, j, m - 1, a, b);
    }
    PrecedesNext(Joined(p, 0, m - 1), p(m), a, b);
  }

  /** If b belongs in part j only, it never comes without a, which makes up an earlier part. */
  lemma NeverWithout(p: nat -> seq<Event>, i: nat, j: nat, m: nat, a: Event, b: Event)
    requires 0 < i < j && p(i) == [a] && (p(j) == [b] || b !in p(j))
    requires forall k :: 0 < k && k != j ==> b !in p(k)
    ensures b in Joined(p, 0, m) ==> Precedes(Joined(p, 0, m), a, b)
  {
    if j <= m && p(j) == [b] {
      JoinedPrecede(p, i, j, m, a, b);
    } else {
      NotInJoined(p, 0, m, b);
    }
  }

  /** Nothing follows the last part, if it occurs only once. */
  lemma LastIsLast(p: nat -> seq<Event>, last: nat, m: nat, a: Event, b: Event)
    requires 0 < last && m <= last && p(last) == [a] && forall k :: 0 < k < last ==> a !in p(k)
    ensures !Precedes(Joined(p, 0, m), a, b)
  {
    if m < last {
      NotInJoined(p, 0, m, a);
    } else {
      NotInJoined(p, 0, m - 1, a);
    }
  }

  /** Where the events of interest belong. */
  lemma SessionPlaces(f: Facts, k: nat)
    requires f.session
    ensures (SentCcs in Part(f, k) ==> k == 7) && (SentFinished in Part(f, k) ==> k == 10)
  {
  }

  lemma FullPlaces(f: Facts, k: nat)
    requires !f.session
    ensures VerifiedCert in Part(f, k) ==> k == 6
    ensures ReadKeyExchange in Part(f, k) ==> k == 7
    ensures SentKeyExchange in Part(f, k) ==> k == 11
    ensures ReadCcs in Part(f, k) ==> k == 18
    ensures ReadFinished in Part(f, k) ==> k == 19
  {
  }

  lemma AllSessionPlaces(f: Facts)
    requires f.session
    ensures forall k: nat :: (SentCcs in PartOf(f)(k) ==> k == 7) && (SentFinished in PartOf(f)(k) ==> k == 10)
  {
    forall k: nat ensures (SentCcs in PartOf(f)(k) ==> k == 7) && (SentFinished in PartOf(f)(k) ==> k == 10) {
      SessionPlaces(f, k);
    }
  }

  /** No event of interest is in two parts of a full handshake. */
  ghost predicate EachOnce(p: nat -> seq<Event>) {
    forall k: nat ::
      && (VerifiedCert in p(k) ==> k == 6) && (ReadKeyExchange in p(k) ==> k == 7)
      && (SentKeyExchange in p(k) ==> k == 11)
      && (ReadCcs in p(k) ==> k == 18) && (ReadFinished in p(k) ==> k == 19)
  }

  lemma AllFullPlaces(f: Facts)
    requires !f.session
    ensures EachOnce(PartOf(f))
  {
    forall k: nat
      ensures var e := PartOf(f)(k);
              && (VerifiedCert in e ==> k == 6) && (ReadKeyExchange in e ==> k == 7)
              && (SentKeyExchange in e ==> k == 11)
              && (ReadCcs in e ==> k == 18) && (ReadFinished in e ==> k == 19)
    {
      FullPlaces(f, k);
    }
  }

  lemma SessionOrder(f: Facts, m: nat)
    requires f.session && m <= 10
    ensures SentCcs in Parts(f, 0, m) ==> Precedes(Parts(f, 0, m), ReadFinished, SentCcs)
    ensures !Precedes(Parts(f, 0, m), SentFinished, ReadCcs)
  {
    AllSessionPlaces(f);
    NeverWithout(PartOf(f), 6, 7, m, ReadFinished, SentCcs);
    LastIsLast(PartOf(f), 10, m, SentFinished, ReadCcs);
    PartsJoined(f, 0, m);
  }

  lemma FullOrder(f: Facts, m: nat)
    requires !f.session && m <= 19
    ensures ReadCcs in Parts(f, 0, m) ==> Precedes(Parts(f, 0, m), SentFinished, ReadCcs)
    ensures !Precedes(Parts(f, 0, m), ReadFinished, SentCcs)
  {
    AllFullPlaces(f);
    NeverWithout(PartOf(f), 16, 18, m, SentFinished, ReadCcs);
    LastIsLast(PartOf(f), 19, m, ReadFinished, SentCcs);
    PartsJoined(f, 0, m);
  }

  lemma VerifiedFirst(f: Facts, m: nat)
    requires !f.session && f.hello.certAuth
    ensures VerifiedCert in Parts(f, 0, m) ==> Precedes(Parts(f, 0, m), ReadCert, VerifiedCert)
    ensures SentKeyExchange in Parts(f, 0, m) ==> Precedes(Parts(f, 0, m), VerifiedCert, SentKeyExchange)
    ensures ReadKeyExchange in Parts(f, 0, m) ==> Precedes(Parts(f, 0, m), VerifiedCert, ReadKeyExchange)
  {
    AllFullPlaces(f);
    NeverWithout(PartOf(f), 4, 6, m, ReadCert, VerifiedCert);
    NeverWithout(PartOf(f), 6, 11, m, VerifiedCert, SentKeyExchange);
    NeverWithout(PartOf(f), 6, 7, m, VerifiedCert, ReadKeyExchange);
    PartsJoined(f, 0, m);
  }

  // ----- what holds on every run -----

  /** The client after any number of calls of ssl3_connect. */
  function After(dtls: bool, offersSession: bool, calls: seq<seq<Turn>>): Hs { Run(Start(dtls, offersSession), calls) }

  lemma AfterAlive(dtls: bool, offersSession: bool, calls: seq<seq<Turn>>)
    ensures Alive(After(dtls, offersSession, calls))
  {
    StartInv(dtls, offersSession);
    RunKeeps(Start(dtls, offersSession), calls);
  }

  /** Safety: whatever the peer, the network and the application do, and however often the handshake blocks and is
      taken up again, a handshake that completes has done exactly what Handshake lists, in that order and nothing
      else, and has left out no message that its cipher needs. */
  lemma CompletesInOrder(dtls: bool, offersSession: bool, calls: seq<seq<Turn>>)
    requires var hs := After(dtls, offersSession, calls); !hs.dead && hs.state == SSL_ST_OK
    ensures var hs := After(dtls, offersSession, calls);
            hs.trace == Handshake(FactsOf(hs)) && Possible(FactsOf(hs), hs.dtls)
  {
    AfterAlive(dtls, offersSession, calls);
    CompleteMeansWhole(After(dtls, offersSession, calls));
  }

  lemma SessionBehind(hs: Hs)
    requires Inv(hs)
    ensures Behind(hs) <= if hs.session then 10 else 19
  {
  }

  /** On every run, complete or not: if the client has sent its ChangeCipherSpec, the server's Finished came before
      it if and only if the session is resumed; if the server's has been read, the client's Finished came before it
      if and only if it is not. */
  lemma ServerFirstIffResumed(dtls: bool, offersSession: bool, calls: seq<seq<Turn>>)
    requires !After(dtls, offersSession, calls).dead
    ensures var hs := After(dtls, offersSession, calls);
            && (SentCcs in hs.trace ==> (Precedes(hs.trace, ReadFinished, SentCcs) <==> hs.session))
            && (ReadCcs in hs.trace ==> (Precedes(hs.trace, SentFinished, ReadCcs) <==> !hs.session))
  {
    var hs := After(dtls, offersSession, calls);
    AfterAlive(dtls, offersSession, calls);
    SessionBehind(hs);
    if hs.session { SessionOrder(FactsOf(hs), Behind(hs)); } else { FullOrder(FactsOf(hs), Behind(hs)); }
  }

  /** On every run, complete or not: with a certificate cipher and no resumed session, the certificate is read before
      it is verified, and verified before the key exchange is read or sent. */
  lemma CertificateVerifiedFirst(dtls: bool, offersSession: bool, calls: seq<seq<Turn>>)
    requires var hs := After(dtls, offersSession, calls); !hs.dead && !hs.session && hs.hello.certAuth
    ensures var hs := After(dtls, offersSession, calls);
            && (VerifiedCert in hs.trace ==> Precedes(hs.trace, ReadCert, VerifiedCert))
            && (SentKeyExchange in hs.trace ==> Precedes(hs.trace, VerifiedCert, SentKeyExchange))
            && (ReadKeyExchange in hs.trace ==> Precedes(hs.trace, VerifiedCert, ReadKeyExchange))
  {
    var hs := After(dtls, offersSession, calls);
    AfterAlive(dtls, offersSession, calls);
    VerifiedFirst(FactsOf(hs), Behind(hs));
  }

  // ----- the flight -----

  lemma QueueSpan(hs: Hs)
    requires Shape(hs) && Queues(hs.state)
    ensures 1 <= QueuedFrom(hs) <= QueuedTo(hs) < QueuedFrom(hs) + HandshakeWire.FLIGHT
  {
  }

  lemma RoomToQueue(hs: Hs)
    requires Inv(hs) && Queues(hs.state)
    ensures |hs.flight| < HandshakeWire.FLIGHT
  {
    QueueSpan(hs);
    PartsLength(FactsOf(hs), QueuedFrom(hs), QueuedTo(hs));
  }

  /** The flight bound, on every run: whenever a message is queued, fewer than SSL_MAX_HANDSHAKE_FLIGHT are, so that the
      assertion in add_outgoing cannot fail. */
  lemma FlightNeverFull(dtls: bool, offersSession: bool, calls: seq<seq<Turn>>, t: Turn)
    requires var hs := After(dtls, offersSession, calls); !hs.dead && |Go(hs, t).hs.flight| > |hs.flight|
    ensures |After(dtls, offersSession, calls).flight| < HandshakeWire.FLIGHT
  {
    AfterAlive(dtls, offersSession, calls);
    GoKeeps(After(dtls, offersSession, calls), t);
    RoomToQueue(After(dtls, offersSession, calls));
  }

  lemma SpanAtMost(hs: Hs)
    requires Shape(hs)
    ensures 1 <= QueuedFrom(hs) <= QueuedTo(hs) <= QueuedFrom(hs) + HandshakeWire.FLIGHT
  {
  }

  /** On every run the queue never has more messages than parts, and those are at most SSL_MAX_HANDSHAKE_FLIGHT. */
  lemma QueueLength(dtls: bool, offersSession: bool, calls: seq<seq<Turn>>)
    requires !After(dtls, offersSession, calls).dead
    ensures var hs := After(dtls, offersSession, calls);
            |hs.flight| <= QueuedTo(hs) - QueuedFrom(hs) <= HandshakeWire.FLIGHT
  {
    var hs := After(dtls, offersSession, calls);
    AfterAlive(dtls, offersSession, calls);
    SpanAtMost(hs);
    PartsLength(FactsOf(hs), QueuedFrom(hs), QueuedTo(hs));
  }

  /** Whenever the client's second flight goes out, it is exactly the parts from its certificate, or its
      ChangeCipherSpec if the session is resumed, to its Finished. */
  lemma FlushesWholeFlight(dtls: bool, offersSession: bool, calls: seq<seq<Turn>>)
    requires var hs := After(dtls, offersSession, calls); !hs.dead && hs.state == CW_FLUSH && !BeforeServerHello(hs)
    ensures var hs := After(dtls, offersSession, calls);
            hs.flight == if hs.session then Parts(FactsOf(hs), 6, 10) else Parts(FactsOf(hs), 9, 16)
  {
    AfterAlive(dtls, offersSession, calls);
  }

  // ----- pushing back -----

  /** On every run a pushed-back message is there to be read again, and none is pushed back when the read cipher
      changes. */
  lemma PushBackSound(dtls: bool, offersSession: bool, calls: seq<seq<Turn>>)
    requires !After(dtls, offersSession, calls).dead
    ensures var hs := After(dtls, offersSession, calls);
            (hs.reuse ==> hs.current.Some?) && (hs.state == CR_CHANGE ==> !hs.reuse)
  {
    AfterAlive(dtls, offersSession, calls);
  }

  // ----- progress -----

  /** A turn in which everything goes well brings the handshake nearer to its end. */
  lemma StepProgresses(hs: Hs, t: Turn)
    requires Inv(hs) && !hs.dead && hs.state != SSL_ST_OK && t.result == Ok && !Step(hs, t).hs.dead
    ensures Rank(Step(hs, t).hs) < Rank(hs)
  {
    GoKeeps(hs, t);
  }

  // ----- a failure that leaves a stale state behind -----

  lemma StaleIff(hs: Hs, t: Turn)
    requires Shape(hs) && !hs.dead && hs.state == CW_FINISHED && t.result == Ok
    ensures var hs' := Step(hs, t).hs;
            && hs'.state == CW_FLUSH && (hs'.dead <==> BeforeServerHello(hs'))
            && (BeforeServerHello(hs') <==> !hs.session && !t.hashesOk) && Go(hs', t).hs.state == hs'.nextState
  {
  }

  /** When the channel ID hashes cannot be recorded, the state has changed already but next_state has not.  In that
      case and no other it still is the one of the first flight, so that going on would wait for another ServerHello
      after the client's Finished. */
  lemma FailedHashesLeaveStaleState(dtls: bool, offersSession: bool, calls: seq<seq<Turn>>, t: Turn)
    requires var hs := After(dtls, offersSession, calls); !hs.dead && hs.state == CW_FINISHED && t.result == Ok
    ensures var hs := After(dtls, offersSession, calls);
            var hs' := Step(hs, t).hs;
            && hs'.state == CW_FLUSH && (hs'.dead <==> BeforeServerHello(hs'))
            && (BeforeServerHello(hs') <==> !hs.session && !t.hashesOk) && Go(hs', t).hs.state == hs'.nextState
  {
    AfterAlive(dtls, offersSession, calls);
    StaleIff(After(dtls, offersSession, calls), t);
  }

  /** A turn of a handshake over TLS without certificates or extensions, in which the hashes cannot be recorded. */
  function Calm(msg: MsgType): Turn { Turn(Ok, msg, NO_HELLO, true, false, false, false) }

  function Calms(msg: MsgType, n: nat): seq<Turn> { if n == 0 then [] else [Calm(msg)] + Calms(msg, n - 1) }

  /** Such a handshake at a state. */
  predicate Plain(hs: Hs, s: State) {
    && !hs.dead && hs.state == s && !hs.dtls && !hs.session && hs.hello == NO_HELLO && !hs.certRequest
    && (hs.reuse ==> hs.current.Some?) && (s > CW_CLNT_HELLO ==> hs.nextState == CR_SRVR_HELLO)
    && (CR_CERT_REQ <= s <= CR_SRVR_DONE ==> hs.reuse && hs.current == Some(MT_SERVER_HELLO_DONE))
    && (s <= CR_KEY_EXCH || s == CW_FLUSH ==> !hs.reuse)
  }

  /** The state after it. */
  function AfterPlain(s: State): State {
    if s == CW_CLNT_HELLO then CW_FLUSH else if s == CW_FLUSH then CR_SRVR_HELLO
    else if s == CW_CERT_VRFY_A then CW_CHANGE else s + 1
  }

  lemma PlainHello(hs: Hs, s: State)
    requires Plain(hs, s) && (s <= CW_CLNT_HELLO || s == CW_FLUSH || s == CR_SRVR_HELLO)
    ensures var o := Step(hs, Calm(MT_SERVER_HELLO)); o.Again? && Plain(o.hs, AfterPlain(s))
  {
  }

  lemma PlainRest(hs: Hs, s: State)
    requires Plain(hs, s) && CR_CERT <= s < CW_FINISHED && s != CW_CERT_VRFY_B
    ensures var o := Step(hs, Calm(MT_SERVER_HELLO_DONE)); o.Again? && Plain(o.hs, AfterPlain(s))
  {
  }

  /** How many turns it takes to the end of the ServerHello, and from there to the client's Finished. */
  function HelloTurns(s: State): nat {
    if s == SSL_ST_INIT then 4 else if s == CW_CLNT_HELLO then 3 else if s == CW_FLUSH then 2 else 1
  }

  function RestTurns(s: State): nat { if s <= CW_CERT_VRFY_A then 17 - s else if s <= CW_FINISHED then 18 - s else 0 }

  lemma {:induction false} HelloPart(hs: Hs, s: State, rest: seq<Turn>) returns (hs': Hs)
    requires Plain(hs, s) && (s <= CW_CLNT_HELLO || s == CW_FLUSH || s == CR_SRVR_HELLO)
    ensures Plain(hs', CR_CERT) && Connect(hs, Calms(MT_SERVER_HELLO, HelloTurns(s)) + rest) == Connect(hs', rest)
    decreases HelloTurns(s)
  {
    var ts := Calms(MT_SERVER_HELLO, HelloTurns(s) - 1);
    PlainHello(hs, s);
    hs' := Step(hs, Calm(MT_SERVER_HELLO)).hs;
    MoreTurns(hs, Calm(MT_SERVER_HELLO), ts, rest);
    if s != CR_SRVR_HELLO {
      hs' := HelloPart(hs', AfterPlain(s), rest);
    } else {
      assert [] + rest == rest;
    }
  }

  lemma MoreTurns(hs: Hs, t: Turn, ts: seq<Turn>, rest: seq<Turn>)
    requires Step(hs, t).Again?
    ensures Connect(hs, [t] + ts + rest) == Connect(Step(hs, t).hs, ts + rest)
  {
    assert ([t] + ts + rest)[1..] == ts + rest;
  }

  lemma {:induction false} RestPart(hs: Hs, s: State)
    requires Plain(hs, s) && CR_CERT <= s <= CW_FINISHED && s != CW_CERT_VRFY_B
    ensures var hs' := Connect(hs, Calms(MT_SERVER_HELLO_DONE, RestTurns(s))).0;
            hs'.dead && hs'.state == CW_FLUSH && hs'.nextState == CR_SRVR_HELLO
    decreases CW_FINISHED - s
  {
    if s < CW_FINISHED {
      PlainRest(hs, s);
      RestPart(Step(hs, Calm(MT_SERVER_HELLO_DONE)).hs, AfterPlain(s));
      Consed(MT_SERVER_HELLO_DONE, RestTurns(s));
    } else {
      FinishedFails(hs);
    }
  }

  lemma Consed(msg: MsgType, n: nat)
    requires n > 0
    ensures Calms(msg, n)[0] == Calm(msg) && Calms(msg, n)[1..] == Calms(msg, n - 1)
  {
  }

  lemma FinishedFails(hs: Hs)
    requires Plain(hs, CW_FINISHED)
    ensures var o := Connect(hs, Calms(MT_SERVER_HELLO_DONE, 1));
            o.0.dead && o.0.state == CW_FLUSH && o.0.nextState == CR_SRVR_HELLO
  {
  }

  /** A run that leaves the stale state behind. */
  lemma StaleStateReached()
    ensures var hs := After(false, false, [Calms(MT_SERVER_HELLO, 4) + Calms(MT_SERVER_HELLO_DONE, 13)]);
            hs.dead && hs.state == CW_FLUSH && hs.nextState == CR_SRVR_HELLO
  {
    var ts := Calms(MT_SERVER_HELLO, 4) + Calms(MT_SERVER_HELLO_DONE, 13);
    var hs := HelloPart(Start(false, false), SSL_ST_INIT, Calms(MT_SERVER_HELLO_DONE, 13));
    RestPart(hs, CR_CERT);
    assert Run(Connect(Start(false, false), ts).0, [ts][1..]) == Connect(Start(false, false), ts).0;
  }
}
