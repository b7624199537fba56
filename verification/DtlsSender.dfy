/** The objects behind DtlsPackets: the queue of outgoing messages and the packets that are made of it, updated in place
    (d1_both.c:494-811). */
module DtlsSender {
  import opened Bits
  import opened Wrappers
  import opened HandshakeWire
  import opened DtlsRecord
  import opened DtlsReplay
  import opened DtlsFlight
  import opened DtlsPackets
  import DtlsResend

  /** kMinMTU and kDefaultMTU */
  const MIN_MTU: nat := 228
  const DEFAULT_MTU: nat := 1472

  ghost predicate CanSeal(rw: RecordWriter)
    reads rw, rw.writeSequence, rw.lastWriteSequence
  {
    rw.Valid() && rw.wEpoch == rw.generation <= 1 && AeadOk(rw.aead)
  }

  function KeysIn(rw: RecordWriter): Keys
    reads rw
  {
    Keys(rw.aead, rw.WireVersion())
  }

  datatype SealResult = NothingSealed | Unsealed | SealedRecord(out: seq<byte>, partial: bool)

  /** A result and what it moves on to, against what the model says. */
  ghost predicate Follows(t: Tried, res: SealResult, p: Place, q: Place, w: Writer, r: Wrapped) {
    match t
    case NoProgress => res.NothingSealed? && q == p
    case SealError(w') => res.Unsealed? && q == p && w == w'
    case Sealed(r', q', w') =>
      res == SealedRecord(r.bytes, q.written == p.written) && r == r' && q == q' && w == w'
  }

  const NO_RECORD: Wrapped := Wrapped(CcsPiece(0), [], None, 0, 0, 0)

  /** What dtls_seal_record says, in terms of the model. */
  lemma PieceOutcome(w: Writer, k: Keys, ms: seq<Outgoing>, p: Place, x: Piece, maxOut: nat, op: Op, w': Writer,
                     out: Option<seq<byte>>)
    requires Fits(ms, p, x) && op == OpFor(w.epoch, ms[p.written].epoch)
    requires var (epoch, number) := Taken(w, op)[0];
             var text := TextOf(w, k, op, x);
             var sealed := text.Some? && RT_HEADER + |text.value| <= maxOut;
             && w' == (if sealed then Advance(w, op) else w)
             && (out.Some? <==> sealed && |text.value| < 0x1_0000 && number + 1 < EPOCH_UNIT)
             && (out.Some? ==>
                   IsSealed(out.value, CipherFor(k, op), PieceType(x), k.version, epoch, number, PieceBytes(x)))
    ensures var t := TryPiece(w, k, ms, p, x, maxOut);
            if out.None? then t == SealError(w')
            else t == Sealed(Wrap(w, k, op, x), After(ms, p, x), w') && t.r.bytes == out.value
  {
  }

  /** The call of dtls_seal_record for a piece of the next message. */
  method SealPiece(rw: RecordWriter, ms: seq<Outgoing>, p: Place, x: Piece, maxOut: nat)
    returns (res: SealResult, q: Place, ghost r: Wrapped)
    requires CanSeal(rw) && Fits(ms, p, x)
    modifies rw`log, rw.writeSequence, rw.lastWriteSequence
    ensures CanSeal(rw)
    ensures Follows(TryPiece(old(rw.Abs()), KeysIn(rw), ms, p, x, maxOut), res, p, q, rw.Abs(), r)
  {
    ghost var w, k := rw.Abs(), KeysIn(rw);
    var op := OpFor(rw.wEpoch, ms[p.written].epoch);
    var sealed := rw.SealRecord(PieceType(x), PieceBytes(x), op.SealPrevious?, maxOut);
    PieceOutcome(w, k, ms, p, x, maxOut, op, rw.Abs(), sealed);
    q, r := p, NO_RECORD;
    if sealed.None? {
      return Unsealed, q, r;
    }
    q := After(ms, p, x);
    r := Wrap(w, k, op, x);
    return SealedRecord(sealed.value, q.written == p.written), q, r;
  }

  /** What every queued message is: of an epoch that has begun, and a serialised message unless ChangeCipherSpec. */
  predicate QueueOk(ms: seq<Outgoing>, wEpoch: nat) {
    ms == [] || (QueueOk(ms[..|ms|-1], wEpoch) && EntryOk(ms[|ms|-1], wEpoch))
  }

  predicate EntryOk(o: Outgoing, wEpoch: nat) { o.epoch <= wEpoch && (o.isCcs || Whole(o.data).Some?) }

  lemma {:induction false} FlightGrows(ms: seq<Outgoing>, msgs: seq<Message>, msgs': seq<Message>)
    requires FlightOf(ms, msgs) && msgs <= msgs'
    ensures FlightOf(ms, msgs')
  {
    if ms != [] { FlightGrows(ms[..|ms|-1], msgs, msgs'); }
  }

  /** A function that says what seal_next_message does with these keys and messages. */
  ghost predicate Serves(make: Maker, k: Keys, ms: seq<Outgoing>) {
    forall w, p, room: nat {:trigger TryNext(w, k, ms, p, room)} ::
      PlaceOk(ms, p) && p.written < |ms| ==> make(w, p, room) == TryNext(w, k, ms, p, room)
  }

  lemma MakerServes(k: Keys, ms: seq<Outgoing>)
    ensures Serves(MakerOf(k, ms), k, ms)
  {
  }

  /** seal_next_message: the next message moves the flight on by one record, or not at all. */
  method SealNextMessage(rw: RecordWriter, ms: seq<Outgoing>, p: Place, maxOut: nat, ghost k: Keys, ghost make: Maker)
    returns (res: SealResult, q: Place, ghost r: Wrapped)
    requires CanSeal(rw) && PlaceOk(ms, p) && p.written < |ms| && k == KeysIn(rw) && Serves(make, k, ms)
    modifies rw`log, rw.writeSequence, rw.lastWriteSequence
    ensures CanSeal(rw)
    ensures Follows(make(old(rw.Abs()), p, maxOut), res, p, q, rw.Abs(), r)
    ensures res.Unsealed? <==> Unsealable(old(rw.Abs()), KeysIn(rw), ms, p, maxOut)
    ensures PlaceOk(ms, q) && (res.NothingSealed? ==> rw.Abs() == old(rw.Abs()))
    ensures res.SealedRecord? ==> |res.out| <= maxOut && q.written >= p.written
  {
    q, r := p, NO_RECORD;
    assert make(rw.Abs(), p, maxOut) == TryNext(rw.Abs(), KeysIn(rw), ms, p, maxOut);
    FailsIffUnsealable(rw.Abs(), KeysIn(rw), ms, p, maxOut);
    match Choose(rw.wEpoch, KeysIn(rw), ms, p, maxOut)
    case NoRoom => res := NothingSealed;
    case Corrupt => res := Unsealed;
    case Next(x) => res, q, r := SealPiece(rw, ms, p, x, maxOut);
  }

  /** The records of a packet so far, and what the rest of it will be. */
  ghost predicate SoFar(n: Packet, make: Maker, end: nat, rs: seq<Wrapped>, w: Writer, q: Place, room: nat, full: bool)
  {
    n == if full then Packet(rs, q, w, false) else Prepend(rs, NextPacket(make, end, w, q, room))
  }

  /** One turn of the loop of seal_next_packet. */
  method SealMore(rw: RecordWriter, ms: seq<Outgoing>, p: Place, room: nat, ghost k: Keys, ghost make: Maker,
                  ghost n: Packet, ghost rs: seq<Wrapped>)
    returns (res: SealResult, q: Place, ghost r: Wrapped)
    requires CanSeal(rw) && PlaceOk(ms, p) && p.written < |ms| && k == KeysIn(rw) && Serves(make, k, ms)
    requires SoFar(n, make, |ms|, rs, rw.Abs(), p, room, false)
    modifies rw`log, rw.writeSequence, rw.lastWriteSequence
    ensures CanSeal(rw) && PlaceOk(ms, q) && k == KeysIn(rw)
    ensures res.Unsealed? ==> q == p && n == Packet(rs, q, rw.Abs(), true)
    ensures res.NothingSealed? ==> q == p && SoFar(n, make, |ms|, rs, rw.Abs(), q, room, true)
    ensures res.SealedRecord? ==>
              && res.out == r.bytes && |res.out| <= room
              && (if res.partial then q.written == p.written else q.written > p.written)
              && SoFar(n, make, |ms|, rs + [r], rw.Abs(), q, room - |res.out|, res.partial)
  {
    PacketTurn(make, |ms|, n, rs, rw.Abs(), p, room);
    res, q, r := SealNextMessage(rw, ms, p, room, k, make);
  }

  /** seal_next_packet: it follows NextPacket, and works if and only if nothing broke and some record was sealed. */
  method SealNextPacket(rw: RecordWriter, ms: seq<Outgoing>, p: Place, maxOut: nat, ghost k: Keys, ghost make: Maker)
    returns (ok: bool, packet: seq<byte>, q: Place, ghost n: Packet)
    requires CanSeal(rw) && PlaceOk(ms, p) && p.written < |ms| && k == KeysIn(rw) && Serves(make, k, ms)
    modifies rw`log, rw.writeSequence, rw.lastWriteSequence
    ensures CanSeal(rw)
    ensures n == NextPacket(make, |ms|, old(rw.Abs()), p, maxOut)
    ensures n.w == rw.Abs() && n.to == q && packet == Packed(n.rs) && (ok <==> !n.broken && n.rs != [])
  {
    ghost var rs: seq<Wrapped> := [];
    n := NextPacket(make, |ms|, rw.Abs(), p, maxOut);
    PrependNone(n);
    packet, q := [], p;
    var room, full, madeProgress := maxOut, false, false;
    while q.written < |ms| && !full
      invariant CanSeal(rw) && PlaceOk(ms, q) && k == KeysIn(rw)
      invariant packet == Packed(rs) && (madeProgress <==> rs != [])
      invariant SoFar(n, make, |ms|, rs, rw.Abs(), q, room, full)
      decreases |ms| - q.written, !full
    {
      var res, next, r := SealMore(rw, ms, q, room, k, make, n, rs);
      match res
      case Unsealed =>
        return false, packet, q, n;
      case NothingSealed =>
        full := true;
      case SealedRecord(out, partial) =>
        PackedSnoc(rs, r);
        packet, room, q, rs := packet + out, room - |out|, next, rs + [r];
        madeProgress, full := true, partial;
    }
    assert rs + [] == rs;
    return madeProgress, packet, q, n;
  }

  /** What is known of a flight: its messages, the connection's, the next number, and where it stands.  Numbers identify
      messages as long as there are no more than 2^16. */
  predicate FlightOk(ms: seq<Outgoing>, wEpoch: nat, msgs: seq<Message>, writeSeq: nat, p: Place) {
    && writeSeq == |msgs| % 0x1_0000 && QueueOk(ms, wEpoch) && PlaceOk(ms, p)
    && (|msgs| <= 0x1_0000 ==> FlightOf(ms, msgs))
  }

  lemma PlaceStays(ms: seq<Outgoing>, o: Outgoing, p: Place)
    requires PlaceOk(ms, p)
    ensures PlaceOk(ms + [o], p)
  {
  }

  /** Queueing ChangeCipherSpec keeps all that is known of the flight. */
  lemma CcsQueued(ms: seq<Outgoing>, wEpoch: nat, msgs: seq<Message>, writeSeq: nat, p: Place)
    requires FlightOk(ms, wEpoch, msgs, writeSeq, p)
    ensures FlightOk(ms + [Outgoing([], wEpoch, true)], wEpoch, msgs, writeSeq, p)
  {
    assert (ms + [Outgoing([], wEpoch, true)])[..|ms|] == ms;
    PlaceStays(ms, Outgoing([], wEpoch, true), p);
  }

  lemma FlightQueued(ms: seq<Outgoing>, msgs: seq<Message>, o: Outgoing, m: Message)
    requires FlightOf(ms, msgs) && |msgs| < 0x1_0000 && |m.body| < 0x100_0000 && !o.isCcs
    requires o.data == EncMessage(|msgs|, m)
    ensures FlightOf(ms + [o], msgs + [m])
  {
    assert (ms + [o])[..|ms|] == ms;
    FlightGrows(ms, msgs, msgs + [m]);
    WholeMessage(|msgs|, m);
    assert IsMessage(o, msgs + [m], |msgs|);
  }

  lemma QueueGrows(ms: seq<Outgoing>, wEpoch: nat, writeSeq: nat, m: Message)
    requires QueueOk(ms, wEpoch) && writeSeq < 0x1_0000 && |m.body| < 0x100_0000
    ensures QueueOk(ms + [Outgoing(EncMessage(writeSeq, m), wEpoch, false)], wEpoch)
  {
    assert (ms + [Outgoing(EncMessage(writeSeq, m), wEpoch, false)])[..|ms|] == ms;
    WholeMessage(writeSeq, m);
  }

  /** So does queueing the next message. */
  lemma MessageQueued(ms: seq<Outgoing>, wEpoch: nat, msgs: seq<Message>, writeSeq: nat, p: Place, m: Message,
                      o: Outgoing)
    requires FlightOk(ms, wEpoch, msgs, writeSeq, p) && |m.body| < 0x100_0000
    requires o == Outgoing(EncMessage(writeSeq, m), wEpoch, false)
    ensures FlightOk(ms + [o], wEpoch, msgs + [m], (writeSeq + 1) % 0x1_0000, p)
  {
    NextNumber(|msgs|);
    QueueGrows(ms, wEpoch, writeSeq, m);
    PlaceStays(ms, o, p);
    if |msgs| < 0x1_0000 {
      assert writeSeq == |msgs|;
      FlightQueued(ms, msgs, o, m);
    }
  }

  lemma NextNumber(n: nat)
    ensures (n % 0x1_0000 + 1) % 0x1_0000 == (n + 1) % 0x1_0000
  {
  }

  /** The sending half of dtls1_state_st. */
  class OutgoingFlight {
    const rw: RecordWriter
    var messages: seq<Outgoing>         // the entries in use of outgoing_messages
    var written: nat
    var offset: nat
    var mtu: nat
    var writeSeq: nat                   // handshake_write_seq, 16 bits wide
    ghost var msgs: seq<Message>        // every handshake message added so far
    ghost var passed: seq<Piece>        // what was written since the flight was begun or rewound
    ghost var intact: bool              // nothing was skipped since then

    function At(): Place
      reads this
    {
      Place(written, offset)
    }

    ghost predicate Valid()
      reads this, rw, rw.writeSequence, rw.lastWriteSequence
    {
      && CanSeal(rw) && |messages| <= FLIGHT
      && FlightOk(messages, rw.wEpoch, msgs, writeSeq, At()) && (intact ==> Walk(messages, ORIGIN, passed, At()))
    }

    constructor (writer: RecordWriter, initialMtu: nat)
      requires CanSeal(writer)
      ensures Valid() && rw == writer && mtu == initialMtu
      ensures msgs == [] && messages == [] && passed == [] && intact
    {
      rw := writer;
      messages, written, offset, mtu, writeSeq := [], 0, 0, initialMtu, 0;
      msgs, passed, intact := [], [], true;
    }

    /** dtls_clear_outgoing_messages, which dtls1_stop_timer calls when the peer's flight has arrived. */
    method Clear()
      requires Valid()
      modifies this`messages, this`written, this`offset, this`passed, this`intact
      ensures Valid() && messages == [] && At() == ORIGIN && passed == [] && intact
    {
      messages, written, offset := [], 0, 0;
      passed, intact := [], true;
    }

    /** add_outgoing on a free entry. */
    method Append(o: Outgoing, seqAfter: nat, ghost msgs': seq<Message>)
      requires Valid() && |messages| < FLIGHT && FlightOk(messages + [o], rw.wEpoch, msgs', seqAfter, At())
      modifies this`messages, this`msgs, this`writeSeq
      ensures Valid() && messages == old(messages) + [o] && msgs == msgs' && writeSeq == seqAfter
    {
      if intact {
        WalkExtends(messages, [o], ORIGIN, passed, At());
      }
      messages, writeSeq, msgs := messages + [o], seqAfter, msgs';
    }

    /** dtls1_init_message to dtls1_add_message: a message is given the next number, and refused if it is too long, the
        flight is full or the transcript cannot take it. */
    method AddMessage(ty: byte, body: seq<byte>, transcriptOk: bool) returns (ok: bool)
      requires Valid()
      modifies this`messages, this`msgs, this`writeSeq
      ensures Valid()
      ensures ok <==> |body| < 0x100_0000 && |old(messages)| < FLIGHT && transcriptOk
      ensures if ok then
                && msgs == old(msgs) + [Message(ty, body)]
                && messages == old(messages)
                     + [Outgoing(EncMessage(|old(msgs)| % 0x1_0000, Message(ty, body)), rw.wEpoch, false)]
              else msgs == old(msgs) && messages == old(messages)
    {
      if |body| >= 0x100_0000 || |messages| >= FLIGHT || !transcriptOk {
        return false;
      }
      var m := Message(ty, body);
      var o := Outgoing(EncMessage(writeSeq, m), rw.wEpoch, false);
      MessageQueued(messages, rw.wEpoch, msgs, writeSeq, At(), m, o);
      Append(o, (writeSeq + 1) % 0x1_0000, msgs + [m]);
      return true;
    }

    /** dtls1_add_change_cipher_spec */
    method AddChangeCipherSpec() returns (ok: bool)
      requires Valid()
      modifies this`messages, this`msgs, this`writeSeq
      ensures Valid() && msgs == old(msgs)
      ensures ok <==> |old(messages)| < FLIGHT
      ensures messages == old(messages) + if ok then [Outgoing([], rw.wEpoch, true)] else []
    {
      if |messages| >= FLIGHT {
        return false;
      }
      CcsQueued(messages, rw.wEpoch, msgs, writeSeq, At());
      Append(Outgoing([], rw.wEpoch, true), writeSeq, msgs);
      return true;
    }

    /** dtls1_update_mtu; `queried` is the answer of BIO_CTRL_DGRAM_QUERY_MTU. */
    method UpdateMtu(noQuery: bool, queried: int)
      requires Valid()
      modifies this`mtu
      ensures Valid()
      ensures mtu == NewMtu(old(mtu), noQuery, queried)
    {
      if mtu < MIN_MTU && !noQuery {
        mtu := if 0 <= queried <= 0x4000_0000 && queried >= MIN_MTU then queried else DEFAULT_MTU;
      }
    }

    /** The flight moves on past what was written. */
    method Pass(q: Place, ghost ps: seq<Piece>)
      requires Valid() && Walk(messages, At(), ps, q)
      modifies this`written, this`offset, this`passed
      ensures Valid() && At() == q && passed == old(passed) + ps
    {
      WalkAhead(messages, At(), ps, q);
      if intact {
        WalkJoin(messages, ORIGIN, passed, At(), ps, q);
      }
      written, offset := q.written, q.offset;
      passed := passed + ps;
    }

    /** The flight moves on without anything being written. */
    method Skip(q: Place)
      requires Valid() && PlaceOk(messages, q)
      modifies this`written, this`offset, this`intact
      ensures Valid() && At() == q && intact == (old(intact) && q == old(At()))
    {
      intact := intact && q == At();
      written, offset := q.written, q.offset;
    }

    /** One turn of the loop of dtls1_flush_flight: a packet is sealed and written, or, if it cannot be written, the
        flight stands again where the packet began.  After a failure to seal it stands where sealing stopped. */
    method SendPacket(writable: bool, ghost k: Keys, ghost make: Maker) returns (status: Status, ghost n: Packet)
      requires Valid() && written < |messages|
      requires k == KeysIn(rw) && Serves(make, k, messages) && Lawful(make, messages)
      modifies this`written, this`offset, this`passed, this`intact, rw`log, rw.writeSequence, rw.lastWriteSequence
      ensures Valid() && rw.Abs() == n.w
      ensures n == NextPacket(make, |messages|, old(rw.Abs()), old(At()), mtu)
      ensures status == if n.broken || n.rs == [] then Failed else if writable then Done else WouldBlock
      ensures At() == if status == WouldBlock then old(At()) else n.to
      ensures passed == old(passed) + if status == Done then PiecesOf(n.rs) else []
      ensures intact == (old(intact) && (status == Failed ==> At() == old(At())))
    {
      ghost var w := rw.Abs();
      var ok, packet, q;
      ok, packet, q, n := SealNextPacket(rw, messages, At(), mtu, k, make);
      PacketLeads(make, messages, w, At(), mtu, n);
      if !ok {
        Skip(q);
        return Failed, n;
      }
      if !writable {
        return WouldBlock, n;
      }
      Pass(q, PiecesOf(n.rs));
      return Done, n;
    }

    /** One turn of the loop, after the packets `sent`: f is what the whole flush comes to, and base what was passed
        before. */
    method SendMore(bio: seq<bool>, ghost k: Keys, ghost make: Maker, ghost f: Flushed, ghost base: seq<Piece>,
                    ghost sent: seq<seq<Wrapped>>)
      returns (status: Status, ghost sent': seq<seq<Wrapped>>)
      requires Valid() && written < |messages|
      requires k == KeysIn(rw) && Serves(make, k, messages) && Lawful(make, messages)
      requires f == Resend(sent, FlushFrom(make, |messages|, rw.Abs(), At(), mtu, bio)) && passed == base + Loose(sent)
      modifies this`written, this`offset, this`passed, this`intact, rw`log, rw.writeSequence, rw.lastWriteSequence
      ensures Valid() && passed == base + Loose(sent')
      ensures if status == Done then
                && bio != [] && intact == old(intact)
                && f == Resend(sent', FlushFrom(make, |messages|, rw.Abs(), At(), mtu, bio[1..]))
              else
                && sent' == sent && intact == (old(intact) && At() == old(At()))
                && f == Flushed(status, sent', old(At()), At(), rw.Abs())
    {
      FlushTurn(make, |messages|, f, sent, rw.Abs(), At(), mtu, bio);
      ghost var n;
      status, n := SendPacket(bio != [] && bio[0], k, make);
      sent' := sent;
      if status == Done {
        sent' := sent + [n.rs];
        LooseSnoc(sent, n.rs);
        Associates(base, Loose(sent), PiecesOf(n.rs));
      }
    }

    /** The loop of dtls1_flush_flight, and the flush of the transport. */
    method SendPackets(bio: seq<bool>, ghost k: Keys, ghost make: Maker)
      returns (status: Status, ghost sent: seq<seq<Wrapped>>, ghost reached: Place)
      requires Valid() && k == KeysIn(rw) && Serves(make, k, messages) && Lawful(make, messages)
      modifies this`written, this`offset, this`passed, this`intact, rw`log, rw.writeSequence, rw.lastWriteSequence
      ensures Valid()
      ensures Flushed(status, sent, reached, At(), rw.Abs())
           == FlushFrom(make, |messages|, old(rw.Abs()), old(At()), mtu, bio)
      ensures passed == old(passed) + Loose(sent) && intact == (old(intact) && At() == reached)
    {
      ghost var f := FlushFrom(make, |messages|, rw.Abs(), At(), mtu, bio);
      ResendNone(f);
      status, sent := Done, [];
      var rest := bio;
      while written < |messages|
        invariant Valid() && intact == old(intact) && k == KeysIn(rw)
        invariant passed == old(passed) + Loose(sent)
        invariant f == Resend(sent, FlushFrom(make, |messages|, rw.Abs(), At(), mtu, rest))
        decreases |rest|
      {
        reached := At();
        status, sent := SendMore(rest, k, make, f, old(passed), sent);
        if status != Done {
          return;
        }
        rest := rest[1..];
      }
      FlushEnd(make, |messages|, f, sent, rw.Abs(), At(), mtu, rest);
      status, reached := if rest != [] && rest[0] then Done else WouldBlock, At();
    }

    /** dtls1_flush_flight.  `bio` says which writes succeed, the flush of the transport being the last.  Whatever is
        written leads on from where the flight stood, in packets that fit the MTU.  The flight is left there to be
        resumed, unless a record seals and a later one of its packet does not.  It is sent to its end whenever it can
        be. */
    method Flush(bio: seq<bool>, noQuery: bool, queried: int)
      returns (status: Status, ghost sent: seq<seq<Wrapped>>, ghost reached: Place)
      requires Valid()
      modifies this`written, this`offset, this`passed, this`intact, this`mtu
      modifies rw`log, rw.writeSequence, rw.lastWriteSequence
      ensures Valid() && mtu == NewMtu(old(mtu), noQuery, queried)
      ensures Flushed(status, sent, reached, At(), rw.Abs())
           == FlushBy(Attempt(KeysIn(rw), old(rw.Abs()), mtu, bio), messages, old(At()))
      ensures passed == old(passed) + Loose(sent) && intact == (old(intact) && At() == reached)
      ensures Walk(messages, old(At()), Loose(sent), reached) && FitsMtu(sent, mtu)
      ensures status == Done ==> At() == reached == Place(|messages|, 0)
      ensures At() != reached <==> Skips(Attempt(KeysIn(rw), old(rw.Abs()), mtu, bio), messages, old(At()))
      ensures CanFinish(KeysIn(rw), messages, old(rw.Abs()), old(At()), mtu, bio) ==> status == Done
      ensures DtlsResend.AllInOwnEpoch(sent, messages, rw.wEpoch, rw.aead)
    {
      QueueEpochs(messages, rw.wEpoch);
      DtlsResend.FlushInOwnEpoch(KeysIn(rw), messages, rw.Abs(), At(), NewMtu(mtu, noQuery, queried), bio);
      UpdateMtu(noQuery, queried);
      FlushFacts(Attempt(KeysIn(rw), rw.Abs(), mtu, bio), messages, rw.wEpoch, At());
      MakerLawful(KeysIn(rw), messages);
      MakerServes(KeysIn(rw), messages);
      status, sent, reached := SendPackets(bio, KeysIn(rw), MakerOf(KeysIn(rw), messages));
    }

    /** Back to the start of the flight. */
    method Rewind()
      requires Valid()
      modifies this`written, this`offset, this`passed, this`intact
      ensures Valid() && At() == ORIGIN && passed == [] && intact
    {
      written, offset := 0, 0;
      passed, intact := [], true;
    }

    /** dtls1_retransmit_outgoing_messages */
    method Retransmit(bio: seq<bool>, noQuery: bool, queried: int)
      returns (status: Status, ghost sent: seq<seq<Wrapped>>, ghost reached: Place)
      requires Valid()
      modifies this`written, this`offset, this`passed, this`intact, this`mtu
      modifies rw`log, rw.writeSequence, rw.lastWriteSequence
      ensures Valid() && mtu == NewMtu(old(mtu), noQuery, queried)
      ensures Flushed(status, sent, reached, At(), rw.Abs())
           == FlushBy(Attempt(KeysIn(rw), old(rw.Abs()), mtu, bio), messages, ORIGIN)
      ensures passed == Loose(sent) && Walk(messages, ORIGIN, passed, reached) && FitsMtu(sent, mtu)
      ensures status == Done ==> Covered(messages, passed)
      ensures CanFinish(KeysIn(rw), messages, old(rw.Abs()), ORIGIN, mtu, bio) ==> status == Done
      ensures DtlsResend.AllInOwnEpoch(sent, messages, rw.wEpoch, rw.aead)
    {
      Rewind();
      status, sent, reached := Flush(bio, noQuery, queried);
      if status == Done {
        WalkCovers(messages, passed);
      }
    }
  }

  function NewMtu(mtu: nat, noQuery: bool, queried: int): nat {
    if mtu >= MIN_MTU || noQuery then mtu else if MIN_MTU <= queried <= 0x4000_0000 then queried else DEFAULT_MTU
  }

  lemma {:induction false} QueueEpochs(ms: seq<Outgoing>, wEpoch: nat)
    requires QueueOk(ms, wEpoch)
    ensures forall i :: 0 <= i < |ms| ==> ms[i].epoch <= wEpoch
  {
    if ms != [] { QueueEpochs(ms[..|ms|-1], wEpoch); }
  }

  lemma {:induction false} QueueParses(ms: seq<Outgoing>, wEpoch: nat)
    requires QueueOk(ms, wEpoch)
    ensures AllParse(ms)
  {
    if ms != [] { QueueParses(ms[..|ms|-1], wEpoch); }
  }

  lemma FlushFacts(a: Attempt, ms: seq<Outgoing>, wEpoch: nat, p: Place)
    requires AeadOk(a.k.aead) && QueueOk(ms, wEpoch) && PlaceOk(ms, p)
    ensures var f := FlushBy(a, ms, p);
            && Walk(ms, p, Loose(f.sent), f.reached) && FitsMtu(f.sent, a.mtu)
            && (f.status == Done ==> f.at == f.reached == Place(|ms|, 0))
            && (f.at != f.reached <==> Skips(a, ms, p))
            && (CanFinish(a.k, ms, a.w, p, a.mtu, a.bio) ==> f.status == Done)
  {
    MakerLawful(a.k, ms);
    FlushWalks(MakerOf(a.k, ms), ms, a.w, p, a.mtu, a.bio);
    FlushBehaves(a, ms, p);
    QueueParses(ms, wEpoch);
    if CanFinish(a.k, ms, a.w, p, a.mtu, a.bio) { FlushFinishes(a.k, ms, a.w, p, a.mtu, a.bio); }
  }
}
