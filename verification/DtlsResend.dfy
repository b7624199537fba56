/** Under which epoch the messages of a flight go out, and who hears them: a flight may hold messages of the epoch
    before the switch of the write cipher, and is sent again when it is lost (d1_both.c:617-811,
    dtls_record.c:252-334). */
module DtlsResend {
  import opened Wrappers
  import opened HandshakeWire
  import opened DtlsReplay
  import opened DtlsRecord
  import opened DtlsFlight
  import opened DtlsPackets
  import opened DtlsNetwork
  import R = DtlsReceive

  /** What seal_next_message asserts: there are two epochs, and no message is of a later one than the writer. */
  predicate TwoEpochs(ms: seq<Outgoing>, epoch: nat) {
    epoch <= 1 && forall i :: 0 <= i < |ms| ==> ms[i].epoch <= epoch
  }

  /** The record is of the epoch in which its message was queued and has the next number of that epoch.  What is older
      than the writer's epoch goes out under the null cipher. */
  ghost predicate OwnEpoch(ms: seq<Outgoing>, k: Keys, w: Writer, r: Wrapped, mtu: nat) {
    && r.x.w < |ms| && r.epoch == ms[r.x.w].epoch && r.number == Counter(w, r.epoch) && r.number + 1 < EPOCH_UNIT
    && r.cipher == (if r.epoch == w.epoch then k.aead else None) && r.version == k.version
    && |r.bytes| <= mtu && RT_HEADER + |PieceBytes(r.x)| <= mtu
  }

  /** So are these records, one after the other, from the writer w to w'. */
  ghost predicate InTurn(ms: seq<Outgoing>, k: Keys, w: Writer, rs: seq<Wrapped>, mtu: nat, w': Writer)
    decreases |rs|
  {
    if rs == [] then w == w'
    else OwnEpoch(ms, k, w, rs[0], mtu) && InTurn(ms, k, Counted(w, rs[0].epoch), rs[1..], mtu, w')
  }

  lemma InTurnCons(ms: seq<Outgoing>, k: Keys, w: Writer, r: Wrapped, rs: seq<Wrapped>, mtu: nat, w': Writer)
    requires OwnEpoch(ms, k, w, r, mtu) && InTurn(ms, k, Counted(w, r.epoch), rs, mtu, w')
    ensures InTurn(ms, k, w, [r] + rs, mtu, w')
  {
    assert ([r] + rs)[1..] == rs;
  }

  lemma {:induction false} InTurnJoin(ms: seq<Outgoing>, k: Keys, w: Writer, a: seq<Wrapped>, b: seq<Wrapped>, mtu: nat,
                                      w1: Writer, w2: Writer)
    requires InTurn(ms, k, w, a, mtu, w1) && InTurn(ms, k, w1, b, mtu, w2)
    ensures InTurn(ms, k, w, a + b, mtu, w2)
    decreases |a|
  {
    if a == [] {
      assert a + b == b;
    } else {
      InTurnJoin(ms, k, Counted(w, a[0].epoch), a[1..], b, mtu, w1, w2);
      InTurnCons(ms, k, w, a[0], a[1..] + b, mtu, w2);
      HeadJoin(a, b);
    }
  }

  lemma PieceInTurn(k: Keys, ms: seq<Outgoing>, w: Writer, p: Place, x: Piece, room: nat, mtu: nat)
    requires TwoEpochs(ms, w.epoch) && Fits(ms, p, x) && room <= mtu && RT_HEADER + |PieceBytes(x)| <= mtu
    ensures var t := TryPiece(w, k, ms, p, x, room);
            t.Sealed? ==> OwnEpoch(ms, k, w, t.r, mtu) && t.w == Counted(w, t.r.epoch)
  {
    EpochTaken(w, ms[p.written].epoch);
  }

  lemma TriedInTurn(k: Keys, ms: seq<Outgoing>, w: Writer, p: Place, room: nat, mtu: nat)
    requires TwoEpochs(ms, w.epoch) && PlaceOk(ms, p) && room <= mtu
    ensures var t := MakerOf(k, ms)(w, p, room);
            t.Sealed? ==> OwnEpoch(ms, k, w, t.r, mtu) && t.w == Counted(w, t.r.epoch) && t.w.epoch == w.epoch
  {
    if p.written < |ms| && Choose(w.epoch, k, ms, p, room).Next? {
      ChosenSize(w.epoch, k, ms, p, room);
      PieceInTurn(k, ms, w, p, Choose(w.epoch, k, ms, p, room).x, room, mtu);
    }
  }

  lemma {:induction false} PacketInTurn(k: Keys, make: Maker, ms: seq<Outgoing>, w: Writer, p: Place, room: nat,
                                        mtu: nat)
    requires TwoEpochs(ms, w.epoch) && PlaceOk(ms, p) && room <= mtu && make == MakerOf(k, ms)
    ensures var n := NextPacket(make, |ms|, w, p, room);
            !n.broken ==> InTurn(ms, k, w, n.rs, mtu, n.w) && n.w.epoch == w.epoch && PlaceOk(ms, n.to)
    decreases |ms| - p.written
  {
    var t := make(w, p, room);
    TriedInTurn(k, ms, w, p, room, mtu);
    MakerLawful(k, ms);
    assert LawfulAt(t, ms, p, room);
    if p.written < |ms| && t.Sealed? {
      var left := Left(room, |t.r.bytes|);
      if t.q.written > p.written {
        PacketInTurn(k, make, ms, t.w, t.q, left, mtu);
        var n := NextPacket(make, |ms|, t.w, t.q, left);
        if !n.broken { InTurnCons(ms, k, w, t.r, n.rs, mtu, n.w); }
      } else {
        InTurnCons(ms, k, w, t.r, [], mtu, t.w);
        assert [t.r] + [] == [t.r];
      }
    }
  }

  lemma {:induction false} FlushInTurn(k: Keys, make: Maker, ms: seq<Outgoing>, w: Writer, p: Place, mtu: nat,
                                       bio: seq<bool>) returns (w': Writer)
    requires TwoEpochs(ms, w.epoch) && PlaceOk(ms, p) && make == MakerOf(k, ms)
    ensures InTurn(ms, k, w, Flat(FlushFrom(make, |ms|, w, p, mtu, bio).sent), mtu, w')
    decreases |bio|
  {
    w' := w;
    var n := NextPacket(make, |ms|, w, p, mtu);
    PacketInTurn(k, make, ms, w, p, mtu, mtu);
    if p.written < |ms| && !n.broken && n.rs != [] && bio != [] && bio[0] {
      w' := FlushInTurn(k, make, ms, n.w, n.to, mtu, bio[1..]);
      var more := FlushFrom(make, |ms|, n.w, n.to, mtu, bio[1..]).sent;
      InTurnJoin(ms, k, w, n.rs, Flat(more), mtu, n.w, w');
      assert ([n.rs] + more)[1..] == more;
    }
  }

  lemma {:induction false} InTurnAt(ms: seq<Outgoing>, k: Keys, w: Writer, rs: seq<Wrapped>, mtu: nat, w': Writer,
                                    i: nat)
    requires InTurn(ms, k, w, rs, mtu, w') && i < |rs|
    ensures var r := rs[i];
            && r.x.w < |ms| && r.epoch == ms[r.x.w].epoch && r.cipher == (if r.epoch == w.epoch then k.aead else None)
            && r.version == k.version && |r.bytes| <= mtu && RT_HEADER + |PieceBytes(r.x)| <= mtu
    decreases i
  {
    if i > 0 { InTurnAt(ms, k, Counted(w, rs[0].epoch), rs[1..], mtu, w', i - 1); }
  }

  /** The record is of the epoch in which its message was queued, under the null cipher if that is over. */
  ghost predicate InOwnEpoch(r: Wrapped, ms: seq<Outgoing>, wEpoch: nat, aead: Option<Aead>) {
    r.x.w < |ms| && r.epoch == ms[r.x.w].epoch && r.cipher == (if r.epoch == wEpoch then aead else None)
  }

  ghost predicate AllInOwnEpoch(sent: seq<seq<Wrapped>>, ms: seq<Outgoing>, wEpoch: nat, aead: Option<Aead>) {
    forall i, j :: 0 <= i < |sent| && 0 <= j < |sent[i]| ==> InOwnEpoch(sent[i][j], ms, wEpoch, aead)
  }

  lemma {:induction false} PlaceInFlat(xss: seq<seq<Wrapped>>, i: nat, j: nat) returns (n: nat)
    requires i < |xss| && j < |xss[i]|
    ensures n < |Flat(xss)| && Flat(xss)[n] == xss[i][j]
  {
    if i == 0 {
      n := j;
    } else {
      n := PlaceInFlat(xss[1..], i - 1, j);
      n := n + |xss[0]|;
    }
  }

  lemma FlushInOwnEpoch(k: Keys, ms: seq<Outgoing>, w: Writer, p: Place, mtu: nat, bio: seq<bool>)
    requires TwoEpochs(ms, w.epoch) && PlaceOk(ms, p)
    ensures AllInOwnEpoch(FlushFrom(MakerOf(k, ms), |ms|, w, p, mtu, bio).sent, ms, w.epoch, k.aead)
  {
    var sent := FlushFrom(MakerOf(k, ms), |ms|, w, p, mtu, bio).sent;
    var w' := FlushInTurn(k, MakerOf(k, ms), ms, w, p, mtu, bio);
    AllPlaced(k, ms, w, sent, mtu, w');
  }

  lemma AllPlaced(k: Keys, ms: seq<Outgoing>, w: Writer, sent: seq<seq<Wrapped>>, mtu: nat, w': Writer)
    requires InTurn(ms, k, w, Flat(sent), mtu, w')
    ensures AllInOwnEpoch(sent, ms, w.epoch, k.aead)
  {
    forall i, j | 0 <= i < |sent| && 0 <= j < |sent[i]| ensures InOwnEpoch(sent[i][j], ms, w.epoch, k.aead) {
      var n := PlaceInFlat(sent, i, j);
      InTurnAt(ms, k, w, Flat(sent), mtu, w', n);
    }
  }

  /** Whatever is flushed, and however often, each message is sealed in the epoch in which it was queued: one from
      before the switch under the null cipher, one from after it under the negotiated one. */
  lemma SealedInOwnEpoch(c: Call)
    requires TwoEpochs(c.ms, c.w.epoch) && PlaceOk(c.ms, c.from)
    ensures AllInOwnEpoch(Sends(c), c.ms, c.w.epoch, c.keys.aead)
  {
    FlushInOwnEpoch(c.keys, c.ms, c.w, c.from, c.mtu, c.bio);
  }

  // ----- who hears it -----

  /** What records of an epoch hold, in their order. */
  function OfEpoch(rs: seq<Wrapped>, epoch: nat): seq<R.Record> {
    if rs == [] then []
    else (if rs[0].epoch == epoch then [Contents(rs[0])] else []) + OfEpoch(rs[1..], epoch)
  }

  /** The reader has only seen numbers of its epoch that the writer gave out before. */
  ghost predicate Behind(reader: Reader, seen: set<nat>, w: Writer) {
    && Holds(reader.w, seen)
    && forall s :: s in seen ==> s < reader.generation * EPOCH_UNIT + Counter(w, reader.generation)
  }

  lemma NextHeard(ms: seq<Outgoing>, k: Keys, w: Writer, r: Wrapped, mtu: nat, reader: Reader, seen: set<nat>)
    requires TwoEpochs(ms, w.epoch) && OwnEpoch(ms, k, w, r, mtu) && Behind(reader, seen, w)
    ensures Hears(reader, r) <==> r.epoch == reader.generation
    ensures r.epoch == reader.generation ==>
              Behind(Noted(reader, r), seen + {FullNumber(r)}, Counted(w, r.epoch))
    ensures r.epoch != reader.generation ==> reader.generation > 1 || Behind(reader, seen, Counted(w, r.epoch))
  {
    if r.epoch == reader.generation {
      DiscardsSeenOrStale(reader.w, seen, FullNumber(r));
      RecordAdds(reader.w, seen, FullNumber(r));
    }
  }

  /** A reader in either epoch hears exactly the records of its own, all of them. */
  lemma {:induction false} OwnEpochHeard(ms: seq<Outgoing>, k: Keys, w: Writer, rs: seq<Wrapped>, mtu: nat, w': Writer,
                                         reader: Reader, seen: set<nat>)
    requires TwoEpochs(ms, w.epoch) && InTurn(ms, k, w, rs, mtu, w') && reader.generation <= 1
    requires Behind(reader, seen, w)
    ensures Heard(reader, rs) == OfEpoch(rs, reader.generation)
    decreases |rs|
  {
    if rs != [] {
      var r := rs[0];
      NextHeard(ms, k, w, r, mtu, reader, seen);
      if r.epoch == reader.generation {
        OwnEpochHeard(ms, k, Counted(w, r.epoch), rs[1..], mtu, w', Noted(reader, r), seen + {FullNumber(r)});
      } else {
        OwnEpochHeard(ms, k, Counted(w, r.epoch), rs[1..], mtu, w', reader, seen);
      }
    }
  }

  lemma {:induction false} FlatHonest(xss: seq<seq<Wrapped>>, msgs: seq<Message>, secrets: Secrets)
    requires SentHonest(xss, msgs, secrets)
    ensures AllHonest(Flat(xss), msgs, secrets)
  {
    if xss != [] {
      assert forall i :: 0 <= i < |xss[1..]| ==> xss[1..][i] == xss[i+1];
      FlatHonest(xss[1..], msgs, secrets);
    }
  }

  lemma SendsLegible(c: Call, msgs: seq<Message>, secrets: Secrets)
    requires SecretsOk(secrets) && CallOk(c, msgs, secrets) && TwoEpochs(c.ms, c.w.epoch)
    requires c.mtu <= RT_HEADER + MAX_PLAIN && c.keys.version / 256 == 0xfe
    ensures AllLegible(Flat(Sends(c)), c.keys.version, msgs, secrets)
  {
    var rs := Flat(Sends(c));
    SendsHonest(c, msgs, secrets);
    FlatHonest(Sends(c), msgs, secrets);
    var w' := FlushInTurn(c.keys, MakerOf(c.keys, c.ms), c.ms, c.w, c.from, c.mtu, c.bio);
    forall i | 0 <= i < |rs| ensures Honest(rs[i], msgs, secrets) && Legible(rs[i], c.keys.version) {
      InTurnAt(c.ms, c.keys, c.w, rs, c.mtu, w', i);
    }
  }

  /** Recovery: when the packets of a flight, sent again or for the first time, arrive at a peer that has only seen
      what was sent before, the handshake of that peer is given every record of the messages of its epoch, in order;
      so one that is still in epoch 0 gets all that was queued before the switch, however late it is. */
  lemma FlightIsHeard(c: Call, msgs: seq<Message>, secrets: Secrets, reader: Reader, seen: set<nat>)
    requires SecretsOk(secrets) && CallOk(c, msgs, secrets) && TwoEpochs(c.ms, c.w.epoch)
    requires c.mtu <= RT_HEADER + MAX_PLAIN && c.keys.version / 256 == 0xfe
    requires reader.generation <= 1 && Behind(reader, seen, c.w)
    ensures RecordsOf(Pull(Link(reader, []), secrets(reader.generation), Some(c.keys.version), PackedAll(Sends(c))))
         == OfEpoch(Flat(Sends(c)), reader.generation)
  {
    var rs := Flat(Sends(c));
    SendsLegible(c, msgs, secrets);
    assert [] + rs == rs;
    PacketsHeard(reader, [], Sends(c), c.keys.version, msgs, secrets);
    var w' := FlushInTurn(c.keys, MakerOf(c.keys, c.ms), c.ms, c.w, c.from, c.mtu, c.bio);
    OwnEpochHeard(c.ms, c.keys, c.w, rs, c.mtu, w', reader, seen);
  }
}
