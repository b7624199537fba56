/** Making packets of a flight and writing them (d1_both.c:617-800), as functions of the writer, the ciphers and the
    flight.  The methods of DtlsSender are proved to follow them. */
module DtlsPackets {
  import opened Bits
  import opened Wrappers
  import opened HandshakeWire
  import opened DtlsReplay
  import opened DtlsRecord
  import opened DtlsFlight

  const MT_CCS: byte := 1

  /** The record that carries a piece. */
  function PieceType(x: Piece): byte { if x.CcsPiece? then RT_CHANGE_CIPHER_SPEC else RT_HANDSHAKE }

  function PieceBytes(x: Piece): seq<byte> { if x.CcsPiece? then [MT_CCS] else EncFragment(x.f) }

  /** A sealed record: the piece in it, its bytes, and what it was sealed with. */
  datatype Wrapped = Wrapped(x: Piece, bytes: seq<byte>, cipher: Option<Aead>, version: nat, epoch: nat, number: nat)

  predicate WellSealed(r: Wrapped) {
    IsSealed(r.bytes, r.cipher, PieceType(r.x), r.version, r.epoch, r.number, PieceBytes(r.x))
  }

  ghost predicate AllSealed(rs: seq<Wrapped>) { forall i :: 0 <= i < |rs| ==> WellSealed(rs[i]) }

  function PiecesOf(rs: seq<Wrapped>): (ps: seq<Piece>)
    ensures |ps| == |rs|
  {
    seq(|rs|, i requires 0 <= i < |rs| => rs[i].x)
  }

  /** A packet is its records, one after the other. */
  function Packed(rs: seq<Wrapped>): seq<byte> {
    if rs == [] then [] else rs[0].bytes + Packed(rs[1..])
  }

  lemma PiecesCons(r: Wrapped, rs: seq<Wrapped>)
    ensures PiecesOf([r] + rs) == [r.x] + PiecesOf(rs)
  {
  }

  lemma {:induction false} PackedSnoc(rs: seq<Wrapped>, r: Wrapped)
    ensures Packed(rs + [r]) == Packed(rs) + r.bytes
  {
    if rs == [] {
      assert rs + [r] == [r];
    } else {
      assert (rs + [r])[1..] == rs[1..] + [r];
      PackedSnoc(rs[1..], r);
    }
  }

  lemma Associates<T>(a: seq<T>, b: seq<T>, c: seq<T>)
    ensures a + b + c == a + (b + c)
  {
  }

  // ----- one record -----

  /** What a writer seals with once the negotiated cipher is in use, and the version it writes. */
  datatype Keys = Keys(aead: Option<Aead>, version: nat)

  /** get_write_aead: the previous cipher is the null cipher. */
  function CipherFor(k: Keys, op: Op): Option<Aead> { if op.SealPrevious? then None else k.aead }

  /** use_epoch: a message of the old epoch goes out under the old, null cipher. */
  function OpFor(wEpoch: nat, epoch: nat): (op: Op)
    ensures op.SealPrevious? ==> wEpoch > 0
    ensures !op.NewCipher?
  {
    if wEpoch == 1 && epoch == 0 then SealPrevious else SealCurrent
  }

  function Overhead(k: Keys, op: Op): nat { RT_HEADER + MaxOverhead(CipherFor(k, op)) }

  /** The number that the next record takes. */
  function Number(w: Writer, op: Op): nat
    requires Legal(w, op) && !op.NewCipher?
  {
    Taken(w, op)[0].1
  }

  function TextOf(w: Writer, k: Keys, op: Op, x: Piece): Option<seq<byte>>
    requires Legal(w, op) && !op.NewCipher?
  {
    Seal(CipherFor(k, op), PieceType(x), k.version, SequenceBytes(Taken(w, op)[0].0, Number(w, op)), PieceBytes(x))
  }

  /** Whether the record of a piece seals: the cipher accepts it, its text fits the length field, and the number
      after its own exists. */
  predicate Sealable(w: Writer, k: Keys, op: Op, x: Piece)
    requires Legal(w, op) && !op.NewCipher?
  {
    var text := TextOf(w, k, op, x);
    text.Some? && |text.value| < 0x1_0000 && Number(w, op) + 1 < EPOCH_UNIT
  }

  function Wrap(w: Writer, k: Keys, op: Op, x: Piece): Wrapped
    requires Legal(w, op) && !op.NewCipher? && TextOf(w, k, op, x).Some?
  {
    var (epoch, number) := Taken(w, op)[0];
    var raw := RawRecord(PieceType(x), k.version, SequenceBytes(epoch, number), TextOf(w, k, op, x).value);
    Wrapped(x, EncRecord(raw), CipherFor(k, op), k.version, epoch, number)
  }

  /** The number that the next record of an epoch gets, and the writer once it has. */
  function Counter(w: Writer, epoch: nat): nat { if epoch == w.epoch then w.cur else w.last }

  function Counted(w: Writer, epoch: nat): Writer {
    if epoch == w.epoch then w.(cur := w.cur + 1) else w.(last := w.last + 1)
  }

  lemma EpochTaken(w: Writer, epoch: nat)
    requires epoch <= w.epoch <= 1
    ensures var op := OpFor(w.epoch, epoch);
            && Legal(w, op) && Taken(w, op)[0] == (epoch, Counter(w, epoch))
            && (Counter(w, epoch) + 1 < EPOCH_UNIT ==> Advance(w, op) == Counted(w, epoch))
  {
  }

  /** The piece that seal_next_message makes of the next message: none if there is no room, or if it does not parse. */
  datatype Choice = NoRoom | Corrupt | Next(x: Piece)

  function Choose(wEpoch: nat, k: Keys, ms: seq<Outgoing>, p: Place, maxOut: nat): (c: Choice)
    requires PlaceOk(ms, p) && p.written < |ms|
    ensures c.Next? ==> Fits(ms, p, c.x)
  {
    var o := ms[p.written];
    var op := OpFor(wEpoch, o.epoch);
    var over := Overhead(k, op);
    if o.isCcs then
      if maxOut < 1 + over then NoRoom else Next(CcsPiece(p.written))
    else
      match Whole(o.data)
      case None => Corrupt
      case Some(f) =>
        if maxOut < HM_HEADER + 1 + over || maxOut < RT_HEADER + NonceLen(CipherFor(k, op)) then NoRoom
        else
          var left, most := |f.body| - p.offset, maxOut - HM_HEADER - over;
          Next(FragPiece(p.written, Cut(f, p.offset, if left > most then most else left)))
  }

  /** seal_next_message.  A record that does not seal may have used up its number all the same. */
  datatype Tried = NoProgress | SealError(w: Writer) | Sealed(r: Wrapped, q: Place, w: Writer)

  function TryPiece(w: Writer, k: Keys, ms: seq<Outgoing>, p: Place, x: Piece, maxOut: nat): Tried
    requires Fits(ms, p, x)
  {
    var op := OpFor(w.epoch, ms[p.written].epoch);
    var text := TextOf(w, k, op, x);
    if text.None? || RT_HEADER + |text.value| > maxOut then SealError(w)
    else if !Sealable(w, k, op, x) then SealError(Advance(w, op))
    else Sealed(Wrap(w, k, op, x), After(ms, p, x), Advance(w, op))
  }

  function TryNext(w: Writer, k: Keys, ms: seq<Outgoing>, p: Place, maxOut: nat): Tried
    requires PlaceOk(ms, p) && p.written < |ms|
  {
    match Choose(w.epoch, k, ms, p, maxOut)
    case NoRoom => NoProgress
    case Corrupt => SealError(w)
    case Next(x) => TryPiece(w, k, ms, p, x, maxOut)
  }

  /** What is sealed is of the epoch in which its message was queued, under the null cipher if that is over. */
  lemma SealedEpoch(w: Writer, k: Keys, ms: seq<Outgoing>, p: Place, maxOut: nat)
    requires PlaceOk(ms, p) && p.written < |ms| && ms[p.written].epoch <= w.epoch <= 1
    ensures var t := TryNext(w, k, ms, p, maxOut);
            t.Sealed? ==> t.r.x.w == p.written && t.r.epoch == ms[p.written].epoch
                          && t.r.cipher == (if t.r.epoch == w.epoch then k.aead else None)
  {
    EpochTaken(w, ms[p.written].epoch);
  }

  lemma ChosenSize(wEpoch: nat, k: Keys, ms: seq<Outgoing>, p: Place, maxOut: nat)
    requires PlaceOk(ms, p) && p.written < |ms| && Choose(wEpoch, k, ms, p, maxOut).Next?
    ensures |PieceBytes(Choose(wEpoch, k, ms, p, maxOut).x)| + Overhead(k, OpFor(wEpoch, ms[p.written].epoch)) <= maxOut
  {
  }

  /** Whether a message that does parse can make progress in a record of this size: ChangeCipherSpec, or at least one
      byte of it, and the nonce in front. */
  predicate RoomFor(wEpoch: nat, k: Keys, o: Outgoing, maxOut: nat) {
    var op := OpFor(wEpoch, o.epoch);
    if o.isCcs then maxOut >= 1 + Overhead(k, op)
    else maxOut >= HM_HEADER + 1 + Overhead(k, op) && maxOut >= RT_HEADER + NonceLen(CipherFor(k, op))
  }

  /** Nothing is chosen exactly if the message does not parse or there is no room for progress; and a piece that does
      not reach the end of its message fills the room. */
  lemma ChosenFills(wEpoch: nat, k: Keys, ms: seq<Outgoing>, p: Place, maxOut: nat)
    requires PlaceOk(ms, p) && p.written < |ms|
    ensures var c, o := Choose(wEpoch, k, ms, p, maxOut), ms[p.written];
            && (c.Corrupt? <==> !o.isCcs && Whole(o.data).None?)
            && (c.Next? <==> !c.Corrupt? && RoomFor(wEpoch, k, o, maxOut))
            && (c.Next? && After(ms, p, c.x).written == p.written ==>
                  |PieceBytes(c.x)| + Overhead(k, OpFor(wEpoch, o.epoch)) == maxOut)
  {
  }

  /** Under the null cipher a record that does not end its message takes all the room there is. */
  lemma NullCipherFills(w: Writer, k: Keys, ms: seq<Outgoing>, p: Place, maxOut: nat)
    requires PlaceOk(ms, p) && p.written < |ms| && CipherFor(k, OpFor(w.epoch, ms[p.written].epoch)) == None
    requires TryNext(w, k, ms, p, maxOut).Sealed? && TryNext(w, k, ms, p, maxOut).q.written == p.written
    ensures |TryNext(w, k, ms, p, maxOut).r.bytes| == maxOut
  {
    ChosenFills(w.epoch, k, ms, p, maxOut);
  }

  /** A piece is cut so that its record fits. */
  lemma ChosenFits(w: Writer, k: Keys, ms: seq<Outgoing>, p: Place, maxOut: nat)
    requires AeadOk(k.aead) && PlaceOk(ms, p) && p.written < |ms| && Choose(w.epoch, k, ms, p, maxOut).Next?
    ensures var x, op := Choose(w.epoch, k, ms, p, maxOut).x, OpFor(w.epoch, ms[p.written].epoch);
            TextOf(w, k, op, x).Some? ==> RT_HEADER + |TextOf(w, k, op, x).value| <= maxOut
  {
    var x, op := Choose(w.epoch, k, ms, p, maxOut).x, OpFor(w.epoch, ms[p.written].epoch);
    ChosenSize(w.epoch, k, ms, p, maxOut);
    assert AeadOk(CipherFor(k, op));
  }

  /** The record that is to be made next does not seal: its message does not parse, the cipher refuses it, its text
      takes 2^16 bytes or more, or its number is 2^48 - 1. */
  predicate Unsealable(w: Writer, k: Keys, ms: seq<Outgoing>, p: Place, room: nat)
    requires PlaceOk(ms, p) && p.written < |ms|
  {
    var c, op := Choose(w.epoch, k, ms, p, room), OpFor(w.epoch, ms[p.written].epoch);
    c.Corrupt? || (c.Next? && !Sealable(w, k, op, c.x))
  }

  // ----- sealing, whatever it is -----

  /** seal_next_message as a function of the writer, the place and the room. */
  type Maker = (Writer, Place, nat) -> Tried

  function MakerOf(k: Keys, ms: seq<Outgoing>): Maker {
    (w: Writer, p: Place, room: nat) =>
      if PlaceOk(ms, p) && p.written < |ms| then TryNext(w, k, ms, p, room) else SealError(w)
  }

  /** What is sealed is the next piece of the flight, sealed properly and inside the room. */
  ghost predicate Lawful(make: Maker, ms: seq<Outgoing>) {
    forall w, p, room: nat :: LawfulAt(make(w, p, room), ms, p, room)
  }

  ghost predicate LawfulAt(t: Tried, ms: seq<Outgoing>, p: Place, room: nat) {
    t.Sealed? ==> Fits(ms, p, t.r.x) && t.q == After(ms, p, t.r.x) && WellSealed(t.r) && |t.r.bytes| <= room
  }

  lemma MakerLawful(k: Keys, ms: seq<Outgoing>)
    ensures Lawful(MakerOf(k, ms), ms)
  {
  }

  /** Sealing fails exactly if the record is not one that seals: a piece is always cut so that its record fits. */
  lemma FailsIffUnsealable(w: Writer, k: Keys, ms: seq<Outgoing>, p: Place, room: nat)
    requires PlaceOk(ms, p) && p.written < |ms| && AeadOk(k.aead)
    ensures MakerOf(k, ms)(w, p, room).SealError? <==> Unsealable(w, k, ms, p, room)
  {
    if Choose(w.epoch, k, ms, p, room).Next? {
      ChosenFits(w, k, ms, p, room);
    }
  }

  // ----- one packet -----

  /** seal_next_packet: the records it sealed, where it stopped, the writer after it, and whether a record failed to
      seal. */
  datatype Packet = Packet(rs: seq<Wrapped>, to: Place, w: Writer, broken: bool)

  function Prepend(rs: seq<Wrapped>, n: Packet): Packet { n.(rs := rs + n.rs) }

  lemma PrependNone(n: Packet)
    ensures Prepend([], n) == n
  {
    assert [] + n.rs == n.rs;
  }

  function Left(room: nat, used: nat): nat { if used <= room then room - used else 0 }

  /** The loop over a flight of `end` messages. */
  function NextPacket(make: Maker, end: nat, w: Writer, p: Place, room: nat): Packet
    decreases end - p.written
  {
    if p.written >= end then Packet([], p, w, false)
    else match make(w, p, room)
      case NoProgress => Packet([], p, w, false)
      case SealError(w') => Packet([], p, w', true)
      case Sealed(r, q, w') =>
        if q.written <= p.written then Packet([r], q, w', false)
        else Prepend([r], NextPacket(make, end, w', q, Left(room, |r.bytes|)))
  }

  /** One turn of the loop, after the records rs. */
  lemma PacketTurn(make: Maker, end: nat, n: Packet, rs: seq<Wrapped>, w: Writer, p: Place, room: nat)
    requires n == Prepend(rs, NextPacket(make, end, w, p, room)) && p.written < end
    ensures var t := make(w, p, room);
            && (t.NoProgress? ==> n == Packet(rs, p, w, false))
            && (t.SealError? ==> n == Packet(rs, p, t.w, true))
            && (t.Sealed? && t.q.written <= p.written ==> n == Packet(rs + [t.r], t.q, t.w, false))
            && (t.Sealed? && t.q.written > p.written ==>
                  n == Prepend(rs + [t.r], NextPacket(make, end, t.w, t.q, Left(room, |t.r.bytes|))))
  {
    var t := make(w, p, room);
    assert rs + [] == rs;
    if t.Sealed? {
      var rest := NextPacket(make, end, t.w, t.q, Left(room, |t.r.bytes|)).rs;
      Associates(rs, [t.r], rest);
    }
  }

  /** One more record in front of those that follow it. */
  lemma PacketCons(ms: seq<Outgoing>, p: Place, r: Wrapped, rs: seq<Wrapped>, to: Place, room: nat)
    requires Fits(ms, p, r.x) && Walk(ms, After(ms, p, r.x), PiecesOf(rs), to)
    requires WellSealed(r) && AllSealed(rs) && |r.bytes| + |Packed(rs)| <= room
    ensures Walk(ms, p, PiecesOf([r] + rs), to) && AllSealed([r] + rs) && |Packed([r] + rs)| <= room
  {
    WalkCons(ms, p, r.x, PiecesOf(rs), to);
    PiecesCons(r, rs);
    assert ([r] + rs)[1..] == rs;
  }

  /** The records of a packet lead on from where the flight stood, fit the room, and are sealed properly, whether or not
      the next one fails. */
  lemma {:induction false} PacketWalks(make: Maker, ms: seq<Outgoing>, w: Writer, p: Place, room: nat)
    requires PlaceOk(ms, p) && Lawful(make, ms)
    ensures var n := NextPacket(make, |ms|, w, p, room);
            Walk(ms, p, PiecesOf(n.rs), n.to) && |Packed(n.rs)| <= room && AllSealed(n.rs)
    decreases |ms| - p.written
  {
    var t := make(w, p, room);
    assert LawfulAt(t, ms, p, room);
    if p.written < |ms| && t.Sealed? {
      var n := Left(room, |t.r.bytes|);
      if t.q.written > p.written {
        PacketWalks(make, ms, t.w, t.q, n);
        var rest := NextPacket(make, |ms|, t.w, t.q, n);
        PacketCons(ms, p, t.r, rest.rs, rest.to, room);
      } else {
        PacketCons(ms, p, t.r, [], t.q, room);
        assert [t.r] + [] == [t.r];
      }
    }
  }

  /** The packet ends with the flight, behind a piece of a message that did not fit whole, or where the next piece
      makes no progress in what room is left. */
  predicate Full(make: Maker, end: nat, n: Packet, left: int) {
    n.to.written >= end || n.to.offset > 0 || (left >= 0 && make(n.w, n.to, left).NoProgress?)
  }

  lemma PackedCons(r: Wrapped, rs: seq<Wrapped>)
    ensures |Packed([r] + rs)| == |r.bytes| + |Packed(rs)|
  {
    assert ([r] + rs)[1..] == rs;
  }

  lemma FullAfter(make: Maker, end: nat, r: Wrapped, n: Packet, room: nat)
    requires |r.bytes| <= room && Full(make, end, n, Left(room, |r.bytes|) - |Packed(n.rs)|)
    ensures Full(make, end, Prepend([r], n), room - |Packed(Prepend([r], n).rs)|)
  {
    PackedCons(r, n.rs);
  }

  /** A record is no longer than the room, and a message that it does not end is in progress. */
  ghost predicate Steady(make: Maker) { forall w, p, room: nat :: SteadyAt(make(w, p, room), p, room) }

  ghost predicate SteadyAt(t: Tried, p: Place, room: nat) {
    t.Sealed? ==> |t.r.bytes| <= room && (t.q.written <= p.written ==> t.q.offset > 0)
  }

  lemma MakerSteady(make: Maker, k: Keys, ms: seq<Outgoing>)
    requires make == MakerOf(k, ms)
    ensures Steady(make)
  {
    MakerLawful(k, ms);
    forall w, p, room: nat ensures SteadyAt(make(w, p, room), p, room) {
      assert LawfulAt(make(w, p, room), ms, p, room);
    }
  }

  /** A packet takes as many records as it can. */
  lemma {:induction false} PacketIsFull(make: Maker, end: nat, w: Writer, p: Place, room: nat)
    requires Steady(make)
    ensures var n := NextPacket(make, end, w, p, room); n.broken || Full(make, end, n, room - |Packed(n.rs)|)
    decreases end - p.written
  {
    var t := make(w, p, room);
    assert SteadyAt(t, p, room);
    if p.written < end && t.Sealed? && t.q.written > p.written {
      var more := NextPacket(make, end, t.w, t.q, Left(room, |t.r.bytes|));
      PacketIsFull(make, end, t.w, t.q, Left(room, |t.r.bytes|));
      if !more.broken { FullAfter(make, end, t.r, more, room); }
    }
  }

  lemma PacketLeads(make: Maker, ms: seq<Outgoing>, w: Writer, p: Place, room: nat, n: Packet)
    requires PlaceOk(ms, p) && Lawful(make, ms) && n == NextPacket(make, |ms|, w, p, room)
    ensures Walk(ms, p, PiecesOf(n.rs), n.to) && PlaceOk(ms, n.to)
  {
    PacketWalks(make, ms, w, p, room);
    WalkAhead(ms, p, PiecesOf(n.rs), n.to);
  }

  /** In the packet that is made at p, the first j records seal and the next one does not. */
  predicate BreaksAfter(make: Maker, end: nat, w: Writer, p: Place, room: nat, j: nat)
    decreases j
  {
    && p.written < end
    && var t := make(w, p, room);
       if j == 0 then t.SealError?
       else t.Sealed? && t.q.written > p.written && BreaksAfter(make, end, t.w, t.q, Left(room, |t.r.bytes|), j - 1)
  }

  lemma {:induction false} BrokenIff(make: Maker, end: nat, w: Writer, p: Place, room: nat, j: nat)
    ensures var n := NextPacket(make, end, w, p, room);
            n.broken && |n.rs| == j <==> BreaksAfter(make, end, w, p, room, j)
    decreases j
  {
    var t := make(w, p, room);
    if p.written < end && t.Sealed? && t.q.written > p.written && j > 0 {
      BrokenIff(make, end, t.w, t.q, Left(room, |t.r.bytes|), j - 1);
    }
  }

  /** Where a packet stands between two records. */
  datatype Spot = Spot(w: Writer, p: Place, room: nat)

  /** Where it stands with j records sealed and another message to come, if it gets there. */
  function SpotAfter(make: Maker, end: nat, s: Spot, j: nat): Option<Spot>
    decreases j
  {
    if s.p.written >= end then None
    else if j == 0 then Some(s)
    else
      var t := make(s.w, s.p, s.room);
      if t.Sealed? && t.q.written > s.p.written then
        SpotAfter(make, end, Spot(t.w, t.q, Left(s.room, |t.r.bytes|)), j - 1)
      else None
  }

  lemma {:induction false} BreaksAtSpot(make: Maker, end: nat, s: Spot, j: nat)
    ensures var o := SpotAfter(make, end, s, j);
            BreaksAfter(make, end, s.w, s.p, s.room, j) <==>
              o.Some? && make(o.value.w, o.value.p, o.value.room).SealError?
    decreases j
  {
    var t := make(s.w, s.p, s.room);
    if s.p.written < end && j > 0 && t.Sealed? && t.q.written > s.p.written {
      BreaksAtSpot(make, end, Spot(t.w, t.q, Left(s.room, |t.r.bytes|)), j - 1);
    }
  }

  lemma LawfulPlace(t: Tried, ms: seq<Outgoing>, p: Place, room: nat)
    requires LawfulAt(t, ms, p, room) && t.Sealed?
    ensures PlaceOk(ms, t.q)
  {
  }

  lemma {:induction false} SpotInFlight(make: Maker, ms: seq<Outgoing>, s: Spot, j: nat)
    requires PlaceOk(ms, s.p) && Lawful(make, ms) && SpotAfter(make, |ms|, s, j).Some?
    ensures var o := SpotAfter(make, |ms|, s, j); PlaceOk(ms, o.value.p) && o.value.p.written < |ms|
    decreases j
  {
    if j > 0 {
      var t := make(s.w, s.p, s.room);
      LawfulPlace(t, ms, s.p, s.room);
      SpotInFlight(make, ms, Spot(t.w, t.q, Left(s.room, |t.r.bytes|)), j - 1);
    }
  }

  /** A packet breaks after j records if and only if it gets so far, and the record that is to be made there does not
      seal: its message does not parse, the cipher refuses it, its text is too long, or it has the last number. */
  lemma BreaksIffUnsealable(k: Keys, ms: seq<Outgoing>, s: Spot, j: nat)
    requires PlaceOk(ms, s.p) && AeadOk(k.aead)
    ensures var o := SpotAfter(MakerOf(k, ms), |ms|, s, j);
            && (o.Some? ==> PlaceOk(ms, o.value.p) && o.value.p.written < |ms|)
            && (BreaksAfter(MakerOf(k, ms), |ms|, s.w, s.p, s.room, j) <==>
                  o.Some? && Unsealable(o.value.w, k, ms, o.value.p, o.value.room))
  {
    var o := SpotAfter(MakerOf(k, ms), |ms|, s, j);
    MakerLawful(k, ms);
    BreaksAtSpot(MakerOf(k, ms), |ms|, s, j);
    if o.Some? { SpotInFlight(MakerOf(k, ms), ms, s, j); }
    if o.Some? { FailsIffUnsealable(o.value.w, k, ms, o.value.p, o.value.room); }
  }

  // ----- the whole flight -----

  datatype Status = Done | WouldBlock | Failed

  /** dtls1_flush_flight: the packets written, where the last of them ended, where the flight stands, and the writer. */
  datatype Flushed = Flushed(status: Status, sent: seq<seq<Wrapped>>, reached: Place, at: Place, w: Writer)

  /** The loop of dtls1_flush_flight.  `bio` says which writes succeed, the flush of the transport being the last.
      After a failed write the flight stands where the packet began, after a failure to seal where sealing stopped. */
  function FlushFrom(make: Maker, end: nat, w: Writer, p: Place, mtu: nat, bio: seq<bool>): (f: Flushed)
    decreases |bio|
  {
    if p.written >= end then Flushed(if bio != [] && bio[0] then Done else WouldBlock, [], p, p, w)
    else
      var n := NextPacket(make, end, w, p, mtu);
      if n.broken || n.rs == [] then Flushed(Failed, [], p, n.to, n.w)
      else if bio == [] || !bio[0] then Flushed(WouldBlock, [], p, p, n.w)
      else
        var f := FlushFrom(make, end, n.w, n.to, mtu, bio[1..]);
        f.(sent := [n.rs] + f.sent)
  }

  function Resend(sent: seq<seq<Wrapped>>, f: Flushed): Flushed { f.(sent := sent + f.sent) }

  lemma ResendNone(f: Flushed)
    ensures Resend([], f) == f
  {
    assert [] + f.sent == f.sent;
  }

  /** One turn of the loop, after the packets sent. */
  lemma FlushTurn(make: Maker, end: nat, f: Flushed, sent: seq<seq<Wrapped>>, w: Writer, p: Place, mtu: nat,
                  bio: seq<bool>)
    requires f == Resend(sent, FlushFrom(make, end, w, p, mtu, bio)) && p.written < end
    ensures var n := NextPacket(make, end, w, p, mtu);
            f == if n.broken || n.rs == [] then Flushed(Failed, sent, p, n.to, n.w)
                 else if bio == [] || !bio[0] then Flushed(WouldBlock, sent, p, p, n.w)
                 else Resend(sent + [n.rs], FlushFrom(make, end, n.w, n.to, mtu, bio[1..]))
  {
    var n := NextPacket(make, end, w, p, mtu);
    assert sent + [] == sent;
    if bio != [] { Associates(sent, [n.rs], FlushFrom(make, end, n.w, n.to, mtu, bio[1..]).sent); }
  }

  /** The end of the loop. */
  lemma FlushEnd(make: Maker, end: nat, f: Flushed, sent: seq<seq<Wrapped>>, w: Writer, p: Place, mtu: nat,
                 bio: seq<bool>)
    requires f == Resend(sent, FlushFrom(make, end, w, p, mtu, bio)) && p.written >= end
    ensures f == Flushed(if bio != [] && bio[0] then Done else WouldBlock, sent, p, p, w)
  {
    assert sent + [] == sent;
  }

  lemma {:induction false} LooseSnoc(sent: seq<seq<Wrapped>>, rs: seq<Wrapped>)
    ensures Loose(sent + [rs]) == Loose(sent) + PiecesOf(rs)
  {
    if sent == [] {
      assert [rs][1..] == [] && PiecesOf(rs) + [] == PiecesOf(rs);
    } else {
      assert (sent + [rs])[1..] == sent[1..] + [rs];
      LooseSnoc(sent[1..], rs);
    }
  }

  /** The pieces of several packets. */
  function Loose(sent: seq<seq<Wrapped>>): seq<Piece> {
    if sent == [] then [] else PiecesOf(sent[0]) + Loose(sent[1..])
  }

  /** Every packet fits the MTU and is made of properly sealed records. */
  ghost predicate FitsMtu(sent: seq<seq<Wrapped>>, mtu: nat) {
    forall a :: 0 <= a < |sent| ==> |Packed(sent[a])| <= mtu && AllSealed(sent[a])
  }

  /** What is written leads on from where the flight stood, in packets that fit the MTU; the flight stands there or,
      after a failure only, behind it. */
  lemma {:induction false} FlushWalks(make: Maker, ms: seq<Outgoing>, w: Writer, p: Place, mtu: nat, bio: seq<bool>)
    requires PlaceOk(ms, p) && Lawful(make, ms)
    ensures var f := FlushFrom(make, |ms|, w, p, mtu, bio);
            && Walk(ms, p, Loose(f.sent), f.reached) && FitsMtu(f.sent, mtu) && PlaceOk(ms, f.at)
            && (f.status == Done ==> f.at == f.reached == Place(|ms|, 0))
            && (f.at == f.reached || (f.status == Failed && Before(f.reached, f.at)))
    decreases |bio|
  {
    if p.written < |ms| {
      var n := NextPacket(make, |ms|, w, p, mtu);
      PacketWalks(make, ms, w, p, mtu);
      WalkAhead(ms, p, PiecesOf(n.rs), n.to);
      if !n.broken && n.rs != [] && bio != [] && bio[0] {
        var f := FlushFrom(make, |ms|, n.w, n.to, mtu, bio[1..]);
        FlushWalks(make, ms, n.w, n.to, mtu, bio[1..]);
        WalkJoin(ms, p, PiecesOf(n.rs), n.to, Loose(f.sent), f.reached);
        assert ([n.rs] + f.sent)[1..] == f.sent;
      }
    }
  }

  /** The first i packets are made and written, and of the next one the first j records seal and the one after does
      not. */
  predicate BreaksIn(make: Maker, end: nat, w: Writer, p: Place, mtu: nat, bio: seq<bool>, i: nat, j: nat)
    decreases i
  {
    if i == 0 then BreaksAfter(make, end, w, p, mtu, j)
    else
      && p.written < end && bio != [] && bio[0]
      && var n := NextPacket(make, end, w, p, mtu);
         !n.broken && n.rs != [] && BreaksIn(make, end, n.w, n.to, mtu, bio[1..], i - 1, j)
  }

  /** In some packet at least `least` records seal and a later one does not. */
  ghost predicate Breaks(make: Maker, end: nat, w: Writer, p: Place, mtu: nat, bio: seq<bool>, least: nat) {
    exists i: nat, j: nat :: j >= least && BreaksIn(make, end, w, p, mtu, bio, i, j)
  }

  lemma BreaksLater(make: Maker, end: nat, w: Writer, p: Place, mtu: nat, bio: seq<bool>, least: nat)
    requires p.written < end && bio != [] && bio[0]
    requires var n := NextPacket(make, end, w, p, mtu); !n.broken && n.rs != []
    ensures var n := NextPacket(make, end, w, p, mtu);
            Breaks(make, end, w, p, mtu, bio, least) <==> Breaks(make, end, n.w, n.to, mtu, bio[1..], least)
  {
    var n := NextPacket(make, end, w, p, mtu);
    if Breaks(make, end, w, p, mtu, bio, least) {
      var i: nat, j: nat :| j >= least && BreaksIn(make, end, w, p, mtu, bio, i, j);
      if i == 0 { BrokenIff(make, end, w, p, mtu, j); }
      assert BreaksIn(make, end, n.w, n.to, mtu, bio[1..], i - 1, j);
    }
    if Breaks(make, end, n.w, n.to, mtu, bio[1..], least) {
      var i: nat, j: nat :| j >= least && BreaksIn(make, end, n.w, n.to, mtu, bio[1..], i, j);
      assert BreaksIn(make, end, w, p, mtu, bio, i + 1, j);
    }
  }

  lemma BreaksNow(make: Maker, end: nat, w: Writer, p: Place, mtu: nat, bio: seq<bool>, least: nat)
    requires var n := NextPacket(make, end, w, p, mtu);
             p.written >= end || n.broken || n.rs == [] || bio == [] || !bio[0]
    ensures var n := NextPacket(make, end, w, p, mtu);
            Breaks(make, end, w, p, mtu, bio, least) <==> n.broken && |n.rs| >= least
  {
    var n := NextPacket(make, end, w, p, mtu);
    if Breaks(make, end, w, p, mtu, bio, least) {
      var i: nat, j: nat :| j >= least && BreaksIn(make, end, w, p, mtu, bio, i, j);
      BrokenIff(make, end, w, p, mtu, j);
    }
    if n.broken && |n.rs| >= least {
      BrokenIff(make, end, w, p, mtu, |n.rs|);
      assert BreaksIn(make, end, w, p, mtu, bio, 0, |n.rs|);
    }
  }

  /** A flush leaves the flight past the last packet that was written if and only if, in some packet, at least one
      record seals and a later one does not. */
  lemma {:induction false} LeftBehindIff(make: Maker, ms: seq<Outgoing>, w: Writer, p: Place, mtu: nat, bio: seq<bool>)
    requires PlaceOk(ms, p) && Lawful(make, ms)
    ensures var f := FlushFrom(make, |ms|, w, p, mtu, bio); f.at != f.reached <==> Breaks(make, |ms|, w, p, mtu, bio, 1)
    decreases |bio|
  {
    var n := NextPacket(make, |ms|, w, p, mtu);
    PacketWalks(make, ms, w, p, mtu);
    WalkAhead(ms, p, PiecesOf(n.rs), n.to);
    if p.written < |ms| && !n.broken && n.rs != [] && bio != [] && bio[0] {
      LeftBehindIff(make, ms, n.w, n.to, mtu, bio[1..]);
      BreaksLater(make, |ms|, w, p, mtu, bio, 1);
    } else {
      BreaksNow(make, |ms|, w, p, mtu, bio, 1);
    }
  }

  // ----- a flight over several flushes -----

  /** One call of dtls1_flush_flight, with the writer it finds. */
  datatype Attempt = Attempt(k: Keys, w: Writer, mtu: nat, bio: seq<bool>)

  function FlushBy(a: Attempt, ms: seq<Outgoing>, p: Place): Flushed {
    FlushFrom(MakerOf(a.k, ms), |ms|, a.w, p, a.mtu, a.bio)
  }

  /** Whether in some packet of the flush a record seals and a later one does not. */
  ghost predicate Skips(a: Attempt, ms: seq<Outgoing>, p: Place) {
    Breaks(MakerOf(a.k, ms), |ms|, a.w, p, a.mtu, a.bio, 1)
  }

  lemma FlushBehaves(a: Attempt, ms: seq<Outgoing>, p: Place)
    requires PlaceOk(ms, p)
    ensures var f := FlushBy(a, ms, p);
            && Walk(ms, p, Loose(f.sent), f.reached) && PlaceOk(ms, f.at)
            && (f.at == f.reached || Before(f.reached, f.at))
            && (f.at != f.reached <==> Skips(a, ms, p))
  {
    MakerLawful(a.k, ms);
    FlushWalks(MakerOf(a.k, ms), ms, a.w, p, a.mtu, a.bio);
    LeftBehindIff(MakerOf(a.k, ms), ms, a.w, p, a.mtu, a.bio);
  }

  /** Where the flight stands after several flushes, and the pieces that they wrote. */
  function Stands(ms: seq<Outgoing>, p: Place, tries: seq<Attempt>): Place
    decreases |tries|
  {
    if tries == [] then p else Stands(ms, FlushBy(tries[0], ms, p).at, tries[1..])
  }

  function Wrote(ms: seq<Outgoing>, p: Place, tries: seq<Attempt>): seq<Piece>
    decreases |tries|
  {
    if tries == [] then []
    else var f := FlushBy(tries[0], ms, p); Loose(f.sent) + Wrote(ms, f.at, tries[1..])
  }

  ghost predicate SomeSkips(ms: seq<Outgoing>, p: Place, tries: seq<Attempt>)
    decreases |tries|
  {
    tries != [] && (Skips(tries[0], ms, p) || SomeSkips(ms, FlushBy(tries[0], ms, p).at, tries[1..]))
  }

  /** The piece that belongs at s is not among those that went out. */
  ghost predicate Missed(ms: seq<Outgoing>, ps: seq<Piece>, s: Place) {
    && PlaceOk(ms, s) && s.written < |ms|
    && if s.offset < |Body(ms[s.written])| then Times(ps, s.written, s.offset) == 0 else Pieces(ps, s.written) == 0
  }

  lemma NotYetSent(ms: seq<Outgoing>, ps: seq<Piece>, s: Place)
    requires Walk(ms, ORIGIN, ps, s) && s.written < |ms|
    ensures Missed(ms, ps, s)
  {
    WalkAhead(ms, ORIGIN, ps, s);
    WalkCoversOnce(ms, ORIGIN, ps, s, s.written, s.offset);
    WalkPieces(ms, ORIGIN, ps, s, s.written);
  }

  lemma MissedStays(ms: seq<Outgoing>, ps: seq<Piece>, s: Place, p: Place, qs: seq<Piece>, q: Place)
    requires Missed(ms, ps, s) && Before(s, p) && Walk(ms, p, qs, q)
    ensures Missed(ms, ps + qs, s)
  {
    WalkAhead(ms, p, qs, q);
    CountsJoin(ps, qs, s.written, s.offset);
    WalkCoversOnce(ms, p, qs, q, s.written, s.offset);
    WalkPieces(ms, p, qs, q, s.written);
  }

  /** A piece that was skipped never goes out later on. */
  lemma {:induction false} NeverSent(ms: seq<Outgoing>, ps: seq<Piece>, s: Place, p: Place, tries: seq<Attempt>)
    requires Missed(ms, ps, s) && Before(s, p) && PlaceOk(ms, p)
    ensures Missed(ms, ps + Wrote(ms, p, tries), s)
    decreases |tries|
  {
    if tries == [] {
      assert ps + [] == ps;
    } else {
      var f := FlushBy(tries[0], ms, p);
      FlushBehaves(tries[0], ms, p);
      WalkAhead(ms, p, Loose(f.sent), f.reached);
      MissedStays(ms, ps, s, p, Loose(f.sent), f.reached);
      NeverSent(ms, ps + Loose(f.sent), s, f.at, tries[1..]);
      Associates(ps, Loose(f.sent), Wrote(ms, f.at, tries[1..]));
    }
  }

  /** Over any number of flushes, with other records sealed in between, a flight that was sent to its end is covered
      if and only if in no packet some records sealed and a later one did not. */
  lemma {:induction false} CoveredIffNoneSkips(ms: seq<Outgoing>, ps: seq<Piece>, p: Place, tries: seq<Attempt>)
    requires Walk(ms, ORIGIN, ps, p) && Stands(ms, p, tries) == Place(|ms|, 0)
    ensures Covered(ms, ps + Wrote(ms, p, tries)) <==> !SomeSkips(ms, p, tries)
    decreases |tries|
  {
    WalkAhead(ms, ORIGIN, ps, p);
    if tries == [] {
      assert ps + [] == ps;
      WalkCovers(ms, ps);
    } else {
      var f := FlushBy(tries[0], ms, p);
      FlushBehaves(tries[0], ms, p);
      WalkJoin(ms, ORIGIN, ps, p, Loose(f.sent), f.reached);
      Associates(ps, Loose(f.sent), Wrote(ms, f.at, tries[1..]));
      if f.at == f.reached {
        CoveredIffNoneSkips(ms, ps + Loose(f.sent), f.at, tries[1..]);
      } else {
        NotYetSent(ms, ps + Loose(f.sent), f.reached);
        NeverSent(ms, ps + Loose(f.sent), f.reached, f.at, tries[1..]);
        assert !MessageCovered(ms[f.reached.written], ps + Wrote(ms, p, tries), f.reached.written);
      }
    }
  }

  // ----- when a flush completes -----

  /** What is left of a flight from message i on, counting one more than the bytes of each. */
  function WeightFrom(ms: seq<Outgoing>, i: nat): nat
    decreases |ms| - i
  {
    if i >= |ms| then 0 else |Body(ms[i])| + 1 + WeightFrom(ms, i + 1)
  }

  function Weight(ms: seq<Outgoing>, p: Place): nat
    requires PlaceOk(ms, p)
  {
    WeightFrom(ms, p.written) - p.offset
  }

  lemma PieceWeighs(ms: seq<Outgoing>, p: Place, x: Piece)
    requires Fits(ms, p, x)
    ensures Weight(ms, After(ms, p, x)) < Weight(ms, p)
  {
  }

  lemma {:induction false} WalkWeighs(ms: seq<Outgoing>, p: Place, ps: seq<Piece>, q: Place)
    requires Walk(ms, p, ps, q) && PlaceOk(ms, q)
    ensures Weight(ms, q) + |ps| <= Weight(ms, p)
    decreases |ps|
  {
    if ps != [] {
      PieceWeighs(ms, p, ps[0]);
      WalkWeighs(ms, After(ms, p, ps[0]), ps[1..], q);
    }
  }

  /** An empty packet always has room for a piece of the next message. */
  ghost predicate Roomy(make: Maker, ms: seq<Outgoing>, mtu: nat) {
    forall w, p :: PlaceOk(ms, p) && p.written < |ms| ==> !make(w, p, mtu).NoProgress?
  }

  /** If every write works and every message has room, a flush sends the whole rest of the flight if and only if no
      record fails to seal. */
  lemma {:induction false} DoneIffNothingBreaks(make: Maker, ms: seq<Outgoing>, w: Writer, p: Place, mtu: nat,
                                                bio: seq<bool>)
    requires PlaceOk(ms, p) && Lawful(make, ms) && Roomy(make, ms, mtu)
    requires |bio| > Weight(ms, p) && forall i :: 0 <= i < |bio| ==> bio[i]
    ensures FlushFrom(make, |ms|, w, p, mtu, bio).status == Done <==> !Breaks(make, |ms|, w, p, mtu, bio, 0)
    decreases |bio|
  {
    var n := NextPacket(make, |ms|, w, p, mtu);
    if p.written < |ms| && !n.broken {
      assert !make(w, p, mtu).NoProgress?;
      PacketWalks(make, ms, w, p, mtu);
      WalkAhead(ms, p, PiecesOf(n.rs), n.to);
      WalkWeighs(ms, p, PiecesOf(n.rs), n.to);
      DoneIffNothingBreaks(make, ms, n.w, n.to, mtu, bio[1..]);
      BreaksLater(make, |ms|, w, p, mtu, bio, 0);
    } else {
      BreaksNow(make, |ms|, w, p, mtu, bio, 0);
    }
  }

  lemma MakerRoomy(k: Keys, ms: seq<Outgoing>, mtu: nat)
    requires AeadOk(k.aead) && mtu >= HM_HEADER + 1 + RT_HEADER + MaxOverhead(k.aead)
    ensures Roomy(MakerOf(k, ms), ms, mtu)
  {
  }

  /** There are numbers for n more records. */
  predicate Supplied(w: Writer, n: nat) { w.cur + n < EPOCH_UNIT && (w.epoch > 0 ==> w.last + n < EPOCH_UNIT) }

  /** While there are numbers for the rest of the flight, every record seals. */
  ghost predicate Reliable(make: Maker, ms: seq<Outgoing>, mtu: nat) {
    forall w, p, room: nat :: ReliableAt(make(w, p, room), w, ms, p, room, mtu)
  }

  ghost predicate ReliableAt(t: Tried, w: Writer, ms: seq<Outgoing>, p: Place, room: nat, mtu: nat) {
    PlaceOk(ms, p) && p.written < |ms| && room <= mtu && Supplied(w, Weight(ms, p)) ==>
      !t.SealError? && (t.Sealed? ==> PlaceOk(ms, t.q) && Supplied(t.w, Weight(ms, t.q)))
  }

  /** The ciphers refuse nothing. */
  ghost predicate Accepts(a: Option<Aead>) { forall t, v, s, p :: Seal(a, t, v, s, p).Some? }

  predicate AllParse(ms: seq<Outgoing>) { forall i :: 0 <= i < |ms| ==> ms[i].isCcs || Whole(ms[i].data).Some? }

  lemma SupplyLasts(w: Writer, op: Op, n: nat, m: nat)
    requires Supplied(w, n) && m < n && Legal(w, op) && !op.NewCipher?
    ensures Number(w, op) + 1 < EPOCH_UNIT && Supplied(Advance(w, op), m)
  {
  }

  lemma AcceptedSeals(k: Keys, ms: seq<Outgoing>, w: Writer, p: Place, room: nat)
    requires AeadOk(k.aead) && Accepts(k.aead) && AllParse(ms) && room < 0x1_0000 + RT_HEADER
    requires PlaceOk(ms, p) && p.written < |ms| && Number(w, OpFor(w.epoch, ms[p.written].epoch)) + 1 < EPOCH_UNIT
    ensures !Unsealable(w, k, ms, p, room)
  {
    if Choose(w.epoch, k, ms, p, room).Next? {
      ChosenFits(w, k, ms, p, room);
    }
  }

  lemma TryReliable(k: Keys, ms: seq<Outgoing>, mtu: nat, w: Writer, p: Place, room: nat)
    requires AeadOk(k.aead) && Accepts(k.aead) && AllParse(ms) && mtu < 0x1_0000 + RT_HEADER
    requires PlaceOk(ms, p) && p.written < |ms| && room <= mtu && Supplied(w, Weight(ms, p))
    ensures var t := MakerOf(k, ms)(w, p, room);
            !t.SealError? && (t.Sealed? ==> PlaceOk(ms, t.q) && Supplied(t.w, Weight(ms, t.q)))
  {
    var op, t := OpFor(w.epoch, ms[p.written].epoch), TryNext(w, k, ms, p, room);
    SupplyLasts(w, op, Weight(ms, p), Weight(ms, p) - 1);
    AcceptedSeals(k, ms, w, p, room);
    FailsIffUnsealable(w, k, ms, p, room);
    if t.Sealed? {
      PieceWeighs(ms, p, t.r.x);
      SupplyLasts(w, op, Weight(ms, p), Weight(ms, t.q));
    }
  }

  lemma MakerReliable(k: Keys, ms: seq<Outgoing>, mtu: nat)
    requires AeadOk(k.aead) && Accepts(k.aead) && AllParse(ms) && mtu < 0x1_0000 + RT_HEADER
    ensures Reliable(MakerOf(k, ms), ms, mtu)
  {
    forall w, p, room: nat ensures ReliableAt(MakerOf(k, ms)(w, p, room), w, ms, p, room, mtu) {
      if PlaceOk(ms, p) && p.written < |ms| && room <= mtu && Supplied(w, Weight(ms, p)) {
        TryReliable(k, ms, mtu, w, p, room);
      }
    }
  }

  lemma {:induction false} PacketReliable(make: Maker, ms: seq<Outgoing>, w: Writer, p: Place, room: nat, mtu: nat)
    requires PlaceOk(ms, p) && Reliable(make, ms, mtu) && room <= mtu && Supplied(w, Weight(ms, p))
    ensures var n := NextPacket(make, |ms|, w, p, room);
            !n.broken && PlaceOk(ms, n.to) && Supplied(n.w, Weight(ms, n.to))
    decreases |ms| - p.written
  {
    var t := make(w, p, room);
    assert ReliableAt(t, w, ms, p, room, mtu);
    if p.written < |ms| && t.Sealed? && t.q.written > p.written {
      PacketReliable(make, ms, t.w, t.q, Left(room, |t.r.bytes|), mtu);
    }
  }

  lemma {:induction false} NothingBreaks(make: Maker, ms: seq<Outgoing>, w: Writer, p: Place, mtu: nat, bio: seq<bool>)
    requires PlaceOk(ms, p) && Reliable(make, ms, mtu) && Supplied(w, Weight(ms, p))
    ensures !Breaks(make, |ms|, w, p, mtu, bio, 0)
    decreases |bio|
  {
    var n := NextPacket(make, |ms|, w, p, mtu);
    PacketReliable(make, ms, w, p, mtu, mtu);
    if p.written < |ms| && n.rs != [] && bio != [] && bio[0] {
      NothingBreaks(make, ms, n.w, n.to, mtu, bio[1..]);
      BreaksLater(make, |ms|, w, p, mtu, bio, 0);
    } else {
      BreaksNow(make, |ms|, w, p, mtu, bio, 0);
    }
  }

  /** A flight that can be sent: the ciphers accept everything, the MTU leaves room for a piece of every message and
      keeps records inside their length field, and there are numbers and writes enough. */
  ghost predicate CanFinish(k: Keys, ms: seq<Outgoing>, w: Writer, p: Place, mtu: nat, bio: seq<bool>)
    requires PlaceOk(ms, p)
  {
    && Accepts(k.aead)
    && HM_HEADER + 1 + RT_HEADER + MaxOverhead(k.aead) <= mtu < 0x1_0000 + RT_HEADER
    && Supplied(w, Weight(ms, p)) && |bio| > Weight(ms, p) && forall i :: 0 <= i < |bio| ==> bio[i]
  }

  lemma FlushFinishes(k: Keys, ms: seq<Outgoing>, w: Writer, p: Place, mtu: nat, bio: seq<bool>)
    requires PlaceOk(ms, p) && AeadOk(k.aead) && AllParse(ms) && CanFinish(k, ms, w, p, mtu, bio)
    ensures var f := FlushFrom(MakerOf(k, ms), |ms|, w, p, mtu, bio);
            f.status == Done && f.at == Place(|ms|, 0) && (p == ORIGIN ==> Covered(ms, Loose(f.sent)))
  {
    var make := MakerOf(k, ms);
    MakerLawful(k, ms);
    MakerRoomy(k, ms, mtu);
    MakerReliable(k, ms, mtu);
    NothingBreaks(make, ms, w, p, mtu, bio);
    DoneIffNothingBreaks(make, ms, w, p, mtu, bio);
    FlushWalks(make, ms, w, p, mtu, bio);
    if p == ORIGIN { WalkCovers(ms, Loose(FlushFrom(make, |ms|, w, p, mtu, bio).sent)); }
  }

  // ----- a flight that loses its first message -----

  /** A flight with ClientKeyExchange and ChangeCipherSpec, and a writer with one number left. */
  function TwoMessages(): seq<Outgoing> {
    [Outgoing(EncMessage(0, Message(16, [])), 0, false), Outgoing([], 0, true)]
  }

  /** What sealing its two messages gives: the first takes the last number but one, and the second finds none. */
  ghost predicate RunsOut(make: Maker) {
    && (var t := make(Writer(0, EPOCH_UNIT - 2, 0), ORIGIN, 1472);
        t.Sealed? && t.q == Place(1, 0) && t.w == Writer(0, EPOCH_UNIT - 1, 0) && |t.r.bytes| == 25)
    && make(Writer(0, EPOCH_UNIT - 1, 0), Place(1, 0), 1447) == SealError(Writer(0, 0, 0))
    && (var t := make(Writer(0, 0, 0), Place(1, 0), 1472);
        t.Sealed? && t.q == Place(2, 0) && t.r.x == CcsPiece(1))
  }

  lemma NullCipherRunsOut()
    ensures RunsOut(MakerOf(Keys(None, DTLS1_VERSION), TwoMessages()))
  {
    WholeMessage(0, Message(16, []));
  }

  lemma FirstFlush(make: Maker)
    requires RunsOut(make)
    ensures FlushFrom(make, 2, Writer(0, EPOCH_UNIT - 2, 0), ORIGIN, 1472, [true, true])
         == Flushed(Failed, [], ORIGIN, Place(1, 0), Writer(0, 0, 0))
  {
    assert NextPacket(make, 2, Writer(0, EPOCH_UNIT - 1, 0), Place(1, 0), 1447)
        == Packet([], Place(1, 0), Writer(0, 0, 0), true);
  }

  lemma SecondFlush(make: Maker)
    requires RunsOut(make)
    ensures var f := FlushFrom(make, 2, Writer(0, 0, 0), Place(1, 0), 1472, [true, true]);
            f.status == Done && f.at == Place(2, 0) && Loose(f.sent) == [CcsPiece(1)]
  {
    var r := make(Writer(0, 0, 0), Place(1, 0), 1472).r;
    var n := NextPacket(make, 2, Writer(0, 0, 0), Place(1, 0), 1472);
    assert n.rs == [r] && n.to == Place(2, 0) && !n.broken;
    var f := FlushFrom(make, 2, n.w, n.to, 1472, [true]);
    assert [true, true][1..] == [true];
    assert FlushFrom(make, 2, Writer(0, 0, 0), Place(1, 0), 1472, [true, true]) == f.(sent := [[r]] + f.sent);
    assert [[r]] + [] == [[r]] && [[r]][1..] == [];
    assert PiecesOf([r]) + [] == [r.x];
  }

  /** Under the null cipher at number 2^48 - 2, the first record seals and the second does not.  Nothing is written,
      but the flight stands behind the first message, and the next flush sends only the rest. */
  lemma FirstMessageSkipped()
    ensures var ms, k := TwoMessages(), Keys(None, DTLS1_VERSION);
            var a := Attempt(k, Writer(0, EPOCH_UNIT - 2, 0), 1472, [true, true]);
            var f := FlushBy(a, ms, ORIGIN);
            var b := Attempt(k, f.w, 1472, [true, true]);
            && f.status == Failed && f.sent == [] && f.at == Place(1, 0) && Skips(a, ms, ORIGIN)
            && FlushBy(b, ms, f.at).status == Done && Wrote(ms, ORIGIN, [a, b]) == [CcsPiece(1)]
            && !Covered(ms, Wrote(ms, ORIGIN, [a, b]))
  {
    var ms, k := TwoMessages(), Keys(None, DTLS1_VERSION);
    var a := Attempt(k, Writer(0, EPOCH_UNIT - 2, 0), 1472, [true, true]);
    var b := Attempt(k, Writer(0, 0, 0), 1472, [true, true]);
    NullCipherRunsOut();
    FirstFlush(MakerOf(k, ms));
    SecondFlush(MakerOf(k, ms));
    FlushBehaves(a, ms, ORIGIN);
    TwoTries(ms, a, b);
    CoveredIffNoneSkips(ms, [], ORIGIN, [a, b]);
    assert [] + Wrote(ms, ORIGIN, [a, b]) == Wrote(ms, ORIGIN, [a, b]);
  }

  lemma MoreTries(ms: seq<Outgoing>, p: Place, a: Attempt, more: seq<Attempt>)
    ensures var f := FlushBy(a, ms, p);
            && Wrote(ms, p, [a] + more) == Loose(f.sent) + Wrote(ms, f.at, more)
            && Stands(ms, p, [a] + more) == Stands(ms, f.at, more)
            && (SomeSkips(ms, p, [a] + more) <==> Skips(a, ms, p) || SomeSkips(ms, f.at, more))
  {
    assert ([a] + more)[1..] == more;
  }

  lemma TwoTries(ms: seq<Outgoing>, a: Attempt, b: Attempt)
    ensures var f := FlushBy(a, ms, ORIGIN);
            var g := FlushBy(b, ms, f.at);
            && Wrote(ms, ORIGIN, [a, b]) == Loose(f.sent) + Loose(g.sent) && Stands(ms, ORIGIN, [a, b]) == g.at
            && (Skips(a, ms, ORIGIN) ==> SomeSkips(ms, ORIGIN, [a, b]))
  {
    var f := FlushBy(a, ms, ORIGIN);
    MoreTries(ms, ORIGIN, a, [b]);
    MoreTries(ms, f.at, b, []);
    assert [a] + [b] == [a, b] && [b] + [] == [b];
    assert Loose(FlushBy(b, ms, f.at).sent) + [] == Loose(FlushBy(b, ms, f.at).sent);
  }
}
