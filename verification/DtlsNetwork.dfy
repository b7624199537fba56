/** Sender, network and receiver of the handshake with their record layers: flights are cut, sealed and packed by one
    side; packets are scanned, opened and reassembled by the other (d1_both.c, d1_pkt.c, dtls_record.c). */
module DtlsNetwork {
  import opened Bits
  import opened Wrappers
  import opened HandshakeWire
  import opened DtlsReplay
  import opened DtlsRecord
  import opened DtlsFlight
  import opened DtlsPackets
  import R = DtlsReceive

  /** The ciphers that both sides put in use for the messages of one direction, by epoch. */
  type Secrets = nat -> Option<Aead>

  ghost predicate SecretsOk(secrets: Secrets) {
    secrets(0) == None && forall e :: AeadOk(secrets(e))
  }

  // ----- the sender -----

  /** One call of dtls1_flush_flight: the flight and where it stands, the writer, its keys, and what the transport
      does. */
  datatype Call = Call(ms: seq<Outgoing>, from: Place, w: Writer, keys: Keys, mtu: nat, bio: seq<bool>)

  function Sends(c: Call): seq<seq<Wrapped>> {
    FlushFrom(MakerOf(c.keys, c.ms), |c.ms|, c.w, c.from, c.mtu, c.bio).sent
  }

  /** The writer is in the epoch, and its counters are six bytes wide. */
  predicate WriterIn(w: Writer, epoch: nat) {
    w.epoch == epoch < 0x1_0000 && w.cur < EPOCH_UNIT && w.last < EPOCH_UNIT
  }

  ghost predicate CallOk(c: Call, msgs: seq<Message>, secrets: Secrets) {
    && FlightOf(c.ms, msgs) && PlaceOk(c.ms, c.from)
    && WriterIn(c.w, c.w.epoch) && c.keys.aead == secrets(c.w.epoch) && c.keys.version < 0x1_0000
  }

  /** A record that carries ChangeCipherSpec or a piece of one of the messages, sealed with the cipher of its epoch. */
  ghost predicate Honest(r: Wrapped, msgs: seq<Message>, secrets: Secrets) {
    && WellSealed(r) && |r.bytes| < RT_HEADER + 0x1_0000
    && r.epoch < 0x1_0000 && r.number < EPOCH_UNIT && r.version < 0x1_0000 && r.cipher == secrets(r.epoch)
    && (r.x.FragPiece? ==> R.Genuine(msgs, r.x.f) && Encodable(r.x.f.h))
  }

  ghost predicate AllHonest(rs: seq<Wrapped>, msgs: seq<Message>, secrets: Secrets) {
    forall i :: 0 <= i < |rs| ==> Honest(rs[i], msgs, secrets)
  }

  ghost predicate HonestAt(t: Tried, msgs: seq<Message>, secrets: Secrets, epoch: nat) {
    t.Sealed? ==> Honest(t.r, msgs, secrets) && WriterIn(t.w, epoch)
  }

  lemma SealedHonest(c: Call, msgs: seq<Message>, secrets: Secrets, w: Writer, p: Place, room: nat)
    requires SecretsOk(secrets) && CallOk(c, msgs, secrets) && PlaceOk(c.ms, p) && WriterIn(w, c.w.epoch)
    ensures HonestAt(MakerOf(c.keys, c.ms)(w, p, room), msgs, secrets, c.w.epoch)
  {
    var t := MakerOf(c.keys, c.ms)(w, p, room);
    if t.Sealed? {
      var x := Choose(w.epoch, c.keys, c.ms, p, room).x;
      if x.FragPiece? {
        FitsGenuine(c.ms, p, x, msgs);
      }
    }
  }

  lemma {:induction false} PacketHonest(c: Call, msgs: seq<Message>, secrets: Secrets, w: Writer, p: Place, room: nat)
    requires SecretsOk(secrets) && CallOk(c, msgs, secrets) && PlaceOk(c.ms, p) && WriterIn(w, c.w.epoch)
    ensures var n := NextPacket(MakerOf(c.keys, c.ms), |c.ms|, w, p, room);
            AllHonest(n.rs, msgs, secrets) && PlaceOk(c.ms, n.to) && (!n.broken ==> WriterIn(n.w, c.w.epoch))
    decreases |c.ms| - p.written
  {
    var make := MakerOf(c.keys, c.ms);
    var t := make(w, p, room);
    SealedHonest(c, msgs, secrets, w, p, room);
    MakerLawful(c.keys, c.ms);
    assert LawfulAt(t, c.ms, p, room);
    if p.written < |c.ms| && t.Sealed? && t.q.written > p.written {
      PacketHonest(c, msgs, secrets, t.w, t.q, Left(room, |t.r.bytes|));
    }
  }

  ghost predicate SentHonest(sent: seq<seq<Wrapped>>, msgs: seq<Message>, secrets: Secrets) {
    forall i :: 0 <= i < |sent| ==> AllHonest(sent[i], msgs, secrets)
  }

  lemma SentCons(rs: seq<Wrapped>, sent: seq<seq<Wrapped>>, msgs: seq<Message>, secrets: Secrets)
    requires AllHonest(rs, msgs, secrets) && SentHonest(sent, msgs, secrets)
    ensures SentHonest([rs] + sent, msgs, secrets)
  {
  }

  lemma {:induction false} FlushHonest(c: Call, make: Maker, msgs: seq<Message>, secrets: Secrets, w: Writer, p: Place,
                                       bio: seq<bool>)
    requires SecretsOk(secrets) && CallOk(c, msgs, secrets) && PlaceOk(c.ms, p) && WriterIn(w, c.w.epoch)
    requires make == MakerOf(c.keys, c.ms)
    ensures SentHonest(FlushFrom(make, |c.ms|, w, p, c.mtu, bio).sent, msgs, secrets)
    decreases |bio|
  {
    var n := NextPacket(make, |c.ms|, w, p, c.mtu);
    PacketHonest(c, msgs, secrets, w, p, c.mtu);
    if p.written < |c.ms| && !n.broken && n.rs != [] && bio != [] && bio[0] {
      FlushHonest(c, make, msgs, secrets, n.w, n.to, bio[1..]);
      SentCons(n.rs, FlushFrom(make, |c.ms|, n.w, n.to, c.mtu, bio[1..]).sent, msgs, secrets);
    }
  }

  lemma SendsHonest(c: Call, msgs: seq<Message>, secrets: Secrets)
    requires SecretsOk(secrets) && CallOk(c, msgs, secrets)
    ensures SentHonest(Sends(c), msgs, secrets)
  {
    FlushHonest(c, MakerOf(c.keys, c.ms), msgs, secrets, c.w, c.from, c.bio);
  }

  // ----- the network -----

  /** The packet is one that was written in one of the calls. */
  ghost predicate Written(calls: seq<Call>, packet: seq<byte>) {
    exists a, i :: 0 <= a < |calls| && 0 <= i < |Sends(calls[a])| && packet == Packed(Sends(calls[a])[i])
  }

  /** What arrives was written, but any packet may be lost, repeated or overtaken. */
  ghost predicate AllWritten(calls: seq<Call>, packets: seq<seq<byte>>) {
    forall k :: 0 <= k < |packets| ==> Written(calls, packets[k])
  }

  // ----- the receiver -----

  /** The record layer's reading half: the window, and what is left of the packet that was read last. */
  datatype Link = Link(r: Reader, rest: seq<byte>)

  /** What the handshake makes of an opened record.  Flights carry no alerts; one would end the handshake here. */
  function RecordOf(o: Opened): R.Record {
    if !o.Success? then R.OtherRecord
    else if o.ty == RT_HANDSHAKE then R.Handshake(o.plain)
    else if o.ty == RT_CHANGE_CIPHER_SPEC then R.ChangeCipherSpec(o.plain)
    else if o.ty == RT_APPLICATION_DATA then R.ApplicationData
    else R.OtherRecord
  }

  lemma {:induction false} ScanShrinks(r: Reader, aead: Option<Aead>, version: Option<nat>, s: seq<byte>)
    ensures var (o, rest, _) := Scan(r, aead, version, s); !o.Discard? ==> |rest| < |s|
    decreases |s|
  {
    if s != [] && ParseRecord(s, version).Some? {
      var (raw, rest) := ParseRecord(s, version).value;
      ScanShrinks(DtlsReplay.Next(r, Arrives(FromBigEndian(raw.sequence), Opens(aead, raw))), aead, version, rest);
    }
  }

  /** A record that the handshake is given, and the link once it has been read. */
  datatype Arrival = Arrival(record: R.Record, after: Link)

  /** What calls of dtls1_get_record give one after the other while these packets arrive. */
  ghost function Pull(l: Link, aead: Option<Aead>, version: Option<nat>, packets: seq<seq<byte>>): seq<Arrival>
    decreases |packets|, |l.rest|
  {
    ScanShrinks(l.r, aead, version, l.rest);
    var (o, rest, r) := Scan(l.r, aead, version, l.rest);
    if !o.Discard? then [Arrival(RecordOf(o), Link(r, rest))] + Pull(Link(r, rest), aead, version, packets)
    else if packets == [] then []
    else Pull(Link(r, packets[0]), aead, version, packets[1..])
  }

  function RecordsOf(xs: seq<Arrival>): (rs: seq<R.Record>)
    ensures |rs| == |xs|
  {
    seq(|xs|, i requires 0 <= i < |xs| => xs[i].record)
  }

  /** The link once all but `left` of the records have been read. */
  function LinkAt(l: Link, xs: seq<Arrival>, left: nat): Link {
    if left < |xs| then xs[|xs|-1-left].after else l
  }

  /** The link once everything that arrived has been read. */
  function Drained(l: Link, xs: seq<Arrival>): Link { LinkAt(l, xs, 0).(rest := []) }

  /** How many records are left behind ChangeCipherSpec. */
  function CcsLeaves(records: seq<R.Record>): nat {
    if records == [] then 0
    else if records[0].Handshake? then CcsLeaves(records[1..])
    else |records| - 1
  }

  /** What the layers above do, as in R.Call; packets arrive meanwhile.  The version is the negotiated one, if any. */
  datatype Turn =
    | Get(version: Option<nat>, packets: seq<seq<byte>>)
    | PushBack
    | Switch(version: Option<nat>, packets: seq<seq<byte>>)

  datatype Peer = Peer(conn: R.Conn, link: Link)

  ghost function PulledIn(p: Peer, secrets: Secrets, t: Turn): seq<Arrival> {
    if t.PushBack? then [] else Pull(p.link, secrets(p.link.r.generation), t.version, t.packets)
  }

  /** What the handshake's half of the receiver is asked to do. */
  ghost function CallOf(p: Peer, secrets: Secrets, t: Turn): R.Call {
    var records := RecordsOf(PulledIn(p, secrets, t));
    match t
    case Get(_, _) => R.Get(records)
    case PushBack => R.PushBack
    case Switch(_, _) => R.Switch(records)
  }

  ghost function LinkAfter(p: Peer, secrets: Secrets, maxLen: nat, t: Turn): Link
    requires |p.conn.r.ring| == FLIGHT
  {
    var xs := PulledIn(p, secrets, t);
    match t
    case Get(_, _) =>
      var g := R.GetMessage(p.conn.r, maxLen, RecordsOf(xs));
      if g.Delivered? then LinkAt(p.link, xs, |g.rest|) else Drained(p.link, xs)
    case PushBack => p.link
    case Switch(_, _) =>
      var l := LinkAt(p.link, xs, CcsLeaves(RecordsOf(xs)));
      if R.ReadCcs(RecordsOf(xs)).GotCcs? then l.(r := DtlsReplay.Next(l.r, DtlsReplay.Switch)) else Drained(p.link, xs)
  }

  /** One turn of the receiver, both halves together. */
  ghost function Step(p: Peer, secrets: Secrets, maxLen: nat, t: Turn): (p': Peer)
    requires |p.conn.r.ring| == FLIGHT
    ensures |p'.conn.r.ring| == FLIGHT
  {
    if p.conn.dead then p
    else
      var conn := R.Step(p.conn, maxLen, CallOf(p, secrets, t));
      if conn.dead then p.(conn := conn) else Peer(conn, LinkAfter(p, secrets, maxLen, t))
  }

  ghost function Run(p: Peer, secrets: Secrets, maxLen: nat, ts: seq<Turn>): (p': Peer)
    requires |p.conn.r.ring| == FLIGHT
    ensures |p'.conn.r.ring| == FLIGHT
    decreases |ts|
  {
    if ts == [] then p else Run(Step(p, secrets, maxLen, ts[0]), secrets, maxLen, ts[1..])
  }

  const FRESH: Peer := Peer(R.Conn(R.START, [], false), Link(Reader(0, EMPTY_WINDOW), []))

  // ----- what arrives is what was sent -----

  lemma ParseSealed(raw: RawRecord, rest: seq<byte>, version: Option<nat>)
    requires |raw.sequence| == 8 && raw.version < 0x1_0000 && |raw.body| < 0x1_0000
    ensures var o := ParseRecord(EncRecord(raw) + rest, version); o.None? || o == Some((raw, rest))
  {
    RecordFields(raw, rest);
  }

  /** The bytes are honest records, one after the other: a packet that was sent, or what is left of one. */
  ghost predicate HonestBytes(s: seq<byte>, msgs: seq<Message>, secrets: Secrets) {
    exists rs :: AllHonest(rs, msgs, secrets) && s == Packed(rs)
  }

  function RawOf(r: Wrapped): RawRecord
    requires WellSealed(r)
  {
    var sequence := SequenceBytes(r.epoch, r.number);
    RawRecord(PieceType(r.x), r.version, sequence,
              Seal(r.cipher, PieceType(r.x), r.version, sequence, PieceBytes(r.x)).value)
  }

  /** A record that is not dropped opens to the piece in it, unless that is too long. */
  lemma HonestOpens(r: Wrapped, reader: Reader, msgs: seq<Message>, secrets: Secrets)
    requires SecretsOk(secrets) && Honest(r, msgs, secrets) && reader.generation < 0x1_0000
    ensures var o := OpenRaw(reader, secrets(reader.generation), RawOf(r));
            o.Discard? || o.Overflow? || o == Success(PieceType(r.x), PieceBytes(r.x))
  {
    SequenceNumber(r.epoch, r.number);
    NumberEpoch(r.epoch, r.number);
  }

  /** An opened record is ChangeCipherSpec or holds a piece of the sender's messages. */
  ghost predicate GenuineRecord(rec: R.Record, msgs: seq<Message>) {
    rec.Handshake? ==> R.GenuinePayload(msgs, rec.payload)
  }

  lemma PieceGenuine(r: Wrapped, msgs: seq<Message>, secrets: Secrets)
    requires Honest(r, msgs, secrets)
    ensures GenuineRecord(RecordOf(Success(PieceType(r.x), PieceBytes(r.x))), msgs)
  {
    if r.x.FragPiece? {
      R.GenuineFragments(msgs, [r.x.f]);
      assert EncFragments([r.x.f]) == EncFragment(r.x.f) + EncFragments([]) == EncFragment(r.x.f);
    }
  }

  /** The first record ends the packet, is given out, or is as if it were not there. */
  lemma FirstScanned(reader: Reader, r: Wrapped, rest: seq<byte>, version: Option<nat>, msgs: seq<Message>,
                     secrets: Secrets)
    requires SecretsOk(secrets) && Honest(r, msgs, secrets) && reader.generation < 0x1_0000
    ensures var aead := secrets(reader.generation);
            var found := Scan(reader, aead, version, r.bytes + rest);
            || found == (Discard, [], reader)
            || found == Scan(reader, aead, version, rest)
            || (found.1 == rest && found.2.generation == reader.generation && GenuineRecord(RecordOf(found.0), msgs))
  {
    ParseSealed(RawOf(r), rest, version);
    HonestOpens(r, reader, msgs, secrets);
    PieceGenuine(r, msgs, secrets);
  }

  lemma {:induction false} ScanHonest(reader: Reader, version: Option<nat>, rs: seq<Wrapped>, msgs: seq<Message>,
                                      secrets: Secrets)
    requires SecretsOk(secrets) && AllHonest(rs, msgs, secrets) && reader.generation < 0x1_0000
    ensures var (o, rest, r) := Scan(reader, secrets(reader.generation), version, Packed(rs));
            && r.generation == reader.generation && HonestBytes(rest, msgs, secrets)
            && GenuineRecord(RecordOf(o), msgs)
    decreases |rs|
  {
    assert AllHonest([], msgs, secrets) && Packed([]) == [];
    if rs != [] {
      assert AllHonest(rs[1..], msgs, secrets);
      FirstScanned(reader, rs[0], Packed(rs[1..]), version, msgs, secrets);
      ScanHonest(reader, version, rs[1..], msgs, secrets);
    }
  }

  ghost predicate LinkOk(l: Link, generation: nat, msgs: seq<Message>, secrets: Secrets) {
    l.r.generation == generation && HonestBytes(l.rest, msgs, secrets)
  }

  ghost predicate ArrivalsOk(xs: seq<Arrival>, generation: nat, msgs: seq<Message>, secrets: Secrets) {
    forall i :: 0 <= i < |xs| ==> GenuineRecord(xs[i].record, msgs) && LinkOk(xs[i].after, generation, msgs, secrets)
  }

  lemma ArrivalsCons(x: Arrival, xs: seq<Arrival>, generation: nat, msgs: seq<Message>, secrets: Secrets)
    requires GenuineRecord(x.record, msgs) && LinkOk(x.after, generation, msgs, secrets)
    requires ArrivalsOk(xs, generation, msgs, secrets)
    ensures ArrivalsOk([x] + xs, generation, msgs, secrets)
  {
  }

  lemma {:induction false} PullHonest(l: Link, aead: Option<Aead>, version: Option<nat>, packets: seq<seq<byte>>,
                                      msgs: seq<Message>, secrets: Secrets)
    requires SecretsOk(secrets) && l.r.generation < 0x1_0000 && HonestBytes(l.rest, msgs, secrets)
    requires aead == secrets(l.r.generation)
    requires forall k :: 0 <= k < |packets| ==> HonestBytes(packets[k], msgs, secrets)
    ensures ArrivalsOk(Pull(l, aead, version, packets), l.r.generation, msgs, secrets)
    decreases |packets|, |l.rest|
  {
    var rs :| AllHonest(rs, msgs, secrets) && l.rest == Packed(rs);
    ScanHonest(l.r, version, rs, msgs, secrets);
    ScanShrinks(l.r, aead, version, l.rest);
    var (o, rest, r) := Scan(l.r, aead, version, l.rest);
    if !o.Discard? {
      var x := Arrival(RecordOf(o), Link(r, rest));
      PullHonest(x.after, aead, version, packets, msgs, secrets);
      ArrivalsCons(x, Pull(x.after, aead, version, packets), l.r.generation, msgs, secrets);
    } else if packets != [] {
      PullHonest(Link(r, packets[0]), aead, version, packets[1..], msgs, secrets);
    }
  }

  lemma PackedHonest(sent: seq<seq<Wrapped>>, i: nat, msgs: seq<Message>, secrets: Secrets)
    requires SentHonest(sent, msgs, secrets) && i < |sent|
    ensures HonestBytes(Packed(sent[i]), msgs, secrets)
  {
  }

  lemma WrittenHonest(calls: seq<Call>, packet: seq<byte>, msgs: seq<Message>, secrets: Secrets)
    requires SecretsOk(secrets) && forall a :: 0 <= a < |calls| ==> CallOk(calls[a], msgs, secrets)
    requires Written(calls, packet)
    ensures HonestBytes(packet, msgs, secrets)
  {
    var a, i :| 0 <= a < |calls| && 0 <= i < |Sends(calls[a])| && packet == Packed(Sends(calls[a])[i]);
    SendsHonest(calls[a], msgs, secrets);
    PackedHonest(Sends(calls[a]), i, msgs, secrets);
  }

  // ----- what arrives is given to the handshake -----

  function FullNumber(x: Wrapped): nat { x.epoch * EPOCH_UNIT + x.number }

  /** The reader takes a record of its own epoch that is neither a replay nor too old. */
  predicate Hears(r: Reader, x: Wrapped) {
    x.epoch == r.generation && !ShouldDiscard(r.w, FullNumber(x))
  }

  function Noted(r: Reader, x: Wrapped): Reader { r.(w := Record(r.w, FullNumber(x))) }

  /** What is in a record, as the handshake gets it. */
  function Contents(x: Wrapped): R.Record { RecordOf(Success(PieceType(x.x), PieceBytes(x.x))) }

  /** What the sender puts into a record is what the receiver takes it for: the fragment, or ChangeCipherSpec. */
  lemma ContentsTaken(x: Wrapped, more: seq<R.Record>)
    ensures x.x.FragPiece? ==> Contents(x) == R.Handshake(EncFragment(x.x.f))
    ensures x.x.CcsPiece? ==> R.ReadCcs([Contents(x)] + more).GotCcs?
  {
  }

  /** The records that the reader takes from these, in their order. */
  function Heard(r: Reader, xs: seq<Wrapped>): seq<R.Record>
    decreases |xs|
  {
    if xs == [] then []
    else if Hears(r, xs[0]) then [Contents(xs[0])] + Heard(Noted(r, xs[0]), xs[1..])
    else Heard(r, xs[1..])
  }

  lemma HeardCons(r: Reader, x: Wrapped, xs: seq<Wrapped>)
    ensures Heard(r, [x] + xs) == if Hears(r, x) then [Contents(x)] + Heard(Noted(r, x), xs) else Heard(r, xs)
  {
    assert ([x] + xs)[1..] == xs;
  }

  function Flat(xss: seq<seq<Wrapped>>): seq<Wrapped> {
    if xss == [] then [] else xss[0] + Flat(xss[1..])
  }

  /** The packets that carry these records. */
  function PackedAll(xss: seq<seq<Wrapped>>): (packets: seq<seq<byte>>)
    ensures |packets| == |xss|
  {
    seq(|xss|, i requires 0 <= i < |xss| => Packed(xss[i]))
  }

  /** The record is of the negotiated version and as long as a record may be. */
  predicate Legible(r: Wrapped, version: nat) {
    && r.version == version && version / 256 == 0xfe
    && |r.bytes| <= RT_HEADER + MAX_ENCRYPTED && |PieceBytes(r.x)| <= MAX_PLAIN
  }

  lemma HonestParses(r: Wrapped, rest: seq<byte>, version: nat)
    requires WellSealed(r) && Legible(r, version)
    ensures ParseRecord(r.bytes + rest, Some(version)) == Some((RawOf(r), rest))
  {
    ParseEncoded(RawOf(r), rest, Some(version));
  }

  /** An honest record opens to the piece in it if it is taken; otherwise it is dropped and leaves no trace. */
  lemma HonestTaken(reader: Reader, r: Wrapped, version: nat, msgs: seq<Message>, secrets: Secrets)
    requires SecretsOk(secrets) && Honest(r, msgs, secrets) && Legible(r, version) && reader.generation < 0x1_0000
    ensures var aead, raw := secrets(reader.generation), RawOf(r);
            && OpenRaw(reader, aead, raw) ==
                 (if Hears(reader, r) then Success(PieceType(r.x), PieceBytes(r.x)) else Discard)
            && DtlsReplay.Next(reader, Arrives(FromBigEndian(raw.sequence), Opens(aead, raw))) ==
                 (if Hears(reader, r) then Noted(reader, r) else reader)
  {
    SequenceNumber(r.epoch, r.number);
    NumberEpoch(r.epoch, r.number);
  }

  lemma HonestScan(reader: Reader, r: Wrapped, rest: seq<byte>, version: nat, msgs: seq<Message>, secrets: Secrets)
    requires SecretsOk(secrets) && Honest(r, msgs, secrets) && Legible(r, version) && reader.generation < 0x1_0000
    ensures var aead := secrets(reader.generation);
            Scan(reader, aead, Some(version), r.bytes + rest) ==
              if Hears(reader, r) then (Success(PieceType(r.x), PieceBytes(r.x)), rest, Noted(reader, r))
              else Scan(reader, aead, Some(version), rest)
  {
    HonestParses(r, rest, version);
    HonestTaken(reader, r, version, msgs, secrets);
  }

  lemma RecordsCons(x: Arrival, xs: seq<Arrival>)
    ensures RecordsOf([x] + xs) == [x.record] + RecordsOf(xs)
  {
  }

  /** The first record of a packet is taken, or it is as if it were not there. */
  lemma FirstPulled(reader: Reader, r: Wrapped, rest: seq<byte>, packets: seq<seq<byte>>, version: nat,
                    msgs: seq<Message>, secrets: Secrets)
    requires SecretsOk(secrets) && Honest(r, msgs, secrets) && Legible(r, version) && reader.generation < 0x1_0000
    ensures var aead := secrets(reader.generation);
            RecordsOf(Pull(Link(reader, r.bytes + rest), aead, Some(version), packets)) ==
              if Hears(reader, r) then
                [Contents(r)] + RecordsOf(Pull(Link(Noted(reader, r), rest), aead, Some(version), packets))
              else RecordsOf(Pull(Link(reader, rest), aead, Some(version), packets))
  {
    HonestScan(reader, r, rest, version, msgs, secrets);
    if Hears(reader, r) {
      var after := Link(Noted(reader, r), rest);
      RecordsCons(Arrival(Contents(r), after), Pull(after, secrets(reader.generation), Some(version), packets));
    }
  }

  ghost predicate AllLegible(xs: seq<Wrapped>, version: nat, msgs: seq<Message>, secrets: Secrets) {
    forall i :: 0 <= i < |xs| ==> Honest(xs[i], msgs, secrets) && Legible(xs[i], version)
  }

  lemma LegibleParts(a: seq<Wrapped>, b: seq<Wrapped>, version: nat, msgs: seq<Message>, secrets: Secrets)
    requires AllLegible(a + b, version, msgs, secrets)
    ensures AllLegible(a, version, msgs, secrets) && AllLegible(b, version, msgs, secrets)
  {
    assert forall i :: 0 <= i < |a| ==> a[i] == (a + b)[i];
    assert forall i :: 0 <= i < |b| ==> b[i] == (a + b)[|a| + i];
  }

  /** Of the packets that arrive, the handshake is given exactly the records of its epoch that are neither replays nor
      too old, whole and in their order; the rest of a packet is read before the next one. */
  lemma {:induction false} PacketsHeard(reader: Reader, xs: seq<Wrapped>, more: seq<seq<Wrapped>>, version: nat,
                                        msgs: seq<Message>, secrets: Secrets)
    requires SecretsOk(secrets) && reader.generation < 0x1_0000
    requires AllLegible(xs + Flat(more), version, msgs, secrets)
    ensures RecordsOf(Pull(Link(reader, Packed(xs)), secrets(reader.generation), Some(version), PackedAll(more)))
         == Heard(reader, xs + Flat(more))
    decreases |more|, |xs|
  {
    if xs != [] {
      HeadJoin(xs, Flat(more));
      LegibleParts([xs[0]], xs[1..] + Flat(more), version, msgs, secrets);
      assert [xs[0]][0] == xs[0];
      FirstPulled(reader, xs[0], Packed(xs[1..]), PackedAll(more), version, msgs, secrets);
      HeardCons(reader, xs[0], xs[1..] + Flat(more));
      PacketsHeard(if Hears(reader, xs[0]) then Noted(reader, xs[0]) else reader, xs[1..], more, version, msgs,
                   secrets);
    } else if more != [] {
      assert xs + Flat(more) == more[0] + Flat(more[1..]);
      assert PackedAll(more)[1..] == PackedAll(more[1..]);
      PacketsHeard(reader, more[0], more[1..], version, msgs, secrets);
    }
  }

  // ----- what is left is read next -----

  lemma PullFirst(l: Link, aead: Option<Aead>, version: Option<nat>)
    requires Pull(l, aead, version, []) != []
    ensures var xs := Pull(l, aead, version, []);
            |xs[0].after.rest| < |l.rest| && xs[1..] == Pull(xs[0].after, aead, version, [])
  {
    ScanShrinks(l.r, aead, version, l.rest);
  }

  /** Nothing of a packet is lost between two calls: the link that some records leave gives the others. */
  lemma {:induction false} LeftIsReadNext(l: Link, aead: Option<Aead>, version: Option<nat>, left: nat)
    requires left < |Pull(l, aead, version, [])|
    ensures var xs := Pull(l, aead, version, []); Pull(LinkAt(l, xs, left), aead, version, []) == xs[|xs| - left..]
    decreases |l.rest|
  {
    PullFirst(l, aead, version);
    var xs := Pull(l, aead, version, []);
    var more := xs[1..];
    if left < |more| {
      LeftIsReadNext(xs[0].after, aead, version, left);
      assert LinkAt(l, xs, left) == LinkAt(xs[0].after, more, left);
      assert more[|more| - left..] == xs[|xs| - left..];
    }
  }

  /** What is left behind ChangeCipherSpec is what comes after it. */
  lemma {:induction false} LeftBehindCcs(records: seq<R.Record>, k: nat)
    requires k < |records| && !records[k].Handshake? && forall j :: 0 <= j < k ==> records[j].Handshake?
    ensures CcsLeaves(records) == |records| - 1 - k
  {
    if k > 0 { LeftBehindCcs(records[1..], k - 1); }
  }

  // ----- whole runs -----

  /** The messages delivered are the sender's, what is unread was sent, and both halves are in the same epoch. */
  ghost predicate InTouch(p: Peer, msgs: seq<Message>, secrets: Secrets)
    requires |p.conn.r.ring| == FLIGHT
  {
    R.InOrder(p.conn, msgs) && LinkOk(p.link, p.conn.r.epoch, msgs, secrets)
  }

  ghost predicate TurnOk(t: Turn, calls: seq<Call>) { t.PushBack? || AllWritten(calls, t.packets) }

  lemma PulledGenuine(p: Peer, t: Turn, calls: seq<Call>, msgs: seq<Message>, secrets: Secrets)
    requires |p.conn.r.ring| == FLIGHT && InTouch(p, msgs, secrets) && p.conn.r.epoch < 0x1_0000
    requires SecretsOk(secrets) && forall a :: 0 <= a < |calls| ==> CallOk(calls[a], msgs, secrets)
    requires TurnOk(t, calls)
    ensures ArrivalsOk(PulledIn(p, secrets, t), p.conn.r.epoch, msgs, secrets)
  {
    if !t.PushBack? {
      forall k | 0 <= k < |t.packets| ensures HonestBytes(t.packets[k], msgs, secrets) {
        WrittenHonest(calls, t.packets[k], msgs, secrets);
      }
      PullHonest(p.link, secrets(p.link.r.generation), t.version, t.packets, msgs, secrets);
    }
  }

  lemma LinksOk(l: Link, xs: seq<Arrival>, left: nat, generation: nat, msgs: seq<Message>, secrets: Secrets)
    requires LinkOk(l, generation, msgs, secrets) && ArrivalsOk(xs, generation, msgs, secrets)
    ensures LinkOk(LinkAt(l, xs, left), generation, msgs, secrets) && LinkOk(Drained(l, xs), generation, msgs, secrets)
  {
    assert AllHonest([], msgs, secrets) && Packed([]) == [];
  }

  /** The epoch of the handshake's half changes with the cipher and not otherwise. */
  lemma EpochAfter(c: R.Conn, maxLen: nat, call: R.Call)
    requires |c.r.ring| == FLIGHT && !c.dead && !R.Step(c, maxLen, call).dead
    ensures R.Step(c, maxLen, call).r.epoch == c.r.epoch +
              if call.Switch? && R.ReadCcs(call.records).GotCcs? then 1 else 0
  {
    if call.Get? {
      AwaitEpoch(R.Advance(c.r), maxLen, call.records);
    }
  }

  lemma {:induction false} AwaitEpoch(r: R.Receiver, maxLen: nat, records: seq<R.Record>)
    requires |r.ring| == FLIGHT
    ensures var g := R.Await(r, maxLen, records); g.Delivered? || g.Blocked? ==> g.r.epoch == r.epoch
    decreases |records|
  {
    if !R.Ready(r) && records != [] {
      var o := R.RecvRecord(r, maxLen, records[0]);
      if o.Some? {
        if records[0].Handshake? { PayloadEpoch(r, maxLen, records[0].payload); }
        AwaitEpoch(o.value, maxLen, records[1..]);
      }
    }
  }

  lemma {:induction false} PayloadEpoch(r: R.Receiver, maxLen: nat, s: seq<byte>)
    requires |r.ring| == FLIGHT
    ensures var o := R.RecvPayload(r, maxLen, s); o.Some? ==> o.value.epoch == r.epoch
    decreases |s|
  {
    if s != [] && ParseFragment(s).Some? {
      var (f, rest) := ParseFragment(s).value;
      var o := R.RecvFragment(r, maxLen, f);
      if o.Some? { PayloadEpoch(o.value, maxLen, rest); }
    }
  }

  lemma StepInTouch(p: Peer, maxLen: nat, t: Turn, calls: seq<Call>, msgs: seq<Message>, secrets: Secrets)
    requires |p.conn.r.ring| == FLIGHT && InTouch(p, msgs, secrets) && p.conn.r.epoch < 0x1_0000
    requires SecretsOk(secrets) && forall a :: 0 <= a < |calls| ==> CallOk(calls[a], msgs, secrets)
    requires TurnOk(t, calls)
    ensures InTouch(Step(p, secrets, maxLen, t), msgs, secrets)
  {
    var xs, call := PulledIn(p, secrets, t), CallOf(p, secrets, t);
    PulledGenuine(p, t, calls, msgs, secrets);
    R.StepInOrder(p.conn, maxLen, call, msgs);
    if !p.conn.dead && !R.Step(p.conn, maxLen, call).dead {
      EpochAfter(p.conn, maxLen, call);
      LinksOk(p.link, xs, CcsLeaves(RecordsOf(xs)), p.conn.r.epoch, msgs, secrets);
      var g := R.GetMessage(p.conn.r, maxLen, RecordsOf(xs));
      if t.Get? && g.Delivered? { LinksOk(p.link, xs, |g.rest|, p.conn.r.epoch, msgs, secrets); }
    }
  }

  lemma EpochsGrow(p: Peer, secrets: Secrets, maxLen: nat, t: Turn)
    requires |p.conn.r.ring| == FLIGHT
    ensures p.conn.r.epoch <= Step(p, secrets, maxLen, t).conn.r.epoch
  {
    var call := CallOf(p, secrets, t);
    if !p.conn.dead && !R.Step(p.conn, maxLen, call).dead {
      EpochAfter(p.conn, maxLen, call);
    }
  }

  lemma {:induction false} RunInTouch(p: Peer, maxLen: nat, ts: seq<Turn>, calls: seq<Call>, msgs: seq<Message>,
                                      secrets: Secrets)
    requires |p.conn.r.ring| == FLIGHT && InTouch(p, msgs, secrets)
    requires SecretsOk(secrets) && forall a :: 0 <= a < |calls| ==> CallOk(calls[a], msgs, secrets)
    requires forall k :: 0 <= k < |ts| ==> TurnOk(ts[k], calls)
    ensures var p' := Run(p, secrets, maxLen, ts);
            && p.conn.r.epoch <= p'.conn.r.epoch
            && (p'.conn.r.epoch < 0x1_0000 ==> InTouch(p', msgs, secrets))
    decreases |ts|
  {
    if ts != [] {
      EpochsGrow(p, secrets, maxLen, ts[0]);
      if p.conn.r.epoch < 0x1_0000 {
        StepInTouch(p, maxLen, ts[0], calls, msgs, secrets);
        RunInTouch(Step(p, secrets, maxLen, ts[0]), maxLen, ts[1..], calls, msgs, secrets);
      } else {
        RunEpochsGrow(Step(p, secrets, maxLen, ts[0]), secrets, maxLen, ts[1..]);
      }
    }
  }

  lemma {:induction false} RunEpochsGrow(p: Peer, secrets: Secrets, maxLen: nat, ts: seq<Turn>)
    requires |p.conn.r.ring| == FLIGHT
    ensures p.conn.r.epoch <= Run(p, secrets, maxLen, ts).conn.r.epoch
    decreases |ts|
  {
    if ts != [] {
      EpochsGrow(p, secrets, maxLen, ts[0]);
      RunEpochsGrow(Step(p, secrets, maxLen, ts[0]), secrets, maxLen, ts[1..]);
    }
  }

  /** From the sender's flights to the receiver's messages, through both record layers.  Whatever calls flush and
      flush again whatever flights, under whatever ciphers, room and failing writes, and whatever packets the network
      loses, repeats and reorders, the receiver delivers the sender's messages byte for byte, in order and without a
      gap, as long as the 16-bit epoch does not wrap. */
  lemma PacketsToMessages(msgs: seq<Message>, secrets: Secrets, calls: seq<Call>, maxLen: nat, ts: seq<Turn>)
    requires SecretsOk(secrets) && forall a :: 0 <= a < |calls| ==> CallOk(calls[a], msgs, secrets)
    requires forall k :: 0 <= k < |ts| ==> TurnOk(ts[k], calls)
    ensures var p := Run(FRESH, secrets, maxLen, ts);
            p.conn.r.epoch < 0x1_0000 ==> p.conn.log <= msgs && p.link.r.generation == p.conn.r.epoch
  {
    R.StartInOrder(msgs);
    assert AllHonest([], msgs, secrets) && Packed([]) == [];
    RunInTouch(FRESH, maxLen, ts, calls, msgs, secrets);
  }
}
