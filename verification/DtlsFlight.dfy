/** Cutting a flight of handshake messages into records (d1_both.c:494-811): which pieces of which messages go out, and
    what that means for the receiver. */
module DtlsFlight {
  import opened Bits
  import opened Wrappers
  import opened HandshakeWire
  import R = DtlsReceive

  /** DTLS_OUTGOING_MESSAGE */
  datatype Outgoing = Outgoing(data: seq<byte>, epoch: nat, isCcs: bool)

  /** outgoing_written and outgoing_offset */
  datatype Place = Place(written: nat, offset: nat)

  /** The contents of one record: ChangeCipherSpec, or a fragment of message w of the flight. */
  datatype Piece = CcsPiece(w: nat) | FragPiece(w: nat, f: Fragment)

  /** The message in `data`, which has to be serialised as one fragment. */
  function Whole(data: seq<byte>): Option<Fragment> {
    match ParseFragment(data)
    case None => None
    case Some((f, rest)) =>
      if f.h.fragOff == 0 && f.h.fragLen == f.h.msgLen && rest == [] then Some(f) else None
  }

  /** What is queued parses if and only if it is a message serialised as a single fragment. */
  lemma WholeIff(data: seq<byte>, f: Fragment)
    ensures Whole(data) == Some(f) <==>
              Encodable(f.h) && f.h.fragOff == 0 && f.h.fragLen == f.h.msgLen == |f.body| && data == EncFragment(f)
  {
    if Whole(data) == Some(f) {
      ParsedIsEncoded(data);
      assert EncFragment(f) + [] == EncFragment(f);
    } else if Encodable(f.h) && f.h.fragLen == |f.body| && data == EncFragment(f) {
      ParseRoundTrip(f, []);
      assert EncFragment(f) + [] == EncFragment(f);
    }
  }

  lemma WholeMessage(seqNo: nat, m: Message)
    requires seqNo < 0x1_0000 && |m.body| < 0x100_0000
    ensures Whole(EncMessage(seqNo, m)) == Some(Fragment(Header(m.ty, |m.body|, seqNo, 0, |m.body|), m.body))
  {
    var f := Fragment(Header(m.ty, |m.body|, seqNo, 0, |m.body|), m.body);
    ParseRoundTrip(f, []);
    assert EncFragment(f) + [] == EncMessage(seqNo, m);
  }

  function Body(o: Outgoing): seq<byte> {
    if o.isCcs || Whole(o.data).None? then [] else Whole(o.data).value.body
  }

  /** n bytes of a message from `off` on. */
  function Cut(f: Fragment, off: nat, n: nat): Fragment
    requires off + n <= |f.body|
  {
    Fragment(f.h.(fragOff := off, fragLen := n), f.body[off..off + n])
  }

  /** A place between two pieces of the flight. */
  predicate PlaceOk(ms: seq<Outgoing>, p: Place) {
    p.written <= |ms| && (p.offset > 0 ==> p.written < |ms| && !ms[p.written].isCcs && p.offset < |Body(ms[p.written])|)
  }

  /** Whether a piece is what comes next at a place, and makes progress. */
  predicate Fits(ms: seq<Outgoing>, p: Place, x: Piece) {
    && PlaceOk(ms, p) && p.written < |ms| && x.w == p.written
    && var o := ms[p.written];
       match x
       case CcsPiece(_) => o.isCcs
       case FragPiece(_, f) =>
         && !o.isCcs && Whole(o.data).Some? && p.offset + |f.body| <= |Body(o)|
         && f == Cut(Whole(o.data).value, p.offset, |f.body|) && (|f.body| > 0 || |Body(o)| == 0)
  }

  function After(ms: seq<Outgoing>, p: Place, x: Piece): (q: Place)
    requires Fits(ms, p, x)
    ensures PlaceOk(ms, q) && Before(p, q)
  {
    if x.CcsPiece? || p.offset + |x.f.body| == |Body(ms[p.written])| then Place(p.written + 1, 0)
    else Place(p.written, p.offset + |x.f.body|)
  }

  /** The order of places: what is left, in messages and then in bytes, gets less. */
  predicate Before(p: Place, q: Place) { p.written < q.written || (p.written == q.written && p.offset < q.offset) }

  /** The pieces lead from p to q without a gap or a repetition. */
  predicate Walk(ms: seq<Outgoing>, p: Place, ps: seq<Piece>, q: Place)
    decreases |ps|
  {
    if ps == [] then PlaceOk(ms, p) && p == q else Fits(ms, p, ps[0]) && Walk(ms, After(ms, p, ps[0]), ps[1..], q)
  }

  const ORIGIN: Place := Place(0, 0)

  lemma {:induction false} WalkAhead(ms: seq<Outgoing>, p: Place, ps: seq<Piece>, q: Place)
    requires Walk(ms, p, ps, q)
    ensures PlaceOk(ms, p) && PlaceOk(ms, q) && (if ps == [] then p == q else Before(p, q))
    decreases |ps|
  {
    if ps != [] { WalkAhead(ms, After(ms, p, ps[0]), ps[1..], q); }
  }

  lemma WalkCons(ms: seq<Outgoing>, p: Place, x: Piece, ps: seq<Piece>, q: Place)
    requires Fits(ms, p, x) && Walk(ms, After(ms, p, x), ps, q)
    ensures Walk(ms, p, [x] + ps, q)
  {
    assert ([x] + ps)[1..] == ps;
  }

  lemma HeadJoin<T>(s: seq<T>, t: seq<T>)
    requires s != []
    ensures s + t == [s[0]] + (s[1..] + t)
  {
  }

  lemma {:induction false} WalkJoin(ms: seq<Outgoing>, p: Place, ps: seq<Piece>, q: Place, qs: seq<Piece>, r: Place)
    requires Walk(ms, p, ps, q) && Walk(ms, q, qs, r)
    ensures Walk(ms, p, ps + qs, r)
    decreases |ps|
  {
    if ps == [] {
      assert ps + qs == qs;
    } else {
      WalkJoin(ms, After(ms, p, ps[0]), ps[1..], q, qs, r);
      WalkCons(ms, p, ps[0], ps[1..] + qs, r);
      HeadJoin(ps, qs);
    }
  }

  /** Messages that are added later do not disturb what was sent. */
  lemma {:induction false} WalkExtends(ms: seq<Outgoing>, more: seq<Outgoing>, p: Place, ps: seq<Piece>, q: Place)
    requires Walk(ms, p, ps, q)
    ensures Walk(ms + more, p, ps, q)
    decreases |ps|
  {
    if ps != [] {
      WalkExtends(ms, more, After(ms, p, ps[0]), ps[1..], q);
    }
  }

  // ----- coverage -----

  /** The bytes of message w that went out, in the order they did. */
  function Sent(ps: seq<Piece>, w: nat): seq<byte> {
    if ps == [] then []
    else (if ps[0].w == w && ps[0].FragPiece? then ps[0].f.body else []) + Sent(ps[1..], w)
  }

  /** How many pieces carry byte k of message w. */
  function Times(ps: seq<Piece>, w: nat, k: nat): nat {
    if ps == [] then 0
    else (if ps[0].w == w && ps[0].FragPiece? && ps[0].f.h.fragOff <= k < ps[0].f.h.fragOff + |ps[0].f.body| then 1
          else 0)
         + Times(ps[1..], w, k)
  }

  /** How many pieces there are of message w. */
  function Pieces(ps: seq<Piece>, w: nat): nat {
    if ps == [] then 0 else (if ps[0].w == w then 1 else 0) + Pieces(ps[1..], w)
  }

  /** The byte of message w that a place stands at. */
  function At(ms: seq<Outgoing>, p: Place, w: nat): nat
    requires w < |ms|
  {
    if w < p.written then |Body(ms[w])| else if w == p.written then p.offset else 0
  }

  lemma Slices(b: seq<byte>, i: nat, j: nat, k: nat)
    requires i <= j <= k <= |b|
    ensures b[i..j] + b[j..k] == b[i..k]
  {
  }

  lemma StepSends(ms: seq<Outgoing>, p: Place, x: Piece, w: nat)
    requires Fits(ms, p, x) && w < |ms|
    ensures At(ms, p, w) <= At(ms, After(ms, p, x), w) <= |Body(ms[w])|
    ensures (if x.w == w && x.FragPiece? then x.f.body else []) == Body(ms[w])[At(ms, p, w)..At(ms, After(ms, p, x), w)]
  {
  }

  lemma {:induction false} WalkSends(ms: seq<Outgoing>, p: Place, ps: seq<Piece>, q: Place, w: nat)
    requires Walk(ms, p, ps, q) && w < |ms|
    ensures At(ms, p, w) <= At(ms, q, w) <= |Body(ms[w])|
    ensures Sent(ps, w) == Body(ms[w])[At(ms, p, w)..At(ms, q, w)]
    decreases |ps|
  {
    WalkAhead(ms, p, ps, q);
    if ps != [] {
      var p' := After(ms, p, ps[0]);
      StepSends(ms, p, ps[0], w);
      WalkSends(ms, p', ps[1..], q, w);
      Slices(Body(ms[w]), At(ms, p, w), At(ms, p', w), At(ms, q, w));
    }
  }

  lemma {:induction false} WalkCoversOnce(ms: seq<Outgoing>, p: Place, ps: seq<Piece>, q: Place, w: nat, k: nat)
    requires Walk(ms, p, ps, q) && w < |ms|
    ensures Times(ps, w, k) == if At(ms, p, w) <= k < At(ms, q, w) then 1 else 0
    decreases |ps|
  {
    WalkAhead(ms, p, ps, q);
    if ps != [] {
      WalkCoversOnce(ms, After(ms, p, ps[0]), ps[1..], q, w, k);
      WalkSends(ms, After(ms, p, ps[0]), ps[1..], q, w);
    }
  }

  lemma {:induction false} WalkPieces(ms: seq<Outgoing>, p: Place, ps: seq<Piece>, q: Place, w: nat)
    requires Walk(ms, p, ps, q) && w < |ms|
    ensures p.written <= w < q.written && p.offset == 0 ==> Pieces(ps, w) >= 1
    ensures w < p.written || w > q.written || (w == q.written && q.offset == 0) ==> Pieces(ps, w) == 0
    ensures ms[w].isCcs && p.written <= w < q.written ==> Pieces(ps, w) == 1
    decreases |ps|
  {
    WalkAhead(ms, p, ps, q);
    if ps != [] {
      var p' := After(ms, p, ps[0]);
      WalkPieces(ms, p', ps[1..], q, w);
      WalkAhead(ms, p', ps[1..], q);
      if p'.written == p.written && w > p.written {
        WalkLater(ms, p', ps[1..], q, w);
      }
    }
  }

  /** A message after the one in progress is started and finished. */
  lemma {:induction false} WalkLater(ms: seq<Outgoing>, p: Place, ps: seq<Piece>, q: Place, w: nat)
    requires Walk(ms, p, ps, q) && p.written < w < |ms|
    ensures w < q.written ==> Pieces(ps, w) >= 1
    ensures ms[w].isCcs && w < q.written ==> Pieces(ps, w) == 1
    decreases |ps|
  {
    if ps != [] {
      var p' := After(ms, p, ps[0]);
      if p'.written < w {
        WalkLater(ms, p', ps[1..], q, w);
      } else {
        WalkPieces(ms, p', ps[1..], q, w);
      }
    }
  }

  /** Every message of the flight has gone out, whole and exactly once. */
  ghost predicate Covered(ms: seq<Outgoing>, ps: seq<Piece>) {
    forall w :: 0 <= w < |ms| ==> MessageCovered(ms[w], ps, w)
  }

  ghost predicate MessageCovered(o: Outgoing, ps: seq<Piece>, w: nat) {
    && Pieces(ps, w) >= 1 && (o.isCcs ==> Pieces(ps, w) == 1)
    && Sent(ps, w) == Body(o)
    && forall k :: 0 <= k < |Body(o)| ==> Times(ps, w, k) == 1
  }

  /** Pieces that lead from the start of the flight to its end cover it. */
  lemma WalkCovers(ms: seq<Outgoing>, ps: seq<Piece>)
    requires Walk(ms, ORIGIN, ps, Place(|ms|, 0))
    ensures Covered(ms, ps)
  {
    forall w | 0 <= w < |ms| ensures MessageCovered(ms[w], ps, w) {
      WalkSends(ms, ORIGIN, ps, Place(|ms|, 0), w);
      WalkPieces(ms, ORIGIN, ps, Place(|ms|, 0), w);
      forall k | 0 <= k < |Body(ms[w])| ensures Times(ps, w, k) == 1 {
        WalkCoversOnce(ms, ORIGIN, ps, Place(|ms|, 0), w, k);
      }
    }
  }

  lemma {:induction false} CountsJoin(ps: seq<Piece>, qs: seq<Piece>, w: nat, k: nat)
    ensures Pieces(ps + qs, w) == Pieces(ps, w) + Pieces(qs, w)
    ensures Times(ps + qs, w, k) == Times(ps, w, k) + Times(qs, w, k)
  {
    if ps == [] {
      assert ps + qs == qs;
    } else {
      assert (ps + qs)[1..] == ps[1..] + qs;
      CountsJoin(ps[1..], qs, w, k);
    }
  }

  // ----- what the receiver makes of it -----

  /** The handshake messages of a flight are among all those of the connection, each under its own number. */
  predicate FlightOf(ms: seq<Outgoing>, msgs: seq<Message>) {
    ms == [] || (FlightOf(ms[..|ms|-1], msgs) && Queued(ms[|ms|-1], msgs))
  }

  lemma {:induction false} FlightAt(ms: seq<Outgoing>, msgs: seq<Message>, w: nat)
    requires FlightOf(ms, msgs) && w < |ms|
    ensures Queued(ms[w], msgs)
  {
    if w < |ms| - 1 { FlightAt(ms[..|ms|-1], msgs, w); }
  }

  predicate Queued(o: Outgoing, msgs: seq<Message>) {
    o.isCcs || (Whole(o.data).Some? && IsMessage(o, msgs, Whole(o.data).value.h.seqNo))
  }

  predicate IsMessage(o: Outgoing, msgs: seq<Message>, n: nat) {
    n < |msgs| && n < 0x1_0000 && |msgs[n].body| < 0x100_0000 && o.data == EncMessage(n, msgs[n])
  }

  lemma FitsGenuine(ms: seq<Outgoing>, p: Place, x: Piece, msgs: seq<Message>)
    requires Fits(ms, p, x) && x.FragPiece? && FlightOf(ms, msgs)
    ensures R.Genuine(msgs, x.f) && Encodable(x.f.h)
  {
    var n := x.f.h.seqNo;
    FlightAt(ms, msgs, p.written);
    WholeMessage(n, msgs[n]);
  }

  /** Every fragment of a walk is a genuine piece of one of the connection's messages, and fits its header. */
  lemma {:induction false} WalkGenuine(ms: seq<Outgoing>, p: Place, ps: seq<Piece>, q: Place, msgs: seq<Message>)
    requires Walk(ms, p, ps, q) && FlightOf(ms, msgs)
    ensures forall i :: 0 <= i < |ps| && ps[i].FragPiece? ==> R.Genuine(msgs, ps[i].f) && Encodable(ps[i].f.h)
    decreases |ps|
  {
    if ps != [] {
      if ps[0].FragPiece? {
        FitsGenuine(ms, p, ps[0], msgs);
      }
      WalkGenuine(ms, After(ms, p, ps[0]), ps[1..], q, msgs);
    }
  }

  /** One pass over a flight, or part of one: where it started and ended, and the pieces that were sent. */
  datatype Pass = Pass(ms: seq<Outgoing>, from: Place, ps: seq<Piece>, to: Place)

  ghost predicate PassOk(x: Pass, msgs: seq<Message>) {
    FlightOf(x.ms, msgs) && Walk(x.ms, x.from, x.ps, x.to)
  }

  /** The payload is that of a record sent in one of the passes. */
  ghost predicate SentIn(passes: seq<Pass>, payload: seq<byte>) {
    exists a, i :: 0 <= a < |passes| && 0 <= i < |passes[a].ps| && IsPayload(passes[a].ps[i], payload)
  }

  predicate IsPayload(x: Piece, payload: seq<byte>) { x.FragPiece? && payload == EncFragment(x.f) }

  /** What the network does to records: each that arrives was sent, but any may be lost, repeated or overtaken. */
  ghost predicate Carried(passes: seq<Pass>, records: seq<R.Record>) {
    forall k :: 0 <= k < |records| && records[k].Handshake? ==> SentIn(passes, records[k].payload)
  }

  lemma SentIsGenuine(passes: seq<Pass>, payload: seq<byte>, msgs: seq<Message>)
    requires forall a :: 0 <= a < |passes| ==> PassOk(passes[a], msgs)
    requires SentIn(passes, payload)
    ensures R.GenuinePayload(msgs, payload)
  {
    var a, i :| 0 <= a < |passes| && 0 <= i < |passes[a].ps| && IsPayload(passes[a].ps[i], payload);
    var x := passes[a];
    assert PassOk(x, msgs);
    WalkGenuine(x.ms, x.from, x.ps, x.to, msgs);
    R.GenuineFragments(msgs, [x.ps[i].f]);
    assert EncFragments([x.ps[i].f]) == payload + EncFragments([]) == payload;
  }

  /** Sender, network and receiver together: whatever flights are sent and re-sent, cut at whatever sizes, and whatever
      the network loses, repeats and reorders, the receiver delivers the sender's messages byte for byte, in order and
      without a gap. */
  lemma EndToEnd(msgs: seq<Message>, passes: seq<Pass>, maxLen: nat, calls: seq<R.Call>)
    requires forall a :: 0 <= a < |passes| ==> PassOk(passes[a], msgs)
    requires forall c :: 0 <= c < |calls| && calls[c].Get? ==> Carried(passes, calls[c].records)
    ensures R.Run(R.Conn(R.START, [], false), maxLen, calls).log <= msgs
  {
    forall c, k | 0 <= c < |calls| && calls[c].Get? && 0 <= k < |calls[c].records| && calls[c].records[k].Handshake?
      ensures R.GenuinePayload(msgs, calls[c].records[k].payload)
    {
      assert Carried(passes, calls[c].records);
      SentIsGenuine(passes, calls[c].records[k].payload, msgs);
    }
    R.StartInOrder(msgs);
    R.DeliversSendersMessages(R.Conn(R.START, [], false), maxLen, calls, msgs);
  }
}
