/** The anti-replay window of the DTLS record layer (RFC 6347, section 4.1.2.6; dtls_record.c:126-173), and whole runs
    of a reader that switches epochs (dtls_record.c:175-250, dtls_method.c:106-122). */
module DtlsReplay {
  import opened Bits

  const WINDOW: nat := 64

  /** DTLS1_BITMAP: bit i of the map stands for the number max - i. */
  datatype Window = Window(bits: nat, max: nat)

  const EMPTY_WINDOW: Window := Window(0, 0)

  /** dtls1_bitmap_should_discard */
  predicate ShouldDiscard(w: Window, s: nat) {
    if s > w.max then false
    else
      var idx := w.max - s;
      idx >= WINDOW || And(w.bits, Pow2(idx)) != 0
  }

  /** The sliding half of dtls1_bitmap_record. */
  function Slide(w: Window, s: nat): Window {
    if s <= w.max then w
    else
      var shift := s - w.max;
      Window(if shift >= WINDOW then 0 else Shl(w.bits, shift, WINDOW), s)
  }

  /** dtls1_bitmap_record */
  function Record(w: Window, s: nat): Window {
    var w' := Slide(w, s);
    var idx := w'.max - s;
    if idx < WINDOW then w'.(bits := Or(w'.bits, Pow2(idx))) else w'
  }

  /** The window is what remains of a set of recorded numbers: their maximum, and which of the last 64 are among
      them. */
  ghost predicate Holds(w: Window, seen: set<nat>) {
    && w.bits < Pow2(WINDOW)
    && (forall s :: s in seen ==> s <= w.max)
    && (if seen == {} then w.max == 0 else w.max in seen)
    && forall i :: 0 <= i < WINDOW ==> (Bit(w.bits, i) <==> i <= w.max && w.max - i in seen)
  }

  lemma EmptyHolds()
    ensures Holds(EMPTY_WINDOW, {})
  {
    forall i | 0 <= i < WINDOW ensures !Bit(0, i) { NoBits(i); }
  }

  /** A number is discarded if and only if it was recorded or is at least 64 behind the greatest one recorded. */
  lemma DiscardsSeenOrStale(w: Window, seen: set<nat>, s: nat)
    requires Holds(w, seen)
    ensures ShouldDiscard(w, s) <==> s in seen || s + WINDOW <= w.max
  {
    if s <= w.max && w.max - s < WINDOW {
      TestBit(w.bits, w.max - s);
      assert w.max - (w.max - s) == s;
    }
  }

  /** Sliding to a new maximum moves every recorded number along. */
  lemma SlideBits(w: Window, seen: set<nat>, s: nat, i: nat)
    requires Holds(w, seen) && i < WINDOW
    ensures Slide(w, s).bits < Pow2(WINDOW)
    ensures Bit(Slide(w, s).bits, i) <==> i <= Slide(w, s).max && Slide(w, s).max - i in seen
  {
    if s > w.max {
      var shift := s - w.max;
      if shift >= WINDOW {
        NoBits(i);
      } else {
        ShlBit(w.bits, shift, WINDOW, i);
        if i >= shift {
          assert s - i == w.max - (i - shift);
        }
      }
    }
  }

  lemma OrOne(v: nat, idx: nat, i: nat)
    requires v < Pow2(WINDOW) && idx < WINDOW
    ensures Or(v, Pow2(idx)) < Pow2(WINDOW)
    ensures Bit(Or(v, Pow2(idx)), i) <==> Bit(v, i) || i == idx
  {
    PowMonotone(idx, WINDOW);
    OrBound(v, Pow2(idx), WINDOW);
    OrBit(v, Pow2(idx), i);
    OneBit(idx, i);
  }

  /** Bit i once s is recorded in a window that has been slid to include it. */
  lemma RecordBits(v: Window, seen: set<nat>, s: nat, i: nat)
    requires v.bits < Pow2(WINDOW) && s <= v.max && i < WINDOW
    requires Bit(v.bits, i) <==> i <= v.max && v.max - i in seen
    ensures Record(v, s).bits < Pow2(WINDOW)
    ensures Bit(Record(v, s).bits, i) <==> i <= v.max && v.max - i in seen + {s}
  {
    if v.max - s < WINDOW {
      OrOne(v.bits, v.max - s, i);
    }
  }

  /** Recording a number adds it to the set, even a stale one. */
  lemma RecordAdds(w: Window, seen: set<nat>, s: nat)
    requires Holds(w, seen)
    ensures Holds(Record(w, s), seen + {s})
  {
    var v := Slide(w, s);
    assert Record(w, s) == Record(v, s);
    forall i | 0 <= i < WINDOW
      ensures Record(v, s).bits < Pow2(WINDOW)
      ensures Bit(Record(v, s).bits, i) <==> i <= v.max && v.max - i in seen + {s}
    {
      SlideBits(w, seen, s, i);
      RecordBits(v, seen, s, i);
    }
    assert Bit(Record(v, s).bits, 0) <==> v.max in seen + {s};
  }

  // ----- whole runs -----

  /** A record's number carries the epoch in its top 16 bits. */
  const EPOCH_UNIT: nat := 0x1_0000_0000_0000

  /** generation counts the switches of the read cipher; r_epoch is its low 16 bits. */
  datatype Reader = Reader(generation: nat, w: Window)

  /** A record with its 64-bit number, and whether it decrypts to a plaintext that is not too long; or a new read
      cipher. */
  datatype Event = Arrives(number: nat, opens: bool) | Switch

  predicate Accepts(r: Reader, number: nat, opens: bool) {
    number / EPOCH_UNIT == r.generation % 0x1_0000 && !ShouldDiscard(r.w, number) && opens
  }

  /** What a record or a switch does to the reader.  A record that is not accepted changes nothing. */
  function Next(r: Reader, e: Event): Reader {
    match e
    case Arrives(number, opens) => if Accepts(r, number, opens) then r.(w := Record(r.w, number)) else r
    case Switch => Reader(r.generation + 1, EMPTY_WINDOW)
  }

  /** The records accepted in a run, each with the generation it was accepted in. */
  function Accepted(r: Reader, es: seq<Event>): seq<(nat, nat)>
    decreases |es|
  {
    if es == [] then []
    else (match es[0]
          case Arrives(number, opens) => if Accepts(r, number, opens) then [(r.generation, number)] else []
          case Switch => [])
         + Accepted(Next(r, es[0]), es[1..])
  }

  ghost predicate Distinct<T>(s: seq<T>) { forall i, j :: 0 <= i < j < |s| ==> s[i] != s[j] }

  /** From any reader on, nothing that it has seen is accepted again, and nothing twice. */
  lemma {:induction false} AcceptedAreNew(r: Reader, seen: set<nat>, es: seq<Event>)
    requires Holds(r.w, seen)
    ensures Distinct(Accepted(r, es))
    ensures forall i :: 0 <= i < |Accepted(r, es)| ==>
              var (g, n) := Accepted(r, es)[i]; g > r.generation || (g == r.generation && n !in seen)
    ensures forall i :: 0 <= i < |Accepted(r, es)| ==>
              var (g, n) := Accepted(r, es)[i]; n / EPOCH_UNIT == g % 0x1_0000
    decreases |es|
  {
    if es != [] {
      match es[0]
      case Switch =>
        EmptyHolds();
        AcceptedAreNew(Next(r, es[0]), {}, es[1..]);
      case Arrives(number, opens) =>
        if Accepts(r, number, opens) {
          DiscardsSeenOrStale(r.w, seen, number);
          RecordAdds(r.w, seen, number);
          AcceptedAreNew(Next(r, es[0]), seen + {number}, es[1..]);
        } else {
          AcceptedAreNew(r, seen, es[1..]);
        }
    }
  }

  /** No record is accepted twice in the life of a connection, however often the cipher changes. */
  lemma NoReplay(es: seq<Event>)
    ensures Distinct(Accepted(Reader(0, EMPTY_WINDOW), es))
  {
    EmptyHolds();
    AcceptedAreNew(Reader(0, EMPTY_WINDOW), {}, es);
  }

  /** While the 16-bit epoch has not wrapped around, no pair of epoch and sequence number is accepted twice. */
  lemma NoNumberTwice(es: seq<Event>, i: nat, j: nat)
    requires var log := Accepted(Reader(0, EMPTY_WINDOW), es);
             i < j < |log| && log[i].0 < 0x1_0000 && log[j].0 < 0x1_0000
    ensures var log := Accepted(Reader(0, EMPTY_WINDOW), es); log[i].1 != log[j].1
  {
    EmptyHolds();
    AcceptedAreNew(Reader(0, EMPTY_WINDOW), {}, es);
    var log := Accepted(Reader(0, EMPTY_WINDOW), es);
    assert log[i] != log[j];
    EpochsTell(log[i].0, log[i].1, log[j].0, log[j].1);
  }

  lemma EpochsTell(g: nat, n: nat, h: nat, m: nat)
    requires n / EPOCH_UNIT == g % 0x1_0000 && m / EPOCH_UNIT == h % 0x1_0000
    requires g < 0x1_0000 && h < 0x1_0000 && (g, n) != (h, m)
    ensures n != m
  {
  }

  /** Every fresh record gets through: one of the current epoch that decrypts and is not among the accepted ones and
      less than 64 behind the greatest of them. */
  lemma FreshIsAccepted(r: Reader, seen: set<nat>, number: nat)
    requires Holds(r.w, seen) && number / EPOCH_UNIT == r.generation % 0x1_0000
    ensures Accepts(r, number, true) <==> number !in seen && number + WINDOW > r.w.max
  {
    DiscardsSeenOrStale(r.w, seen, number);
  }
}
