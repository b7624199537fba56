/** The DTLS record layer (dtls_record.c:175-334): opening and sealing records, and the numbers that sealed records
    carry.  Ciphers are abstract. */
module DtlsRecord {
  import opened Bits
  import opened Wrappers
  import opened HandshakeWire
  import opened DtlsReplay

  const RT_CHANGE_CIPHER_SPEC: byte := 20
  const RT_ALERT: byte := 21
  const RT_HANDSHAKE: byte := 22
  const RT_APPLICATION_DATA: byte := 23

  const MAX_PLAIN: nat := 16384
  const MAX_ENCRYPTED: nat := 16704

  /** DTLS1_VERSION, the version on the wire until one is negotiated. */
  const DTLS1_VERSION: nat := 0xfeff

  // ----- ciphers -----

  /** SSL_AEAD_CTX.  seal and open take the record type, the version, the eight sequence bytes and the data. */
  datatype Aead = Aead(
    overhead: nat,
    nonceLen: nat,
    seal: (byte, nat, seq<byte>, seq<byte>) -> Option<seq<byte>>,
    open: (byte, nat, seq<byte>, seq<byte>) -> Option<seq<byte>>)

  function Seal(a: Option<Aead>, ty: byte, version: nat, sequence: seq<byte>, plain: seq<byte>): Option<seq<byte>> {
    if a.None? then Some(plain) else a.value.seal(ty, version, sequence, plain)
  }

  function Open(a: Option<Aead>, ty: byte, version: nat, sequence: seq<byte>, text: seq<byte>): Option<seq<byte>> {
    if a.None? then Some(text) else a.value.open(ty, version, sequence, text)
  }

  /** SSL_AEAD_CTX_max_overhead and SSL_AEAD_CTX_explicit_nonce_len */
  function MaxOverhead(a: Option<Aead>): nat { if a.None? then 0 else a.value.overhead }

  function NonceLen(a: Option<Aead>): nat { if a.None? then 0 else a.value.nonceLen }

  /** What a cipher promises: a bound on what sealing adds, and that opening undoes sealing. */
  ghost predicate AeadOk(a: Option<Aead>) {
    && NonceLen(a) <= MaxOverhead(a)
    && forall t, v, s, p :: Seal(a, t, v, s, p).Some? ==>
         && |Seal(a, t, v, s, p).value| <= |p| + MaxOverhead(a)
         && Open(a, t, v, s, Seal(a, t, v, s, p).value) == Some(p)
  }

  // ----- records on the wire -----

  datatype RawRecord = RawRecord(ty: byte, version: nat, sequence: seq<byte>, body: seq<byte>)

  function EncRecord(r: RawRecord): seq<byte> {
    [r.ty] + BigEndian(r.version, 2) + r.sequence + BigEndian(|r.body|, 2) + r.body
  }

  /** The header checks of dtls_open_record; `version` is the negotiated one, if any. */
  function ParseRecord(s: seq<byte>, version: Option<nat>): (r: Option<(RawRecord, seq<byte>)>)
    ensures r.Some? ==> |r.value.0.sequence| == 8 && |s| == RT_HEADER + |r.value.0.body| + |r.value.1|
  {
    if |s| < RT_HEADER then None
    else
      var v, len := FromBigEndian(s[1..3]), FromBigEndian(s[11..13]);
      if |s| - RT_HEADER < len || (version.Some? && v != version.value) || v / 256 != 0xfe || len > MAX_ENCRYPTED
      then None
      else Some((RawRecord(s[0], v, s[3..11], s[13..13 + len]), s[13 + len..]))
  }

  /** The fields of an encoded record, whatever follows it. */
  lemma RecordFields(raw: RawRecord, rest: seq<byte>)
    requires |raw.sequence| == 8 && raw.version < 0x1_0000 && |raw.body| < 0x1_0000
    ensures var s := EncRecord(raw) + rest;
            && |s| == RT_HEADER + |raw.body| + |rest| && s[0] == raw.ty && s[3..11] == raw.sequence
            && FromBigEndian(s[1..3]) == raw.version && FromBigEndian(s[11..13]) == |raw.body|
            && s[13..13 + |raw.body|] == raw.body && s[13 + |raw.body|..] == rest
  {
    var s := EncRecord(raw) + rest;
    assert s[1..3] == BigEndian(raw.version, 2);
    assert s[11..13] == BigEndian(|raw.body|, 2);
    BigEndianInverse(raw.version);
    BigEndianInverse(|raw.body|);
  }

  lemma ParseEncoded(r: RawRecord, rest: seq<byte>, version: Option<nat>)
    requires r.version / 256 == 0xfe && (version.Some? ==> r.version == version.value)
    requires |r.sequence| == 8 && |r.body| <= MAX_ENCRYPTED
    ensures ParseRecord(EncRecord(r) + rest, version) == Some((r, rest))
  {
    RecordFields(r, rest);
  }

  /** And only what an encoder writes is taken for a record: of the negotiated version, or one of DTLS before there is
      one, and not too long. */
  lemma ParsedIsRecord(s: seq<byte>, version: Option<nat>)
    requires ParseRecord(s, version).Some?
    ensures var (r, rest) := ParseRecord(s, version).value;
            && s == EncRecord(r) + rest && |r.sequence| == 8 && |r.body| <= MAX_ENCRYPTED
            && r.version / 256 == 0xfe && (version.Some? ==> r.version == version.value)
  {
    var (r, rest) := ParseRecord(s, version).value;
    BigEndianOf(s[1..3]);
    BigEndianOf(s[11..13]);
    assert s == [s[0]] + s[1..3] + s[3..11] + s[11..13] + s[13..];
    assert s[13..] == r.body + rest;
  }

  // ----- big-endian counters -----

  function EpochOf(s: seq<byte>): nat
    requires |s| >= 2
  {
    var high: nat, low: nat := s[0], s[1];
    256 * high + low
  }

  /** The epoch's two bytes stand above the six of the counter. */
  lemma EpochOnTop(s: seq<byte>)
    requires |s| == 8
    ensures FromBigEndian(s) == EpochOf(s) * EPOCH_UNIT + FromBigEndian(s[2..])
    ensures FromBigEndian(s[2..]) < EPOCH_UNIT && FromBigEndian(s) / EPOCH_UNIT == EpochOf(s)
  {
    BigEndianBound(s[2..]);
    assert Pow256(6) == EPOCH_UNIT;
    TopTwo(s);
  }

  lemma {:induction false} TopTwo(s: seq<byte>)
    requires |s| >= 2
    ensures FromBigEndian(s) == EpochOf(s) * Pow256(|s| - 2) + FromBigEndian(s[2..])
  {
    var n := |s| - 1;
    if n == 1 {
      assert s[..1][..0] == [] && FromBigEndian(s[..1]) == s[0];
    } else {
      TopTwo(s[..n]);
      assert s[..n][2..] == s[2..][..n - 2];
      Regroup(EpochOf(s), Pow256(n - 2), FromBigEndian(s[..n][2..]), s[n]);
    }
  }

  lemma Regroup(top: nat, p: nat, rest: nat, low: nat)
    ensures 256 * (top * p + rest) + low == top * (256 * p) + (256 * rest + low)
  {
  }

  /** to_u64_be */
  method ToU64(s: seq<byte>) returns (ret: nat)
    requires |s| == 8
    ensures ret == FromBigEndian(s)
  {
    ret := 0;
    assert Pow256(8) == 0x1_0000_0000_0000_0000;
    for i := 0 to 8
      invariant ret == FromBigEndian(s[..i])
    {
      ShiftIn(s, i);
      ret := Or(Shl(ret, 8, 64), s[i]);
    }
    assert s[..8] == s;
  }

  lemma ShiftIn(s: seq<byte>, i: nat)
    requires i < |s| == 8
    ensures Or(Shl(FromBigEndian(s[..i]), 8, 64), s[i]) == FromBigEndian(s[..i+1])
  {
    assert s[..i+1][..i] == s[..i];
    BigEndianBound(s[..i]);
    Pow256Monotone(i, 7);
    OrShift(FromBigEndian(s[..i]), s[i]);
  }

  lemma OrShift(v: nat, b: byte)
    requires v < Pow256(7)
    ensures Or(Shl(v, 8, 64), b) == 256 * v + b
  {
    WordSizes();
    OrPlus(b, v, 8);
    OrCommutes(v * Pow2(8), b);
    ShiftFits(v, Pow2(8), Pow2(64));
  }

  lemma ShiftFits(v: nat, p: nat, q: nat)
    requires v < 0x100_0000_0000_0000 && p == 256 && q == 0x1_0000_0000_0000_0000
    ensures v * p % q == v * p == 256 * v
  {
  }

  lemma WordSizes()
    ensures Pow2(8) == 256 && Pow2(64) == 0x1_0000_0000_0000_0000 && Pow256(7) == 0x100_0000_0000_0000
  {
    assert Pow2(4) == 16;
    PowSum(4, 4);
    PowSum(8, 8);
    PowSum(16, 16);
    PowSum(32, 32);
  }

  lemma {:induction false} Pow256Monotone(a: nat, b: nat)
    requires a <= b
    ensures Pow256(a) <= Pow256(b)
    decreases b
  {
    if a < b { Pow256Monotone(a, b - 1); }
  }

  /** A big-endian counter after one step. */
  function Increment(s: seq<byte>): (r: seq<byte>)
    ensures |r| == |s|
  {
    if s == [] then []
    else
      var n := |s| - 1;
      if s[n] == 255 then Increment(s[..n]) + [0] else s[..n] + [s[n] + 1]
  }

  lemma {:induction false} IncrementCounts(s: seq<byte>)
    ensures FromBigEndian(Increment(s)) == if FromBigEndian(s) + 1 == Pow256(|s|) then 0 else FromBigEndian(s) + 1
  {
    if s != [] {
      var n := |s| - 1;
      IncrementCounts(s[..n]);
      BigEndianBound(s[..n]);
      assert Increment(s)[..n] == if s[n] == 255 then Increment(s[..n]) else s[..n];
    }
  }

  lemma CounterSteps(s: seq<byte>)
    requires Pow256(|s|) == EPOCH_UNIT
    ensures FromBigEndian(s) < EPOCH_UNIT
    ensures FromBigEndian(Increment(s)) == (FromBigEndian(s) + 1) % EPOCH_UNIT
    ensures FromBigEndian(s) + 1 < EPOCH_UNIT <==> !AllOnes(s)
  {
    IncrementCounts(s);
    BigEndianBound(s);
    Wraps(FromBigEndian(s), FromBigEndian(Increment(s)), Pow256(|s|), AllOnes(s));
  }

  lemma SixBytes()
    ensures Pow256(6) == EPOCH_UNIT
  {
    assert Pow256(3) == 0x100_0000;
  }

  lemma Wraps(v: nat, w: nat, p: nat, ones: bool)
    requires v < p == EPOCH_UNIT && (v + 1 == p <==> ones) && w == if v + 1 == p then 0 else v + 1
    ensures v < EPOCH_UNIT && w == (v + 1) % EPOCH_UNIT && (v + 1 < EPOCH_UNIT <==> !ones)
  {
  }

  lemma SplitAt(a: array<byte>, i: nat, j: nat)
    requires i <= j <= a.Length
    ensures a[i..] == a[i..j] + a[j..]
  {
  }

  lemma Regrouped<T>(a: seq<T>, b: seq<T>, c: seq<T>)
    ensures a + b + c == a + (b + c)
  {
  }

  lemma Carries(head: seq<byte>, tail: seq<byte>)
    requires head != []
    ensures var n := |head| - 1;
            && Increment(head) + tail ==
                 (if head[n] == 255 then Increment(head[..n]) + ([0] + tail)
                  else head[..n] + ([head[n] + 1] + tail))
            && (AllOnes(head) <==> head[n] == 255 && AllOnes(head[..n]))
  {
    var n := |head| - 1;
    if head[n] == 255 {
      Regrouped(Increment(head[..n]), [0], tail);
    } else {
      Regrouped(head[..n], [head[n] + 1], tail);
    }
  }

  /** ssl_record_sequence_update on the bytes from `from` on. */
  method SequenceUpdate(a: array<byte>, from: nat) returns (ok: bool)
    requires from <= a.Length
    modifies a
    ensures a[..from] == old(a[..from]) && a[from..] == Increment(old(a[from..]))
    ensures ok <==> !AllOnes(old(a[from..]))
  {
    ghost var s := a[from..];
    var i := a.Length;
    assert a[i..] == [] && s[..i - from] == s;
    while i > from
      invariant from <= i <= a.Length
      invariant a[..from] == old(a[..from]) && a[from..i] == s[..i - from]
      invariant Increment(s) == Increment(s[..i - from]) + a[i..]
      invariant AllOnes(s) <==> AllOnes(s[..i - from])
    {
      ghost var head, tail := s[..i - from], a[i..];
      Carries(head, tail);
      i := i - 1;
      assert head[..i - from] == s[..i - from] && head[i - from] == a[i] == old(a[i]);
      a[i] := if a[i] == 255 then 0 else a[i] + 1;
      assert a[i..] == [a[i]] + tail;
      if a[i] != 0 {
        SplitAt(a, from, i);
        return true;
      }
    }
    return false;
  }

  // ----- opening -----

  datatype Opened = Success(ty: byte, plain: seq<byte>) | Alert(plain: seq<byte>) | Discard | Overflow

  /** What dtls_open_record makes of a record whose header is in order. */
  function OpenRaw(r: Reader, aead: Option<Aead>, raw: RawRecord): Opened {
    var plain := Open(aead, raw.ty, raw.version, raw.sequence, raw.body);
    var number := FromBigEndian(raw.sequence);
    if number / EPOCH_UNIT != r.generation % 0x1_0000 || ShouldDiscard(r.w, number) || plain.None? then Discard
    else if |plain.value| > MAX_PLAIN then Overflow
    else if raw.ty == RT_ALERT then Alert(plain.value)
    else Success(raw.ty, plain.value)
  }

  predicate Opens(aead: Option<Aead>, raw: RawRecord) {
    var plain := Open(aead, raw.ty, raw.version, raw.sequence, raw.body);
    plain.Some? && |plain.value| <= MAX_PLAIN
  }

  /** What opening comes to, exactly, for a reader that has accepted these numbers: a record is dropped if it is of
      another epoch, was accepted before, is 64 or more behind, or is not authentic; otherwise it is an error if it is
      too long, and is given out as an alert or as what it is; and it counts as accepted unless it was dropped or too
      long. */
  lemma OpenedIff(r: Reader, seen: set<nat>, aead: Option<Aead>, raw: RawRecord)
    requires Holds(r.w, seen)
    ensures var n := FromBigEndian(raw.sequence);
            var plain := Open(aead, raw.ty, raw.version, raw.sequence, raw.body);
            var o, r' := OpenRaw(r, aead, raw), Next(r, Arrives(n, Opens(aead, raw)));
            && (o.Discard? <==>
                  n / EPOCH_UNIT != r.generation % 0x1_0000 || n in seen || n + WINDOW <= r.w.max || plain.None?)
            && (!o.Discard? ==>
                  o == if |plain.value| > MAX_PLAIN then Overflow
                       else if raw.ty == RT_ALERT then Alert(plain.value) else Success(raw.ty, plain.value))
            && Holds(r'.w, if o.Discard? || o.Overflow? then seen else seen + {n}) && r'.generation == r.generation
  {
    DiscardsSeenOrStale(r.w, seen, FromBigEndian(raw.sequence));
    RecordAdds(r.w, seen, FromBigEndian(raw.sequence));
  }

  /** What dtls1_get_record finds in what is left of a packet: the first record that is not dropped, what follows it,
      and the reader after it.  Discard stands for none. */
  function Scan(r: Reader, aead: Option<Aead>, version: Option<nat>, s: seq<byte>): (Opened, seq<byte>, Reader)
    decreases |s|
  {
    if s == [] then (Discard, [], r)
    else match ParseRecord(s, version)
      case None => (Discard, [], r)
      case Some((raw, rest)) =>
        var o, r' := OpenRaw(r, aead, raw), Next(r, Arrives(FromBigEndian(raw.sequence), Opens(aead, raw)));
        if o.Discard? then Scan(r', aead, version, rest) else (o, rest, r')
  }

  /** The first n bytes of s are records that are dropped: of another epoch, replayed or not authentic. */
  predicate Dropped(r: Reader, aead: Option<Aead>, version: Option<nat>, s: seq<byte>, n: nat)
    decreases |s|
  {
    if n == 0 then true
    else
      var parsed := ParseRecord(s, version);
      && parsed.Some? && OpenRaw(r, aead, parsed.value.0).Discard? && n >= |s| - |parsed.value.1|
      && Dropped(r, aead, version, parsed.value.1, n - (|s| - |parsed.value.1|))
  }

  /** What a scan finds, against the first record of s: the one that is not dropped, or none. */
  predicate Finds(r: Reader, aead: Option<Aead>, version: Option<nat>, s: seq<byte>,
                  found: (Opened, seq<byte>, Reader))
  {
    var (o, rest, r') := found;
    var parsed := ParseRecord(s, version);
    if o.Discard? then r' == r && rest == [] && parsed.None?
    else
      && parsed.Some? && rest == parsed.value.1 && o == OpenRaw(r, aead, parsed.value.0)
      && r' == Next(r, Arrives(FromBigEndian(parsed.value.0.sequence), Opens(aead, parsed.value.0)))
  }

  /** Records that are dropped leave no trace.  What is found in a packet is what its first record that is not
      dropped opens to, the rest is what follows that record, and the reader is one that has only seen that record.
      If nothing is found, the reader is as before, and the whole packet is records that are dropped, up to where it
      is malformed. */
  lemma {:induction false} DroppedLeaveNoTrace(r: Reader, aead: Option<Aead>, version: Option<nat>, s: seq<byte>)
      returns (n: nat)
    ensures n <= |s| && Dropped(r, aead, version, s, n) && Finds(r, aead, version, s[n..], Scan(r, aead, version, s))
    decreases |s|
  {
    n := 0;
    assert s[0..] == s;
    if s != [] && ParseRecord(s, version).Some? {
      var (raw, rest) := ParseRecord(s, version).value;
      if OpenRaw(r, aead, raw).Discard? {
        var m := DroppedLeaveNoTrace(r, aead, version, rest);
        n := DropMore(r, aead, version, s, m);
        DroppedUnseen(r, aead, raw);
      }
    }
  }

  lemma DroppedUnseen(r: Reader, aead: Option<Aead>, raw: RawRecord)
    requires OpenRaw(r, aead, raw).Discard?
    ensures Next(r, Arrives(FromBigEndian(raw.sequence), Opens(aead, raw))) == r
  {
  }

  lemma DropMore(r: Reader, aead: Option<Aead>, version: Option<nat>, s: seq<byte>, m: nat) returns (n: nat)
    requires var parsed := ParseRecord(s, version);
             && parsed.Some? && OpenRaw(r, aead, parsed.value.0).Discard? && m <= |parsed.value.1|
             && Dropped(r, aead, version, parsed.value.1, m)
    ensures n <= |s| && Dropped(r, aead, version, s, n) && s[n..] == ParseRecord(s, version).value.1[m..]
  {
    n := |s| - |ParseRecord(s, version).value.1| + m;
  }

  /** The reading half of the record state. */
  class RecordReader {
    var rEpoch: nat                     // 16 bits wide
    var bits: nat
    var maxSeqNum: nat
    var aead: Option<Aead>
    var version: Option<nat>            // have_version and version
    ghost var generation: nat

    ghost predicate Valid()
      reads this
    {
      rEpoch == generation % 0x1_0000
    }

    ghost function Abs(): Reader
      reads this
    {
      Reader(generation, Window(bits, maxSeqNum))
    }

    constructor ()
      ensures Valid() && Abs() == Reader(0, EMPTY_WINDOW) && aead == None && version == None
    {
      rEpoch, bits, maxSeqNum, aead, version, generation := 0, 0, 0, None, None, 0;
    }

    /** dtls_open_record.  Besides the result it says how much of the packet is used up. */
    method OpenRecord(input: seq<byte>) returns (r: Opened, consumed: nat)
      requires Valid()
      modifies this`bits, this`maxSeqNum
      ensures Valid()
      ensures match ParseRecord(input, version)
              case None => r == Discard && consumed == |input| && Abs() == old(Abs())
              case Some((raw, rest)) =>
                && consumed == |input| - |rest| && input[consumed..] == rest
                && r == OpenRaw(old(Abs()), aead, raw)
                && Abs() == Next(old(Abs()), Arrives(FromBigEndian(raw.sequence), Opens(aead, raw)))
    {
      var parsed := ParseRecord(input, version);
      if parsed.None? {
        return Discard, |input|;
      }
      var (raw, rest) := parsed.value;
      consumed := |input| - |rest|;
      var epoch := EpochOf(raw.sequence);
      EpochOnTop(raw.sequence);
      var number := ToU64(raw.sequence);
      if epoch != rEpoch || ShouldDiscard(Window(bits, maxSeqNum), number) {
        return Discard, consumed;
      }
      var plain := Open(aead, raw.ty, raw.version, raw.sequence, raw.body);
      if plain.None? {
        return Discard, consumed;
      }
      if |plain.value| > MAX_PLAIN {
        return Overflow, consumed;
      }
      RecordNumber(number);
      r := if raw.ty == RT_ALERT then Alert(plain.value) else Success(raw.ty, plain.value);
    }

    /** The loop of dtls1_get_record over one packet. */
    method GetRecord(packet: seq<byte>) returns (r: Opened, rest: seq<byte>)
      requires Valid()
      modifies this`bits, this`maxSeqNum
      ensures Valid() && (r, rest, Abs()) == Scan(old(Abs()), aead, version, packet)
    {
      rest := packet;
      while rest != []
        invariant Valid() && Scan(old(Abs()), aead, version, packet) == Scan(Abs(), aead, version, rest)
        decreases |rest|
      {
        var got, consumed := OpenRecord(rest);
        rest := rest[consumed..];
        if !got.Discard? {
          return got, rest;
        }
      }
      return Discard, [];
    }

    /** dtls1_bitmap_record */
    method RecordNumber(number: nat)
      modifies this`bits, this`maxSeqNum
      ensures Abs() == old(Abs()).(w := Record(old(Abs()).w, number))
    {
      if number > maxSeqNum {
        var shift := number - maxSeqNum;
        bits := if shift >= WINDOW then 0 else Shl(bits, shift, WINDOW);
        maxSeqNum := number;
      }
      var idx := maxSeqNum - number;
      if idx < WINDOW {
        bits := Or(bits, Pow2(idx));
      }
    }

    /** The record-layer half of dtls1_set_read_state. */
    method SetReadState(cipher: Option<Aead>)
      requires Valid()
      modifies this
      ensures Valid() && Abs() == Next(old(Abs()), Switch) && aead == cipher && version == old(version)
    {
      rEpoch, generation := (rEpoch + 1) % 0x1_0000, generation + 1;
      bits, maxSeqNum := 0, 0;
      aead := cipher;
    }
  }

  // ----- sealing -----

  /** The number of the next record of the current and of the previous epoch. */
  datatype Writer = Writer(epoch: nat, cur: nat, last: nat)

  /** A record sealed under the current or the previous cipher, or a new write cipher. */
  datatype Op = SealCurrent | SealPrevious | NewCipher

  /** The old cipher is only used once there is a new one. */
  predicate Legal(w: Writer, op: Op) { op.SealPrevious? ==> w.epoch > 0 }

  /** The epoch and number that a record is sealed under. */
  function Taken(w: Writer, op: Op): seq<(nat, nat)>
    requires Legal(w, op)
  {
    match op
    case SealCurrent => [(w.epoch, w.cur)]
    case SealPrevious => [(w.epoch - 1, w.last)]
    case NewCipher => []
  }

  function Advance(w: Writer, op: Op): Writer {
    match op
    case SealCurrent => w.(cur := (w.cur + 1) % EPOCH_UNIT)
    case SealPrevious => w.(last := (w.last + 1) % EPOCH_UNIT)
    case NewCipher => Writer(w.epoch + 1, 0, w.cur)
  }

  predicate LegalRun(w: Writer, ops: seq<Op>)
    decreases |ops|
  {
    ops == [] || (Legal(w, ops[0]) && LegalRun(Advance(w, ops[0]), ops[1..]))
  }

  function TakenBy(w: Writer, ops: seq<Op>): seq<(nat, nat)>
    requires LegalRun(w, ops)
    decreases |ops|
  {
    if ops == [] then [] else Taken(w, ops[0]) + TakenBy(Advance(w, ops[0]), ops[1..])
  }

  /** How many records of a log carry an epoch. */
  function Count(log: seq<(nat, nat)>, e: nat): nat {
    if log == [] then 0 else Count(log[..|log|-1], e) + if log[|log|-1].0 == e then 1 else 0
  }

  /** Every record is numbered by those of its epoch before it. */
  predicate Numbered(log: seq<(nat, nat)>) {
    log == [] || (var n := |log| - 1; Numbered(log[..n]) && log[n].1 == Count(log[..n], log[n].0) % EPOCH_UNIT)
  }

  /** No record is of an epoch after e. */
  predicate UpTo(log: seq<(nat, nat)>, e: nat) {
    log == [] || (UpTo(log[..|log|-1], e) && log[|log|-1].0 <= e)
  }

  /** The counters count the records of their epochs. */
  ghost predicate InStep(w: Writer, log: seq<(nat, nat)>) {
    && Numbered(log) && UpTo(log, w.epoch)
    && w.cur == Count(log, w.epoch) % EPOCH_UNIT
    && (w.epoch > 0 ==> w.last == Count(log, w.epoch - 1) % EPOCH_UNIT)
  }

  lemma {:induction false} NoneBeyond(log: seq<(nat, nat)>, e: nat)
    requires UpTo(log, e)
    ensures Count(log, e + 1) == 0 && UpTo(log, e + 1)
  {
    if log != [] { NoneBeyond(log[..|log|-1], e); }
  }

  /** One more record of epoch e, numbered by those before it. */
  lemma SnocNumbered(log: seq<(nat, nat)>, e: nat, x: (nat, nat), f: nat)
    requires Numbered(log) && x == (e, Count(log, e) % EPOCH_UNIT)
    ensures Numbered(log + [x])
    ensures Count(log + [x], f) == Count(log, f) + if f == e then 1 else 0
    ensures UpTo(log, f) && e <= f ==> UpTo(log + [x], f)
  {
    assert (log + [x])[..|log|] == log;
  }

  lemma NewCipherInStep(w: Writer, log: seq<(nat, nat)>)
    requires InStep(w, log)
    ensures InStep(Advance(w, NewCipher), log)
  {
    NoneBeyond(log, w.epoch);
  }

  lemma SealInStep(w: Writer, op: Op, log: seq<(nat, nat)>, e: nat)
    requires InStep(w, log) && Legal(w, op) && !op.NewCipher?
    requires e == if op.SealCurrent? then w.epoch else w.epoch - 1
    ensures InStep(Advance(w, op), log + Taken(w, op))
  {
    var x := (e, Count(log, e) % EPOCH_UNIT);
    assert Taken(w, op) == [x];
    WrapStep(Count(log, e));
    SnocNumbered(log, e, x, w.epoch);
    if w.epoch > 0 { SnocNumbered(log, e, x, w.epoch - 1); }
  }

  lemma AdvanceInStep(w: Writer, op: Op, log: seq<(nat, nat)>)
    requires InStep(w, log) && Legal(w, op)
    ensures InStep(Advance(w, op), log + Taken(w, op))
  {
    if op.NewCipher? {
      assert log + [] == log;
      NewCipherInStep(w, log);
    } else {
      SealInStep(w, op, log, if op.SealCurrent? then w.epoch else w.epoch - 1);
    }
  }

  lemma WrapStep(n: nat)
    ensures (n % EPOCH_UNIT + 1) % EPOCH_UNIT == (n + 1) % EPOCH_UNIT
  {
  }

  lemma {:induction false} RunInStep(w: Writer, ops: seq<Op>, log: seq<(nat, nat)>)
    requires InStep(w, log) && LegalRun(w, ops)
    ensures Numbered(log + TakenBy(w, ops))
    decreases |ops|
  {
    if ops == [] {
      assert log + TakenBy(w, ops) == log;
    } else {
      AdvanceInStep(w, ops[0], log);
      RunInStep(Advance(w, ops[0]), ops[1..], log + Taken(w, ops[0]));
      Regrouped(log, Taken(w, ops[0]), TakenBy(Advance(w, ops[0]), ops[1..]));
    }
  }

  lemma {:induction false} CountGrows(log: seq<(nat, nat)>, i: nat, j: nat, e: nat)
    requires i <= j <= |log|
    ensures Count(log[..i], e) <= Count(log[..j], e)
    ensures i < j && log[i].0 == e ==> Count(log[..i], e) < Count(log[..j], e)
    decreases j
  {
    if i < j {
      assert log[..j][..j-1] == log[..j-1];
      CountGrows(log, i, j - 1, e);
    }
  }

  /** The record of an epoch that has k others before it. */
  lemma {:induction false} Nth(log: seq<(nat, nat)>, e: nat, k: nat) returns (i: nat)
    requires k < Count(log, e)
    ensures i < |log| && log[i].0 == e && Count(log[..i], e) == k
  {
    var n := |log| - 1;
    if k < Count(log[..n], e) {
      i := Nth(log[..n], e, k);
      assert log[..n][..i] == log[..i];
    } else {
      i := n;
    }
  }

  lemma {:induction false} NumberedAt(log: seq<(nat, nat)>, i: nat)
    requires Numbered(log) && i < |log|
    ensures log[i].1 == Count(log[..i], log[i].0) % EPOCH_UNIT
  {
    var n := |log| - 1;
    if i < n {
      NumberedAt(log[..n], i);
      assert log[..n][..i] == log[..i];
    }
  }

  /** Two records of an epoch that has not run out of numbers differ. */
  lemma PairDistinct(log: seq<(nat, nat)>, i: nat, j: nat)
    requires Numbered(log) && i < j < |log| && Count(log, log[j].0) <= EPOCH_UNIT
    ensures log[i] != log[j]
  {
    var e := log[j].0;
    NumberedAt(log, i);
    NumberedAt(log, j);
    CountGrows(log, i, j, e);
    CountGrows(log, j, |log|, e);
    assert log[..|log|] == log;
  }

  lemma NumberedDistinct(log: seq<(nat, nat)>)
    requires Numbered(log)
    ensures Distinct(log) <==> forall e :: Count(log, e) <= EPOCH_UNIT
  {
    if forall e :: Count(log, e) <= EPOCH_UNIT {
      forall i, j | 0 <= i < j < |log| ensures log[i] != log[j] {
        PairDistinct(log, i, j);
      }
    } else {
      var e :| Count(log, e) > EPOCH_UNIT;
      var i := Nth(log, e, 0);
      var j := Nth(log, e, EPOCH_UNIT);
      NumberedAt(log, i);
      NumberedAt(log, j);
      assert log[i] == log[j];
    }
  }

  /** Over any run, in which records of the old epoch may still be sealed after the switch, no epoch and number are used
      twice if and only if no epoch has more than 2^48 records. */
  lemma NumbersUnique(ops: seq<Op>)
    requires LegalRun(Writer(0, 0, 0), ops)
    ensures var log := TakenBy(Writer(0, 0, 0), ops);
            Distinct(log) <==> forall e :: Count(log, e) <= EPOCH_UNIT
  {
    var w := Writer(0, 0, 0);
    RunInStep(w, ops, []);
    assert [] + TakenBy(w, ops) == TakenBy(w, ops);
    NumberedDistinct(TakenBy(w, ops));
  }

  function Repeat(op: Op, n: nat): seq<Op> { if n == 0 then [] else [op] + Repeat(op, n - 1) }

  lemma {:induction false} RepeatTakes(w: Writer, n: nat)
    ensures LegalRun(w, Repeat(SealCurrent, n)) && Count(TakenBy(w, Repeat(SealCurrent, n)), w.epoch) == n
    decreases n
  {
    if n > 0 {
      var w' := Advance(w, SealCurrent);
      assert Repeat(SealCurrent, n)[1..] == Repeat(SealCurrent, n - 1);
      RepeatTakes(w', n - 1);
      CountJoin(Taken(w, SealCurrent), TakenBy(w', Repeat(SealCurrent, n - 1)), w.epoch);
      assert Count(Taken(w, SealCurrent), w.epoch) == 1 by { assert Taken(w, SealCurrent)[..0] == []; }
    }
  }

  lemma {:induction false} CountJoin(a: seq<(nat, nat)>, b: seq<(nat, nat)>, e: nat)
    ensures Count(a + b, e) == Count(a, e) + Count(b, e)
    decreases |b|
  {
    if b == [] {
      assert a + b == a;
    } else {
      assert (a + b)[..|a + b| - 1] == a + b[..|b|-1];
      CountJoin(a, b[..|b|-1], e);
    }
  }

  /** One record more than there are numbers, and a number is used twice. */
  lemma NumbersRunOut()
    ensures var ops := Repeat(SealCurrent, EPOCH_UNIT + 1);
            LegalRun(Writer(0, 0, 0), ops) && !Distinct(TakenBy(Writer(0, 0, 0), ops))
  {
    RepeatTakes(Writer(0, 0, 0), EPOCH_UNIT + 1);
    NumbersUnique(Repeat(SealCurrent, EPOCH_UNIT + 1));
  }

  // ----- sealed records -----

  function SequenceBytes(epoch: nat, number: nat): (s: seq<byte>)
    ensures |s| == 8
  {
    BigEndian(epoch, 2) + BigEndian(number, 6)
  }

  lemma TwoBytes(v: nat)
    ensures BigEndian(v, 2) == [v / 256 % 256, v % 256]
  {
    assert BigEndian(v / 256, 1) == [v / 256 % 256];
  }

  lemma EpochBack(epoch: nat)
    requires epoch < 0x1_0000
    ensures 256 * (epoch / 256 % 256) + epoch % 256 == epoch
  {
  }

  lemma SequenceNumber(epoch: nat, number: nat)
    requires epoch < 0x1_0000 && number < EPOCH_UNIT
    ensures FromBigEndian(SequenceBytes(epoch, number)) == epoch * EPOCH_UNIT + number
  {
    var s := SequenceBytes(epoch, number);
    EpochOnTop(s);
    assert s[2..] == BigEndian(number, 6);
    TwoBytes(epoch);
    assert s[0] == epoch / 256 % 256 && s[1] == epoch % 256;
    EpochBack(epoch);
    CounterInverse(number, 6);
  }

  lemma {:induction false} CounterInverse(v: nat, n: nat)
    requires v < Pow256(n)
    ensures FromBigEndian(BigEndian(v, n)) == v
  {
    if n > 0 {
      BigEndianStep(v, n);
      CounterInverse(v / 256, n - 1);
    }
  }

  /** A record as dtls_seal_record writes it. */
  predicate IsSealed(bytes: seq<byte>, a: Option<Aead>, ty: byte, version: nat, epoch: nat, number: nat,
                     plain: seq<byte>)
  {
    var text := Seal(a, ty, version, SequenceBytes(epoch, number), plain);
    text.Some? && bytes == EncRecord(RawRecord(ty, version, SequenceBytes(epoch, number), text.value))
  }

  /** The receiver of a sealed record gets back its type and contents, if the ciphers and epochs agree and the number is
      fresh, whatever follows in the packet. */
  lemma SealedOpens(bytes: seq<byte>, rest: seq<byte>, a: Option<Aead>, ty: byte, version: nat, epoch: nat, number: nat,
                    plain: seq<byte>, r: Reader, seen: set<nat>)
    requires AeadOk(a) && IsSealed(bytes, a, ty, version, epoch, number, plain)
    requires version / 256 == 0xfe && epoch < 0x1_0000 && number < EPOCH_UNIT
    requires |plain| <= MAX_PLAIN && MaxOverhead(a) <= MAX_ENCRYPTED - MAX_PLAIN
    requires Holds(r.w, seen) && r.generation == epoch
    requires epoch * EPOCH_UNIT + number !in seen && epoch * EPOCH_UNIT + number + WINDOW > r.w.max
    ensures var parsed := ParseRecord(bytes + rest, Some(version));
            && parsed.Some? && parsed.value.1 == rest
            && OpenRaw(r, a, parsed.value.0) == if ty == RT_ALERT then Alert(plain) else Success(ty, plain)
  {
    var text := Seal(a, ty, version, SequenceBytes(epoch, number), plain).value;
    ParseEncoded(RawRecord(ty, version, SequenceBytes(epoch, number), text), rest, Some(version));
    SequenceNumber(epoch, number);
    DiscardsSeenOrStale(r.w, seen, epoch * EPOCH_UNIT + number);
    NumberEpoch(epoch, number);
  }

  lemma NumberEpoch(epoch: nat, number: nat)
    requires epoch < 0x1_0000 && number < EPOCH_UNIT
    ensures (epoch * EPOCH_UNIT + number) / EPOCH_UNIT == epoch == epoch % 0x1_0000
  {
  }

  /** Only the low sixteen bits of an epoch go into a record. */
  lemma EpochWraps(generation: nat)
    ensures BigEndian(generation % 0x1_0000, 2) == BigEndian(generation, 2)
  {
    TwoBytes(generation);
    TwoBytes(generation % 0x1_0000);
    LowBytes(generation / 0x1_0000, generation % 0x1_0000);
  }

  lemma LowBytes(high: nat, low: nat)
    ensures (0x1_0000 * high + low) % 256 == low % 256 && (0x1_0000 * high + low) / 256 % 256 == low / 256 % 256
  {
    assert (0x1_0000 * high + low) / 256 == 256 * high + low / 256;
  }

  lemma FirstEpoch(generation: nat)
    requires generation % 0x1_0000 == 1
    ensures generation > 0 && (generation - 1) % 0x1_0000 == 0
  {
  }

  /** The writing half of the record state. */
  class RecordWriter {
    var wEpoch: nat                     // 16 bits wide
    ghost var generation: nat           // how often the write state was set
    const writeSequence: array<byte>
    const lastWriteSequence: array<byte>
    var aead: Option<Aead>
    var version: Option<nat>            // have_version and version
    ghost var log: seq<(nat, nat)>

    ghost predicate Valid()
      reads this, writeSequence, lastWriteSequence
    {
      && writeSequence.Length == lastWriteSequence.Length == 8 && writeSequence != lastWriteSequence
      && wEpoch == generation % 0x1_0000 && InStep(Abs(), log)
    }

    ghost function Abs(): Writer
      requires writeSequence.Length == lastWriteSequence.Length == 8
      reads this, writeSequence, lastWriteSequence
    {
      Writer(generation, FromBigEndian(writeSequence[2..]), FromBigEndian(lastWriteSequence[2..]))
    }

    /** get_write_aead */
    function Cipher(usePrevious: bool): Option<Aead>
      reads this
    {
      if usePrevious then None else aead
    }

    function WireVersion(): nat
      reads this
    {
      if version.Some? then version.value else DTLS1_VERSION
    }

    constructor ()
      ensures Valid() && Abs() == Writer(0, 0, 0) && aead == None && version == None && log == []
      ensures fresh(writeSequence) && fresh(lastWriteSequence)
    {
      writeSequence := new byte[8](_ => 0);
      lastWriteSequence := new byte[8](_ => 0);
      wEpoch, generation, aead, version, log := 0, 0, None, None, [];
      new;
      ZeroCounter(writeSequence[2..]);
      ZeroCounter(lastWriteSequence[2..]);
    }

    /** ssl_record_sequence_update on the counter in use. */
    method TakeNumber(usePrevious: bool) returns (ok: bool)
      requires Valid() && (usePrevious ==> wEpoch == 1)
      modifies this`log, writeSequence, lastWriteSequence
      ensures Valid()
      ensures var op := if usePrevious then SealPrevious else SealCurrent;
              && log == old(log) + Taken(old(Abs()), op)
              && Abs() == Advance(old(Abs()), op)
              && (ok <==> Taken(old(Abs()), op)[0].1 + 1 < EPOCH_UNIT)
    {
      ghost var w, op := Abs(), if usePrevious then SealPrevious else SealCurrent;
      AdvanceInStep(w, op, log);
      var counter := if usePrevious then lastWriteSequence else writeSequence;
      ghost var was := counter[2..];
      SixBytes();
      CounterSteps(was);
      ok := SequenceUpdate(counter, 2);
      log := log + Taken(w, op);
      assert Abs() == Advance(w, op);
    }

    /** The epoch and number that go into the next record. */
    method NextSequence(usePrevious: bool) returns (sequence: seq<byte>)
      requires Valid() && (usePrevious ==> wEpoch == 1)
      ensures usePrevious ==> generation > 0
      ensures var (epoch, number) := Taken(Abs(), if usePrevious then SealPrevious else SealCurrent)[0];
              sequence == SequenceBytes(epoch, number)
    {
      var epoch := if usePrevious then wEpoch - 1 else wEpoch;
      var counter := if usePrevious then lastWriteSequence else writeSequence;
      sequence := BigEndian(epoch, 2) + counter[2..];
      BigEndianOf(counter[2..]);
      if usePrevious {
        FirstEpoch(generation);
        EpochWraps(generation - 1);
      } else {
        EpochWraps(generation);
      }
    }

    /** dtls_seal_record */
    method SealRecord(ty: byte, plain: seq<byte>, usePrevious: bool, maxOut: nat) returns (out: Option<seq<byte>>)
      requires Valid() && (usePrevious ==> wEpoch == 1)
      modifies this`log, writeSequence, lastWriteSequence
      ensures Valid()
      ensures var op := if usePrevious then SealPrevious else SealCurrent;
              var (epoch, number) := Taken(old(Abs()), op)[0];
              var text := Seal(Cipher(usePrevious), ty, WireVersion(), SequenceBytes(epoch, number), plain);
              var sealed := text.Some? && RT_HEADER + |text.value| <= maxOut;
              && log == old(log) + (if sealed then [(epoch, number)] else [])
              && Abs() == (if sealed then Advance(old(Abs()), op) else old(Abs()))
              && (out.Some? <==> sealed && |text.value| < 0x1_0000 && number + 1 < EPOCH_UNIT)
              && (out.Some? ==> |out.value| == RT_HEADER + |text.value| <= maxOut
                                && IsSealed(out.value, Cipher(usePrevious), ty, WireVersion(), epoch, number, plain))
    {
      if maxOut < RT_HEADER {
        return None;
      }
      var sequence := NextSequence(usePrevious);
      var text := Seal(Cipher(usePrevious), ty, WireVersion(), sequence, plain);
      if text.None? || |text.value| > maxOut - RT_HEADER {
        return None;
      }
      var ok := TakeNumber(usePrevious);
      if !ok || |text.value| >= 0x1_0000 {
        return None;
      }
      out := Some(EncRecord(RawRecord(ty, WireVersion(), sequence, text.value)));
    }

    /** The current counter becomes the previous one, and a new one starts from zero. */
    method RetireCounter()
      requires writeSequence.Length == lastWriteSequence.Length == 8 && writeSequence != lastWriteSequence
      modifies writeSequence, lastWriteSequence
      ensures lastWriteSequence[..] == old(writeSequence[..]) && FromBigEndian(writeSequence[2..]) == 0
    {
      forall i | 0 <= i < 8 { lastWriteSequence[i] := writeSequence[i]; }
      forall i | 0 <= i < 8 { writeSequence[i] := 0; }
      ZeroCounter(writeSequence[2..]);
    }

    /** dtls1_set_write_state */
    method SetWriteState(cipher: Option<Aead>)
      requires Valid()
      modifies this`wEpoch, this`generation, this`aead, writeSequence, lastWriteSequence
      ensures Valid() && Abs() == Advance(old(Abs()), NewCipher) && aead == cipher
    {
      AdvanceInStep(Abs(), NewCipher, log);
      assert log + [] == log;
      RetireCounter();
      wEpoch, generation := (wEpoch + 1) % 0x1_0000, generation + 1;
      aead := cipher;
    }
  }

  lemma {:induction false} ZeroCounter(s: seq<byte>)
    requires forall k :: 0 <= k < |s| ==> s[k] == 0
    ensures FromBigEndian(s) == 0
  {
    if s != [] { ZeroCounter(s[..|s|-1]); }
  }
}
