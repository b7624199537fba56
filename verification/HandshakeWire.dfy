/** DTLS handshake messages and their fragments on the wire (RFC 6347, section 4.2.2; d1_both.c:477-534). */
module HandshakeWire {
  import opened Bits
  import opened Wrappers

  /** DTLS1_HM_HEADER_LENGTH and DTLS1_RT_HEADER_LENGTH (internal.h:1662-1664) */
  const HM_HEADER: nat := 12
  const RT_HEADER: nat := 13

  /** SSL_MAX_HANDSHAKE_FLIGHT (internal.h:713) */
  const FLIGHT: nat := 7

  /** hm_header_st */
  datatype Header = Header(ty: byte, msgLen: nat, seqNo: nat, fragOff: nat, fragLen: nat)

  datatype Fragment = Fragment(h: Header, body: seq<byte>)

  /** A handshake message; its sequence number is its place in the sender's list. */
  datatype Message = Message(ty: byte, body: seq<byte>)

  function BigEndian(v: nat, n: nat): (s: seq<byte>)
    ensures |s| == n
  {
    if n == 0 then [] else BigEndian(v / 256, n - 1) + [v % 256]
  }

  function FromBigEndian(s: seq<byte>): nat {
    if s == [] then 0 else 256 * FromBigEndian(s[..|s|-1]) + s[|s|-1]
  }

  /** Whether the header's numbers fit their fields. */
  predicate Encodable(h: Header) {
    h.msgLen < 0x100_0000 && h.seqNo < 0x1_0000 && h.fragOff < 0x100_0000 && h.fragLen < 0x100_0000
  }

  function EncHeader(h: Header): (s: seq<byte>)
    ensures |s| == HM_HEADER
  {
    [h.ty] + BigEndian(h.msgLen, 3) + BigEndian(h.seqNo, 2) + BigEndian(h.fragOff, 3) + BigEndian(h.fragLen, 3)
  }

  function EncFragment(f: Fragment): seq<byte> { EncHeader(f.h) + f.body }

  function EncFragments(fs: seq<Fragment>): seq<byte> {
    if fs == [] then [] else EncFragment(fs[0]) + EncFragments(fs[1..])
  }

  /** A whole message as dtls1_finish_message leaves it: one fragment that covers everything. */
  function EncMessage(seqNo: nat, m: Message): seq<byte> {
    EncFragment(Fragment(Header(m.ty, |m.body|, seqNo, 0, |m.body|), m.body))
  }

  /** dtls1_parse_fragment: the fragment at the front of the input, and the rest. */
  function ParseFragment(s: seq<byte>): (r: Option<(Fragment, seq<byte>)>)
    ensures r.Some? ==> |r.value.1| < |s| && |r.value.0.body| == r.value.0.h.fragLen
  {
    if |s| < HM_HEADER then None
    else
      var h := Header(s[0], FromBigEndian(s[1..4]), FromBigEndian(s[4..6]), FromBigEndian(s[6..9]),
                      FromBigEndian(s[9..12]));
      if |s| - HM_HEADER < h.fragLen then None
      else Some((Fragment(h, s[HM_HEADER..HM_HEADER + h.fragLen]), s[HM_HEADER + h.fragLen..]))
  }

  lemma BigEndianInverse(v: nat)
    ensures v < 0x1_0000 ==> FromBigEndian(BigEndian(v, 2)) == v
    ensures v < 0x100_0000 ==> FromBigEndian(BigEndian(v, 3)) == v
  {
    BigEndianStep(v, 2);
    BigEndianStep(v, 3);
    BigEndianStep(v / 256, 1);
    BigEndianStep(v / 256, 2);
    BigEndianStep(v / 256 / 256, 1);
  }

  lemma BigEndianStep(v: nat, n: nat)
    requires n > 0
    ensures FromBigEndian(BigEndian(v, n)) == 256 * FromBigEndian(BigEndian(v / 256, n - 1)) + v % 256
  {
    var s := BigEndian(v, n);
    assert s[..|s|-1] == BigEndian(v / 256, n - 1);
  }

  /** Parsing undoes encoding, whatever follows. */
  lemma ParseRoundTrip(f: Fragment, rest: seq<byte>)
    requires Encodable(f.h) && |f.body| == f.h.fragLen
    ensures ParseFragment(EncFragment(f) + rest) == Some((f, rest))
  {
    var h, s := f.h, EncFragment(f) + rest;
    assert s[1..4] == BigEndian(h.msgLen, 3);
    assert s[4..6] == BigEndian(h.seqNo, 2);
    assert s[6..9] == BigEndian(h.fragOff, 3);
    assert s[9..12] == BigEndian(h.fragLen, 3);
    BigEndianInverse(h.msgLen);
    BigEndianInverse(h.seqNo);
    BigEndianInverse(h.fragOff);
    BigEndianInverse(h.fragLen);
    assert s[HM_HEADER..HM_HEADER + h.fragLen] == f.body;
    assert s[HM_HEADER + h.fragLen..] == rest;
  }

  lemma {:induction false} BigEndianOf(s: seq<byte>)
    ensures BigEndian(FromBigEndian(s), |s|) == s
  {
    if s != [] { BigEndianOf(s[..|s|-1]); }
  }

  predicate AllOnes(s: seq<byte>) {
    s == [] || (s[|s|-1] == 255 && AllOnes(s[..|s|-1]))
  }

  lemma {:induction false} BigEndianBound(s: seq<byte>)
    ensures FromBigEndian(s) < Pow256(|s|)
    ensures FromBigEndian(s) + 1 == Pow256(|s|) <==> AllOnes(s)
  {
    if s != [] {
      BigEndianBound(s[..|s|-1]);
    }
  }

  lemma HeaderNumbers(s: seq<byte>)
    ensures |s| == 2 ==> FromBigEndian(s) < 0x1_0000
    ensures |s| == 3 ==> FromBigEndian(s) < 0x100_0000
  {
    BigEndianBound(s);
    assert Pow256(2) == 0x1_0000 && Pow256(3) == 0x100_0000;
  }

  /** And encoding undoes parsing: only what an encoder writes is accepted. */
  lemma ParsedIsEncoded(s: seq<byte>)
    requires ParseFragment(s).Some?
    ensures var (f, rest) := ParseFragment(s).value;
            s == EncFragment(f) + rest && Encodable(f.h) && |f.body| == f.h.fragLen
  {
    var (f, rest) := ParseFragment(s).value;
    HeaderNumbers(s[1..4]);
    HeaderNumbers(s[4..6]);
    HeaderNumbers(s[6..9]);
    HeaderNumbers(s[9..12]);
    BigEndianOf(s[1..4]);
    BigEndianOf(s[4..6]);
    BigEndianOf(s[6..9]);
    BigEndianOf(s[9..12]);
    assert s == [s[0]] + s[1..4] + s[4..6] + s[6..9] + s[9..12] + s[12..];
    assert s[12..] == f.body + rest;
  }
}
