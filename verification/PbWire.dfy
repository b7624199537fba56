/** The scalar wire formats: base-128 varints, zigzag, little-endian words, tags, and how to skip them. */
module PbWire {
  import opened Wrappers
  import opened PbTypes
  import Bits

  /** The outcome of reading from the front of the input. */
  datatype Parsed<+T> = Fail | Ok(v: T, rest: seq<byte>)

  /** pb_wire_type_t as the number it is: 0 varint, 1 64-bit, 2 length-delimited, 5 32-bit. */
  const WT_VARINT: nat := 0
  const WT_64BIT: nat := 1
  const WT_STRING: nat := 2
  const WT_32BIT: nat := 5

  function EncVarint(v: nat): (s: seq<byte>)
    ensures |s| >= 1
  {
    if v < 128 then [v] else [128 + v % 128] + EncVarint(v / 128)
  }

  /** Reads a varint of at most `limit` bytes, without truncating its value. */
  function ReadVarint(s: seq<byte>, limit: nat): (p: Parsed<nat>)
    ensures p.Ok? ==> |p.rest| < |s|
  {
    if limit == 0 || s == [] then Fail
    else if s[0] < 128 then Ok(s[0], s[1..])
    else match ReadVarint(s[1..], limit - 1)
      case Fail => Fail
      case Ok(v, rest) => Ok(s[0] - 128 + 128 * v, rest)
  }

  /** pb_decode_varint: ten bytes at most, the value modulo 2^64. */
  function DecVarint64(s: seq<byte>): (p: Parsed<nat>)
    ensures p.Ok? ==> |p.rest| < |s| && p.v < U64
  {
    match ReadVarint(s, 10)
    case Fail => Fail
    case Ok(v, rest) => Ok(v % U64, rest)
  }

  /** pb_decode_varint32: five bytes at most, the value modulo 2^32. */
  function DecVarint32(s: seq<byte>): (p: Parsed<nat>)
    ensures p.Ok? ==> |p.rest| < |s| && p.v < U32
  {
    match ReadVarint(s, 5)
    case Fail => Fail
    case Ok(v, rest) => Ok(v % U32, rest)
  }

  function SkipVarint(s: seq<byte>): (p: Parsed<()>)
    ensures p.Ok? ==> |p.rest| < |s|
  {
    if s == [] then Fail else if s[0] < 128 then Ok((), s[1..]) else SkipVarint(s[1..])
  }

  function Take(s: seq<byte>, n: nat): (p: Parsed<seq<byte>>)
    ensures p.Ok? ==> |p.rest| <= |s|
  {
    if |s| < n then Fail else Ok(s[..n], s[n..])
  }

  /** pb_make_string_substream and its closing: a length and that many bytes. */
  function TakeString(s: seq<byte>): (p: Parsed<seq<byte>>)
    ensures p.Ok? ==> |p.rest| < |s| && |p.v| < |s| && |p.v| < U32
  {
    match DecVarint32(s)
    case Fail => Fail
    case Ok(n, rest) => Take(rest, n)
  }

  /** pb_skip_field */
  function SkipField(wt: nat, s: seq<byte>): (p: Parsed<()>)
    ensures p.Ok? ==> |p.rest| <= |s|
  {
    if wt == WT_VARINT then SkipVarint(s)
    else if wt == WT_64BIT then Drop(Take(s, 8))
    else if wt == WT_STRING then Drop(TakeString(s))
    else if wt == WT_32BIT then Drop(Take(s, 4))
    else Fail
  }

  function Drop(p: Parsed<seq<byte>>): Parsed<()> {
    if p.Ok? then Ok((), p.rest) else Fail
  }

  /** pb_decode_tag */
  datatype TagRead = End | Bad | Tagged(wt: nat, tag: nat, rest: seq<byte>)

  /** A failed read that has used up the stream counts as the end of the message, and so does a zero tag. */
  function DecTag(s: seq<byte>): (t: TagRead)
    ensures t.Tagged? ==> |t.rest| < |s| && t.wt < 8 && t.tag < 0x2000_0000
  {
    match DecVarint32(s)
    case Fail => if |s| <= 5 then End else Bad
    case Ok(v, rest) => if v == 0 then End else Tagged(v % 8, v / 8, rest)
  }

  function EncTag(wt: nat, tag: nat): seq<byte>
    requires wt < 8
  {
    EncVarint(8 * tag + wt)
  }

  function LenPrefixed(b: seq<byte>): seq<byte> { EncVarint(|b|) + b }

  /** pb_encode_svarint's mapping, in the C operators: shift left, complement when negative. */
  function Zigzag(v: int): nat {
    if v < 0 then U64 - 1 - 2 * (v % U64) % U64 else 2 * (v % U64) % U64
  }

  /** pb_decode_svarint's mapping: shift right, complement when odd, read as int64_t. */
  function UnZigzag(v: nat): int {
    if v % 2 == 1 then Signed(U64 - 1 - v / 2, 8) else Signed(v / 2, 8)
  }

  function LittleEndian(v: nat, n: nat): (s: seq<byte>)
    ensures |s| == n
  {
    if n == 0 then [] else [v % 256] + LittleEndian(v / 256, n - 1)
  }

  function FromLittleEndian(s: seq<byte>): (v: nat)
    ensures v < Bits.Pow256(|s|)
  {
    if s == [] then 0 else s[0] + 256 * FromLittleEndian(s[1..])
  }

  /** pb_dec_varint's casts: through int32_t below 64 bits, then to the field; None is "integer too large". */
  function CastSigned(v: nat, size: nat): (r: Option<int>)
    ensures r.Some? && IntSize(size) ==> Signed(r.value, size) == r.value
  {
    var s := if size == 8 then Signed(v, 8) else Signed(v, 4);
    if IntSize(size) && Signed(s, size) == s then Some(s) else None
  }

  function CastUnsigned(v: nat, size: nat): (r: Option<int>)
    ensures r.Some? ==> 0 <= r.value < Range(size)
  {
    if IntSize(size) && v < Range(size) then Some(v) else None
  }

  /** pb_dec_svarint: no detour through int32_t here. */
  function CastZigzag(v: nat, size: nat): (r: Option<int>)
    ensures r.Some? && IntSize(size) ==> Signed(r.value, size) == r.value
  {
    var s := UnZigzag(v);
    if IntSize(size) && Signed(s, size) == s then Some(s) else None
  }

  /** A string read from the wire ends, for C, at its first NUL. */
  function CString(s: seq<byte>): (c: seq<byte>)
    ensures NulFree(c) && |c| <= |s|
  {
    if s == [] || s[0] == 0 then [] else [s[0]] + CString(s[1..])
  }

  // ----- varints -----

  function Pow128(n: nat): (p: nat)
    ensures p >= 1
  {
    if n == 0 then 1 else 128 * Pow128(n - 1)
  }

  lemma {:induction false} VarintLength(v: nat, n: nat)
    requires 1 <= n && v < Pow128(n)
    ensures |EncVarint(v)| <= n
  {
    if 128 <= v {
      assert Pow128(n) == 128 * Pow128(n - 1);
      VarintLength(v / 128, n - 1);
    }
  }

  lemma {:induction false} VarintLonger(v: nat, n: nat)
    requires Pow128(n) <= v
    ensures |EncVarint(v)| > n
  {
    if n > 0 {
      assert Pow128(n) == 128 * Pow128(n - 1);
      VarintLonger(v / 128, n - 1);
    }
  }

  /** A number takes n bytes or less if and only if it is below 128^n. */
  lemma VarintSize(v: nat, n: nat)
    requires n >= 1
    ensures |EncVarint(v)| <= n <==> v < Pow128(n)
  {
    if v < Pow128(n) { VarintLength(v, n); } else { VarintLonger(v, n); }
  }

  /** Byte i of a varint: bits 7i to 7i + 6, and above them whether more bytes follow. */
  lemma {:induction false} VarintBytes(v: nat, i: nat)
    requires i < |EncVarint(v)|
    ensures EncVarint(v)[i] == v / Pow128(i) % 128 + if i + 1 < |EncVarint(v)| then 128 else 0
    decreases i
  {
    if v >= 128 && i > 0 {
      VarintBytes(v / 128, i - 1);
      Bits.DivDiv(v, 128, Pow128(i - 1));
    }
  }

  /** Every 64-bit number takes at most ten bytes and every 32-bit number at most five. */
  lemma VarintFits(v: nat)
    ensures v < U64 ==> |EncVarint(v)| <= 10
    ensures v < U32 ==> |EncVarint(v)| <= 5
  {
    assert Pow128(5) == 128 * 128 * 128 * 128 * 128 by { Pow128Small(); }
    if v < U64 { Pow128Small(); VarintLength(v, 10); }
    if v < U32 { VarintLength(v, 5); }
  }

  lemma Pow128Small()
    ensures Pow128(5) == 0x8_0000_0000
    ensures Pow128(10) == 0x40_0000_0000_0000_0000
  {
    assert Pow128(2) == 128 * 128;
    assert Pow128(4) == 128 * 128 * Pow128(2);
    assert Pow128(6) == 128 * 128 * Pow128(4);
    assert Pow128(8) == 128 * 128 * Pow128(6);
  }

  lemma {:induction false} ReadEncoded(v: nat, rest: seq<byte>, limit: nat)
    requires |EncVarint(v)| <= limit
    ensures ReadVarint(EncVarint(v) + rest, limit) == Ok(v, rest)
  {
    var s := EncVarint(v) + rest;
    if v < 128 {
      assert s[1..] == rest;
    } else {
      assert s[1..] == EncVarint(v / 128) + rest;
      ReadEncoded(v / 128, rest, limit - 1);
    }
  }

  /** Whatever follows it, an encoded number is read back by both decoders, each modulo its width. */
  lemma VarintRoundTrip(v: nat, rest: seq<byte>)
    ensures v < U64 ==> DecVarint64(EncVarint(v) + rest) == Ok(v, rest)
    ensures v < U32 ==> DecVarint32(EncVarint(v) + rest) == Ok(v, rest)
  {
    VarintFits(v);
    if v < U64 {
      ReadEncoded(v, rest, 10);
      SmallMod(v, U64);
    }
    if v < U32 {
      ReadEncoded(v, rest, 5);
      SmallMod(v, U32);
    }
  }

  lemma {:induction false} ReadLimits(s: seq<byte>, a: nat, b: nat)
    requires a <= b
    ensures ReadVarint(s, a).Ok? ==> ReadVarint(s, b) == ReadVarint(s, a)
    ensures ReadVarint(s, b).Ok? ==>
              (ReadVarint(s, a).Ok? <==> |s| - |ReadVarint(s, b).rest| <= a)
  {
    if a != 0 && s != [] && s[0] >= 128 {
      ReadLimits(s[1..], a - 1, b - 1);
    }
  }

  lemma SmallMod(v: nat, m: nat)
    requires v < m
    ensures v % m == v
  {
  }

  lemma ModMod(v: nat)
    ensures v % U64 % U32 == v % U32
  {
    assert v == U64 * (v / U64) + v % U64;
    assert v == U32 * (U32 * (v / U64)) + v % U64;
  }

  /** pb_decode_varint32 is pb_decode_varint modulo 2^32 on varints of at most five bytes, and rejects every longer
      one. */
  lemma Varint32Agrees(s: seq<byte>)
    requires DecVarint64(s).Ok?
    ensures var p := DecVarint64(s);
            if |s| - |p.rest| <= 5 then DecVarint32(s) == Ok(p.v % U32, p.rest) else DecVarint32(s).Fail?
  {
    ReadLimits(s, 5, 10);
    if ReadVarint(s, 5).Ok? {
      ModMod(ReadVarint(s, 5).v);
    }
  }

  lemma {:induction false} SkipEncoded(v: nat, rest: seq<byte>)
    ensures SkipVarint(EncVarint(v) + rest) == Ok((), rest)
  {
    var s := EncVarint(v) + rest;
    if v < 128 {
      assert s[1..] == rest;
    } else {
      assert s[1..] == EncVarint(v / 128) + rest;
      SkipEncoded(v / 128, rest);
    }
  }

  lemma TagRoundTrip(wt: nat, tag: nat, rest: seq<byte>)
    requires wt < 8 && 1 <= tag < 0x2000_0000
    ensures DecTag(EncTag(wt, tag) + rest) == Tagged(wt, tag, rest)
  {
    VarintRoundTrip(8 * tag + wt, rest);
  }

  lemma StringRoundTrip(b: seq<byte>, rest: seq<byte>)
    requires |b| < U32
    ensures TakeString(LenPrefixed(b) + rest) == Ok(b, rest)
  {
    VarintRoundTrip(|b|, b + rest);
    assert LenPrefixed(b) + rest == EncVarint(|b|) + (b + rest);
  }

  /** Byte i of a little-endian number: bits 8i to 8i + 7. */
  lemma {:induction false} LittleEndianBytes(v: nat, n: nat, i: nat)
    requires i < n
    ensures LittleEndian(v, n)[i] == v / Bits.Pow256(i) % 256
    decreases i
  {
    if i > 0 {
      LittleEndianBytes(v / 256, n - 1, i - 1);
      Bits.DivDiv(v, 256, Bits.Pow256(i - 1));
    }
  }

  lemma {:induction false} LittleEndianRoundTrip(v: nat, n: nat)
    ensures FromLittleEndian(LittleEndian(v, n)) == v % Bits.Pow256(n)
  {
    if n != 0 {
      LittleEndianRoundTrip(v / 256, n - 1);
      DivModStep(v, Bits.Pow256(n - 1));
    }
  }

  lemma DivModStep(v: nat, p: nat)
    requires p >= 1
    ensures v % 256 + 256 * (v / 256 % p) == v % (256 * p)
  {
    var q := v / 256;
    var r := v % 256 + 256 * (q % p);
    assert q == p * (q / p) + q % p;
    assert v == (256 * p) * (q / p) + r;
    assert r < 256 * p;
    Bits.Remainder(v, 256 * p, q / p, r);
  }

  lemma WordRoundTrip(v: nat)
    ensures v < U32 ==> FromLittleEndian(LittleEndian(v, 4)) == v
    ensures v < U64 ==> FromLittleEndian(LittleEndian(v, 8)) == v
  {
    Pow256Small();
    if v < U32 {
      LittleEndianRoundTrip(v, 4);
      SmallMod(v, Bits.Pow256(4));
    }
    if v < U64 {
      LittleEndianRoundTrip(v, 8);
      SmallMod(v, Bits.Pow256(8));
    }
  }

  lemma Pow256Small()
    ensures Bits.Pow256(4) == U32 && Bits.Pow256(8) == U64
  {
    assert Bits.Pow256(2) == 256 * 256;
    assert Bits.Pow256(4) == 256 * 256 * Bits.Pow256(2);
    assert Bits.Pow256(6) == 256 * 256 * Bits.Pow256(4);
    assert Bits.Pow256(8) == 256 * 256 * Bits.Pow256(6);
  }

  /** The zigzag code lists 0, -1, 1, -2, ... and the two C mappings are inverse. */
  lemma ZigzagInverse(v: int)
    requires Signed(v, 8) == v
    ensures Zigzag(v) == if v < 0 then -2 * v - 1 else 2 * v
    ensures Zigzag(v) < U64 && UnZigzag(Zigzag(v)) == v
  {
  }

  /** The conversion to a signed size gives the number of that size that agrees with the original in its low bits. */
  lemma SignedAgrees(v: int, size: nat)
    requires IntSize(size)
    ensures 0 <= 2 * Signed(v, size) + Range(size) < 2 * Range(size) && Signed(v, size) % Range(size) == v % Range(size)
  {
  }

  /** The signed, unsigned and zigzag field codecs invert each other at every integer size. */
  lemma IntRoundTrip(v: int, size: nat)
    requires IntSize(size)
    ensures Signed(v, size) == v ==> CastSigned(v % U64, size) == Some(v)
    ensures 0 <= v < Range(size) ==> CastUnsigned(v, size) == Some(v)
    ensures Signed(v, size) == v ==> Signed(v, 8) == v && CastZigzag(Zigzag(v), size) == Some(v)
  {
    if Signed(v, size) == v {
      SignedWidens(v, size);
      SignedBack(v, size);
      ZigzagInverse(v);
    }
  }

  lemma SignedWidens(v: int, size: nat)
    requires IntSize(size) && Signed(v, size) == v
    ensures Signed(v, 8) == v && (size != 8 ==> Signed(v, 4) == v)
  {
  }

  lemma SignedBack(v: int, size: nat)
    requires IntSize(size) && Signed(v, size) == v
    ensures CastSigned(v % U64, size) == Some(v)
  {
    SignedWidens(v, size);
    SignedOfWord(v);
  }

  /** Going through a 64-bit word loses nothing of a 32- or 64-bit number. */
  lemma SignedOfWord(v: int)
    ensures Signed(v, 8) == v ==> Signed(v % U64, 8) == v
    ensures Signed(v, 4) == v ==> Signed(v % U64, 4) == v
  {
  }

  /** A C string is what comes before the first NUL, or everything if there is none. */
  lemma {:induction false} CStringEnds(s: seq<byte>)
    ensures CString(s) <= s && NulFree(CString(s))
    ensures |CString(s)| < |s| ==> s[|CString(s)|] == 0
  {
    if s != [] && s[0] != 0 {
      CStringEnds(s[1..]);
      assert s == [s[0]] + s[1..];
    }
  }

  lemma {:induction false} CStringOfNulFree(s: seq<byte>)
    requires NulFree(s)
    ensures CString(s) == s
  {
    if s != [] {
      CStringOfNulFree(s[1..]);
    }
  }
}
