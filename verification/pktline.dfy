/**
 * git's packet-line framing as the gateway writes it: a lowercase hexadecimal
 * length that counts its own header, zero-padded to a multiple of four digits,
 * followed by the payload; and the flush packet "0000".
 *
 * ParseFrame is an independent reader of four-digit frames, the partner that
 * the round-trip lemmas use.
 */
module PktLine {
  import opened Wrappers

  predicate IsHexDigit(c: char) {
    '0' <= c <= '9' || 'a' <= c <= 'f'
  }

  predicate IsHex(s: string) {
    forall i :: 0 <= i < |s| ==> IsHexDigit(s[i])
  }

  function DigitValue(c: char): (d: nat)
    requires IsHexDigit(c)
    ensures d < 16
  {
    if c <= '9' then c as int - '0' as int else c as int - 'a' as int + 10
  }

  /** The lowercase digit for d; the inverse of DigitValue. */
  function HexDigit(d: nat): (c: char)
    requires d < 16
    ensures IsHexDigit(c) && DigitValue(c) == d
  {
    if d < 10 then ('0' as int + d) as char else ('a' as int + d - 10) as char
  }

  /** The number a string of hex digits denotes, most significant digit first. */
  function HexValue(s: string): nat
    requires IsHex(s)
  {
    if s == [] then 0 else 16 * HexValue(s[..|s| - 1]) + DigitValue(s[|s| - 1])
  }

  function Pow16(k: nat): (p: nat)
    ensures p >= 1
  {
    if k == 0 then 1 else 16 * Pow16(k - 1)
  }

  function Zeros(k: nat): (z: string)
    ensures |z| == k && IsHex(z) && forall i :: 0 <= i < k ==> z[i] == '0'
  {
    if k == 0 then [] else Zeros(k - 1) + ['0']
  }

  /**
   * strconv.FormatInt(n, 16) for a non-negative n: the digits of n without
   * leading zeros ("0" for zero).
   */
  function FormatHex(n: nat): (s: string)
    ensures IsHex(s) && HexValue(s) == n
    ensures 1 <= |s| && n < Pow16(|s|)
    ensures |s| == 1 || Pow16(|s| - 1) <= n
  {
    if n < 16 then
      [HexDigit(n)]
    else
      var p := FormatHex(n / 16);
      var s := p + [HexDigit(n % 16)];
      assert s[..|s| - 1] == p;
      s
  }

  lemma {:induction false} HexValueAppend(a: string, b: string)
    requires IsHex(a) && IsHex(b)
    ensures IsHex(a + b)
    ensures HexValue(a + b) == HexValue(a) * Pow16(|b|) + HexValue(b)
  {
    if b == [] {
      assert a + b == a;
    } else {
      var b' := b[..|b| - 1];
      var d := DigitValue(b[|b| - 1]);
      assert (a + b)[..|a + b| - 1] == a + b';
      assert (a + b)[|a + b| - 1] == b[|b| - 1];
      HexValueAppend(a, b');
      assert HexValue(a + b) == 16 * HexValue(a + b') + d;
      Regroup(HexValue(a), Pow16(|b'|), HexValue(b'), d);
    }
  }

  /** 16 (x y + z) + d == x (16 y) + (16 z + d) */
  lemma Regroup(x: int, y: int, z: int, d: int)
    ensures 16 * (x * y + z) + d == x * (16 * y) + (16 * z + d)
  {
  }

  lemma {:induction false} HexValueBound(s: string)
    requires IsHex(s)
    ensures HexValue(s) < Pow16(|s|)
  {
    if s != [] {
      HexValueBound(s[..|s| - 1]);
    }
  }

  lemma {:induction false} Pow16Monotone(i: nat, j: nat)
    requires i <= j
    ensures Pow16(i) <= Pow16(j)
  {
    if i < j {
      Pow16Monotone(i, j - 1);
    }
  }

  lemma {:induction false} ZerosValue(k: nat)
    ensures HexValue(Zeros(k)) == 0
  {
    if k > 0 {
      assert Zeros(k)[..k - 1] == Zeros(k - 1);
      ZerosValue(k - 1);
    }
  }

  /**
   * The header packetWrite puts before a payload of total length n: FormatHex
   * of n, left-padded with '0' while its width is not a multiple of four.
   */
  function Header(n: nat): (h: string)
    requires n >= 1
    ensures |h| >= 4 && |h| % 4 == 0 && IsHex(h) && HexValue(h) == n
    ensures Pow16(|h| - 4) <= n < Pow16(|h|)
  {
    var s := FormatHex(n);
    var m := |s| % 4;
    var h := if m != 0 then Zeros(4 - m) + s else s;
    HeaderFacts(s, h, m);
    Pow16Monotone(|h| - 4, |s| - 1);
    Pow16Monotone(|s|, |h|);
    h
  }

  lemma HeaderFacts(s: string, h: string, m: nat)
    requires 1 <= |s| && IsHex(s) && m == |s| % 4
    requires h == if m != 0 then Zeros(4 - m) + s else s
    ensures |h| >= 4 && |h| % 4 == 0 && IsHex(h) && HexValue(h) == HexValue(s)
    ensures |h| - 4 <= |s| - 1 && |s| <= |h|
  {
    if m != 0 {
      PadWidth(|s|);
      HexValueAppend(Zeros(4 - m), s);
      ZerosValue(4 - m);
    }
  }

  lemma PadWidth(k: nat)
    requires k % 4 != 0
    ensures (k + 4 - k % 4) % 4 == 0 && k + 4 - k % 4 >= 4
  {
    var q, m := k / 4, k % 4;
    assert k == 4 * q + m;
    assert k + 4 - m == 4 * (q + 1);
  }

  /** Returns bytes of a git packet containing str (packetWrite). */
  function PacketWrite(str: string): (r: string)
    // the payload follows the header unchanged
    ensures |str| + 4 <= |r| && r[|r| - |str|..] == str
    // the header is hex for the packet's whole length, in whole groups of four digits
    ensures var h := r[..|r| - |str|];
      |h| % 4 == 0 && IsHex(h) && HexValue(h) == |str| + 4
    // and it uses the fewest groups that hold that length
    ensures Pow16(|r| - |str| - 4) <= |str| + 4 < Pow16(|r| - |str|)
  {
    var h := Header(|str| + 4);
    assert (h + str)[..|h|] == h;
    assert (h + str)[|h|..] == str;
    h + str
  }

  function PacketFlush(): (r: string)
    ensures |r| == 4 && IsHex(r) && HexValue(r) == 0
  {
    assert Zeros(4) == "0000";
    ZerosValue(4);
    "0000"
  }

  /** A frame read from the wire. */
  datatype Frame = Flush | Data(payload: string)

  /**
   * Reads one frame with a four-digit header: "0000" is a flush packet, a
   * length below 4 or beyond the input is malformed.
   */
  function ParseFrame(b: string): (r: Option<(Frame, string)>)
    ensures r.Some? ==> |r.value.1| <= |b| - 4 && b[|b| - |r.value.1|..] == r.value.1
    ensures r.Some? && r.value.0.Data? ==>
      b[4..|b| - |r.value.1|] == r.value.0.payload && IsHex(b[..4]) && HexValue(b[..4]) == |r.value.0.payload| + 4
  {
    if |b| < 4 || !IsHex(b[..4]) then None
    else
      var n := HexValue(b[..4]);
      if n == 0 then Some((Flush, b[4..]))
      else if n < 4 || |b| < n then None
      else Some((Data(b[4..n]), b[n..]))
  }

  /** Reads frames until the input is used up; None if any frame is malformed. */
  function ParseFrames(b: string): Option<seq<Frame>>
    decreases |b|
  {
    if b == [] then Some([])
    else match ParseFrame(b)
      case None => None
      case Some((f, rest)) =>
        match ParseFrames(rest)
        case None => None
        case Some(fs) => Some([f] + fs)
  }

  /** A packet whose length fits four digits reads back as its payload. */
  lemma PacketWriteRoundTrip(str: string, rest: string)
    requires |str| + 4 < 0x1_0000
    ensures ParseFrame(PacketWrite(str) + rest) == Some((Data(str), rest))
  {
    var r := PacketWrite(str);
    PacketWriteHeaderWidth(str);
    var n := |str| + 4;
    var b := r + rest;
    assert b[..4] == r[..|r| - |str|];
    assert b[4..n] == str;
    assert b[n..] == rest;
  }

  /** The flush packet reads back as a flush frame. */
  lemma PacketFlushRoundTrip(rest: string)
    ensures ParseFrame(PacketFlush() + rest) == Some((Flush, rest))
  {
    var b := PacketFlush() + rest;
    assert b[..4] == PacketFlush();
    assert b[4..] == rest;
  }

  lemma Pow16Four()
    ensures Pow16(4) == 0x1_0000
  {
    assert Pow16(2) == 0x100;
  }

  lemma FlushFrames()
    ensures ParseFrames(PacketFlush()) == Some([Flush])
  {
    var flush := PacketFlush();
    PacketFlushRoundTrip("");
    assert flush + "" == flush;
    assert ParseFrame(flush) == Some((Flush, ""));
    assert ParseFrames("") == Some([]);
    assert [Flush] + [] == [Flush];
  }

  /** A data packet followed by a flush reads back as those two frames. */
  lemma PacketThenFlush(str: string)
    requires |str| + 4 < 0x1_0000
    ensures ParseFrames(PacketWrite(str) + PacketFlush()) == Some([Data(str), Flush])
  {
    var flush := PacketFlush();
    PacketWriteRoundTrip(str, flush);
    FlushFrames();
    assert PacketWrite(str) + flush != [];
    assert [Data(str)] + [Flush] == [Data(str), Flush];
  }

  /** The header is exactly four digits precisely when the length fits in four. */
  lemma PacketWriteHeaderWidth(str: string)
    ensures |PacketWrite(str)| - |str| == 4 <==> |str| + 4 < 0x1_0000
  {
    var r := PacketWrite(str);
    assert |r[..|r| - |str|]| == |r| - |str|;
    GroupWidth(|r| - |str|, |str| + 4);
  }

  /** A length needing w digits, w a multiple of four, fits four exactly when w is 4. */
  lemma GroupWidth(w: nat, n: nat)
    requires w >= 4 && w % 4 == 0 && Pow16(w - 4) <= n < Pow16(w)
    ensures w == 4 <==> n < 0x1_0000
  {
    Pow16Four();
    if w >= 8 {
      Pow16Monotone(4, w - 4);
    } else {
      assert w == 4;
    }
  }

  /** No data packet, whatever its length, begins with the flush marker. */
  lemma PacketWriteIsNotFlush(str: string)
    ensures PacketWrite(str)[..4] != PacketFlush()
  {
    var r := PacketWrite(str);
    var h := r[..|r| - |str|];
    assert r[..4] == h[..4];
    LeadingGroupNonZero(h);
  }

  /** A hex string at least Pow16(|h| - 4) in value has a non-zero leading group. */
  lemma LeadingGroupNonZero(h: string)
    requires |h| >= 4 && IsHex(h) && Pow16(|h| - 4) <= HexValue(h)
    ensures h[..4] != PacketFlush()
  {
    var hi, lo := h[..4], h[4..];
    assert h == hi + lo;
    HexValueAppend(hi, lo);
    HexValueBound(lo);
  }
}
