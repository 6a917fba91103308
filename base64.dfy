/**
 * Base64 with the URL-safe alphabet of RFC 4648 section 5, in the two forms
 * Go's `encoding/base64` offers and the core uses:
 *   - `RawURLEncoding` (padding omitted, RFC 4648 section 3.2) for token segments;
 *   - `URLEncoding` (padded with `=`) for notices carried in query parameters.
 * Decoding follows Go's non-strict decoder: carriage returns and line feeds are
 * skipped wherever they occur, and the unused low bits of a final partial
 * quantum are ignored rather than required to be zero.
 * Bit operations on bytes are written as division and remainder by powers of two.
 */
module Base64 {
  import opened Wrappers

  type byte = b: int | 0 <= b < 256

  /** A 6-bit value, the amount of data one alphabet character carries. */
  type sextet = v: int | 0 <= v < 64

  /** The character of the URL-safe alphabet for a 6-bit value. */
  function CharOf(v: sextet): char {
    if v < 26 then ('A' as int + v) as char
    else if v < 52 then ('a' as int + (v - 26)) as char
    else if v < 62 then ('0' as int + (v - 52)) as char
    else if v == 62 then '-'
    else '_'
  }

  predicate InAlphabet(c: char) {
    ('A' <= c <= 'Z') || ('a' <= c <= 'z') || ('0' <= c <= '9') || c == '-' || c == '_'
  }

  predicate AllInAlphabet(s: string) {
    forall i | 0 <= i < |s| :: InAlphabet(s[i])
  }

  /** The 6-bit value of an alphabet character; `CharOf` undoes it. */
  function ValueOf(c: char): (v: sextet)
    requires InAlphabet(c)
    ensures CharOf(v) == c
  {
    if 'A' <= c <= 'Z' then c as int - 'A' as int
    else if 'a' <= c <= 'z' then c as int - 'a' as int + 26
    else if '0' <= c <= '9' then c as int - '0' as int + 52
    else if c == '-' then 62
    else 63
  }

  lemma CharOfInAlphabet(v: sextet)
    ensures InAlphabet(CharOf(v)) && ValueOf(CharOf(v)) == v
  {
  }

  // ---------------------------------------------------------------- encoding

  /** One to three bytes as two to four characters (a final quantum has no padding). */
  function EncodeQuantum(b: seq<byte>): (s: string)
    requires 1 <= |b| <= 3
    ensures |s| == |b| + 1 && AllInAlphabet(s)
  {
    var b1 := if |b| >= 2 then b[1] else 0;
    var b2 := if |b| == 3 then b[2] else 0;
    CharOfInAlphabet(b[0] / 4);
    CharOfInAlphabet((b[0] % 4) * 16 + b1 / 16);
    CharOfInAlphabet((b1 % 16) * 4 + b2 / 64);
    CharOfInAlphabet(b2 % 64);
    var all := [CharOf(b[0] / 4), CharOf((b[0] % 4) * 16 + b1 / 16), CharOf((b1 % 16) * 4 + b2 / 64), CharOf(b2 % 64)];
    all[..|b| + 1]
  }

  /** `RawURLEncoding.EncodeToString`: every 3 bytes become 4 characters, no padding. */
  function EncodeRaw(b: seq<byte>): (s: string)
    ensures |s| == (4 * |b| + 2) / 3
    ensures AllInAlphabet(s)
    decreases |b|
  {
    if |b| == 0 then ""
    else if |b| <= 3 then EncodeQuantum(b)
    else
      var head, tail := EncodeQuantum(b[..3]), EncodeRaw(b[3..]);
      EncodedLengthStep(|b|);
      assert forall i | 0 <= i < |head + tail| :: (head + tail)[i] == if i < 4 then head[i] else tail[i - 4];
      head + tail
  }

  /** The `=` characters `URLEncoding` appends to reach a multiple of four. */
  function Padding(n: nat): string {
    if n % 3 == 1 then "==" else if n % 3 == 2 then "=" else ""
  }

  /** `URLEncoding.EncodeToString`: the raw form padded with `=` to a multiple of four. */
  function EncodePadded(b: seq<byte>): (s: string)
    ensures |s| == 4 * ((|b| + 2) / 3)
    ensures |s| % 4 == 0
  {
    var raw := EncodeRaw(b);
    EncodedLengthFacts(|b|, |raw|);
    raw + Padding(|b|)
  }

  /**
   * The length arithmetic of the two encodings: the unpadded length is never 1
   * modulo 4, is a multiple of 4 exactly when the input is a multiple of 3
   * bytes, and with the padding makes four characters per started quantum.
   */
  lemma EncodedLengthFacts(n: nat, len: nat)
    requires len == (4 * n + 2) / 3
    ensures len % 4 != 1
    ensures n % 3 != 0 <==> len % 4 != 0
    ensures len + |Padding(n)| == 4 * ((n + 2) / 3)
    ensures (len + |Padding(n)|) % 4 == 0
  {
    var q, r := n / 3, n % 3;
    DivMod3(n, q, r);
    if r == 0 {
      DivMod3(4 * n + 2, 4 * q, 2);
      DivMod3(n + 2, q, 2);
      DivMod4(len, q, 0);
    } else if r == 1 {
      DivMod3(4 * n + 2, 4 * q + 2, 0);
      DivMod3(n + 2, q + 1, 0);
      DivMod4(len, q, 2);
      DivMod4(len + 2, q + 1, 0);
    } else {
      DivMod3(4 * n + 2, 4 * q + 3, 1);
      DivMod3(n + 2, q + 1, 1);
      DivMod4(len, q, 3);
      DivMod4(len + 1, q + 1, 0);
    }
  }

  /** Division by three, stated by its quotient and remainder. */
  lemma DivMod3(x: int, q: int, r: int)
    requires 0 <= r < 3 && x == 3 * q + r
    ensures x / 3 == q && x % 3 == r
  {
  }

  /** Division by four, stated by its quotient and remainder. */
  lemma DivMod4(x: int, q: int, r: int)
    requires 0 <= r < 4 && x == 4 * q + r
    ensures x / 4 == q && x % 4 == r
  {
  }

  // ---------------------------------------------------------------- decoding

  /** The input with every carriage return and line feed removed (Go's decoder skips them). */
  function StripNewlines(s: string): (t: string)
    ensures |t| <= |s|
    ensures forall i | 0 <= i < |t| :: t[i] != '\n' && t[i] != '\r'
  {
    if s == [] then ""
    else if s[0] == '\n' || s[0] == '\r' then StripNewlines(s[1..])
    else [s[0]] + StripNewlines(s[1..])
  }

  /** Two to four alphabet characters as one to three bytes; the unused low bits are dropped. */
  function DecodeQuantum(t: string): (b: seq<byte>)
    requires 2 <= |t| <= 4 && AllInAlphabet(t)
    ensures |b| == |t| - 1
  {
    var v0, v1 := ValueOf(t[0]), ValueOf(t[1]);
    var v2: sextet := if |t| >= 3 then ValueOf(t[2]) else 0;
    var v3: sextet := if |t| == 4 then ValueOf(t[3]) else 0;
    var all: seq<byte> := [v0 * 4 + v1 / 16, (v1 % 16) * 16 + v2 / 4, (v2 % 4) * 64 + v3];
    all[..|t| - 1]
  }

  /** Decodes a run of alphabet characters whose length is not 1 modulo 4. */
  function DecodeChars(t: string): (b: seq<byte>)
    requires AllInAlphabet(t) && |t| % 4 != 1
    ensures |b| == |t| * 3 / 4
    decreases |t|
  {
    if |t| == 0 then []
    else if |t| <= 4 then DecodeQuantum(t)
    else
      QuantumSplit(t);
      DecodeQuantum(t[..4]) + DecodeChars(t[4..])
  }

  /** The first quantum and the rest of a longer run of alphabet characters are themselves decodable. */
  lemma QuantumSplit(t: string)
    requires AllInAlphabet(t) && |t| % 4 != 1 && |t| > 4
    ensures AllInAlphabet(t[..4]) && AllInAlphabet(t[4..]) && |t[4..]| % 4 != 1
    ensures |t| * 3 / 4 == 3 + |t[4..]| * 3 / 4
  {
    var n := |t[4..]|;
    assert |t| == n + 4;
    assert |t| * 3 == 12 + n * 3;
    forall i | 0 <= i < n ensures InAlphabet(t[4..][i]) {
      assert t[4..][i] == t[i + 4];
    }
  }

  lemma EncodedLengthStep(n: nat)
    requires n > 3
    ensures (4 * n + 2) / 3 == 4 + (4 * (n - 3) + 2) / 3
  {
    assert 4 * n + 2 == 12 + (4 * (n - 3) + 2);
  }

  /** `RawURLEncoding.DecodeString`: `None` stands for Go's `CorruptInputError`. */
  function DecodeRaw(s: string): Option<seq<byte>> {
    var t := StripNewlines(s);
    if AllInAlphabet(t) && |t| % 4 != 1 then Some(DecodeChars(t)) else None
  }

  /** The data characters of a padded text: up to two trailing `=` removed. */
  function Unpad(t: string): string {
    if |t| >= 2 && t[|t| - 2] == '=' && t[|t| - 1] == '=' then t[..|t| - 2]
    else if |t| >= 1 && t[|t| - 1] == '=' then t[..|t| - 1]
    else t
  }

  /**
   * `URLEncoding.DecodeString`: the text must come in whole quanta of four, the
   * last one possibly ending in `=` or `==`, and nothing may follow the padding.
   */
  function DecodePadded(s: string): Option<seq<byte>> {
    var t := StripNewlines(s);
    if |t| % 4 != 0 then None
    else
      var d := Unpad(t);
      if AllInAlphabet(d) && |d| % 4 != 1 then Some(DecodeChars(d)) else None
  }

  // ---------------------------------------------------------------- laws

  /** Cutting three bytes into 6-bit values and regrouping them gives the bytes back. */
  lemma RegroupCut(b0: byte, b1: byte, b2: byte)
    ensures var v0, v1, v2, v3 := b0 / 4, (b0 % 4) * 16 + b1 / 16, (b1 % 16) * 4 + b2 / 64, b2 % 64;
      v0 * 4 + v1 / 16 == b0 && (v1 % 16) * 16 + v2 / 4 == b1 && (v2 % 4) * 64 + v3 == b2
  {
  }

  /** The second and third bytes of a quantum, zero where the quantum is shorter. */
  function Second(b: seq<byte>): byte {
    if |b| >= 2 then b[1] else 0
  }

  function Third(b: seq<byte>): byte {
    if |b| >= 3 then b[2] else 0
  }

  /** The characters of an encoded quantum carry the 6-bit groups of its bytes. */
  lemma EncodeQuantumValues(b: seq<byte>)
    requires 1 <= |b| <= 3
    ensures var s := EncodeQuantum(b);
      && ValueOf(s[0]) == b[0] / 4
      && ValueOf(s[1]) == (b[0] % 4) * 16 + Second(b) / 16
      && (|b| >= 2 ==> ValueOf(s[2]) == (Second(b) % 16) * 4 + Third(b) / 64)
      && (|b| == 3 ==> ValueOf(s[3]) == Third(b) % 64)
  {
    CharOfInAlphabet(b[0] / 4);
    CharOfInAlphabet((b[0] % 4) * 16 + Second(b) / 16);
    CharOfInAlphabet((Second(b) % 16) * 4 + Third(b) / 64);
    CharOfInAlphabet(Third(b) % 64);
  }

  lemma QuantumRoundTrip(b: seq<byte>)
    requires 1 <= |b| <= 3
    ensures DecodeQuantum(EncodeQuantum(b)) == b
  {
    var s := EncodeQuantum(b);
    EncodeQuantumValues(b);
    RegroupCut(b[0], Second(b), Third(b));
    var d := DecodeQuantum(s);
    forall i | 0 <= i < |b| ensures d[i] == b[i] {
    }
  }

  lemma {:induction false} StripNewlinesNone(s: string)
    requires forall i | 0 <= i < |s| :: s[i] != '\n' && s[i] != '\r'
    ensures StripNewlines(s) == s
  {
    if s != [] {
      StripNewlinesNone(s[1..]);
      assert [s[0]] + s[1..] == s;
    }
  }

  lemma StripNewlinesAlphabet(s: string)
    requires AllInAlphabet(s)
    ensures StripNewlines(s) == s
  {
    StripNewlinesNone(s);
  }

  lemma DecodeCharsSplit(s: string)
    requires AllInAlphabet(s) && |s| > 4 && |s[4..]| % 4 != 1
    ensures |s| % 4 != 1
    ensures AllInAlphabet(s[..4]) && AllInAlphabet(s[4..])
    ensures DecodeChars(s) == DecodeQuantum(s[..4]) + DecodeChars(s[4..])
  {
    var n := |s[4..]|;
    assert |s| == n + 4;
    assert forall i | 0 <= i < |s| - 4 :: s[4..][i] == s[i + 4];
  }

  lemma EncodeRawSplit(b: seq<byte>)
    requires |b| > 3
    ensures EncodeRaw(b)[..4] == EncodeQuantum(b[..3]) && EncodeRaw(b)[4..] == EncodeRaw(b[3..])
  {
  }

  lemma {:induction false} DecodeCharsEncodeRaw(b: seq<byte>)
    ensures |EncodeRaw(b)| % 4 != 1
    ensures DecodeChars(EncodeRaw(b)) == b
    decreases |b|
  {
    if |b| == 0 {
    } else if |b| <= 3 {
      QuantumRoundTrip(b);
    } else {
      var s := EncodeRaw(b);
      DecodeCharsEncodeRaw(b[3..]);
      EncodedLengthStep(|b|);
      EncodeRawSplit(b);
      DecodeCharsSplit(s);
      QuantumRoundTrip(b[..3]);
      assert b[..3] + b[3..] == b;
    }
  }

  /** Decoding undoes unpadded encoding. */
  lemma RawRoundTrip(b: seq<byte>)
    ensures DecodeRaw(EncodeRaw(b)) == Some(b)
  {
    StripNewlinesAlphabet(EncodeRaw(b));
    DecodeCharsEncodeRaw(b);
  }

  /** Decoding undoes padded encoding. */
  lemma PaddedRoundTrip(b: seq<byte>)
    ensures DecodePadded(EncodePadded(b)) == Some(b)
  {
    var raw := EncodeRaw(b);
    var s := EncodePadded(b);
    DecodeCharsEncodeRaw(b);
    forall i | 0 <= i < |s| ensures s[i] != '\n' && s[i] != '\r' {
      if i < |raw| { assert s[i] == raw[i] && InAlphabet(raw[i]); } else { assert s[i] == '='; }
    }
    StripNewlinesNone(s);
    UnpadAfter(raw, |b|);
    DecodePaddedClean(s, raw);
  }

  /** Removing the padding from alphabet text followed by its padding leaves the text. */
  lemma UnpadAfter(raw: string, n: nat)
    requires AllInAlphabet(raw)
    ensures Unpad(raw + Padding(n)) == raw
  {
    var t := raw + Padding(n);
    if raw != [] {
      assert InAlphabet(raw[|raw| - 1]);
    }
    if n % 3 == 0 {
      assert t == raw;
    } else if n % 3 == 2 {
      assert t == raw + ['='];
      assert t[..|t| - 1] == raw;
      if |t| >= 2 {
        assert t[|t| - 2] == raw[|raw| - 1];
      }
    } else {
      assert t == raw + ['=', '='];
      assert t[..|t| - 2] == raw;
    }
  }

  /** A padded text free of line breaks, whose data characters are `raw`, decodes as `raw`'s quanta. */
  lemma DecodePaddedClean(s: string, raw: string)
    requires StripNewlines(s) == s && |s| % 4 == 0 && Unpad(s) == raw
    requires AllInAlphabet(raw) && |raw| % 4 != 1
    ensures DecodePadded(s) == Some(DecodeChars(raw))
  {
  }

  /** Encoded text never holds a `.`, so it can be a segment of a dotted token. */
  lemma NoDotInEncoding(b: seq<byte>)
    ensures '.' !in EncodeRaw(b)
  {
  }

  /** Unpadded encoded length never exceeds `limit` exactly when the input is short enough. */
  lemma EncodedLengthBound(b: seq<byte>, limit: nat)
    ensures |EncodeRaw(b)| <= limit <==> 4 * |b| + 2 < 3 * limit + 3
  {
  }

  /** The text `s` with its last character replaced by the one whose value differs in the lowest bit. */
  function FlipLastBit(s: string): (s': string)
    requires s != [] && InAlphabet(s[|s| - 1])
    ensures |s'| == |s| && s'[..|s| - 1] == s[..|s| - 1] && s'[|s| - 1] != s[|s| - 1]
    ensures InAlphabet(s'[|s| - 1]) && ValueOf(s'[|s| - 1]) / 2 == ValueOf(s[|s| - 1]) / 2
  {
    var v: sextet := ValueOf(s[|s| - 1]);
    var w: sextet := if v % 2 == 0 then v + 1 else v - 1;
    CharOfInAlphabet(w);
    s[..|s| - 1] + [CharOf(w)]
  }

  /**
   * The decoder ignores the unused low bits of a final partial quantum: when the
   * input length is not a multiple of three, a second text, differing from the
   * encoding in its last character (see `FlipLastBit`), decodes to the same bytes.
   */
  lemma TrailingBitsIgnored(b: seq<byte>)
    requires |b| % 3 != 0
    ensures EncodeRaw(b) != [] && InAlphabet(EncodeRaw(b)[|EncodeRaw(b)| - 1])
    ensures DecodeRaw(FlipLastBit(EncodeRaw(b))) == Some(b)
  {
    var s := EncodeRaw(b);
    EncodedLengthFacts(|b|, |s|);
    DecodeCharsEncodeRaw(b);
    assert InAlphabet(s[|s| - 1]);
    var s' := FlipLastBit(s);
    FlipLastBitAlphabet(s);
    DecodeCharsLastChar(s, s');
    DecodeRawClean(s');
  }

  lemma FlipLastBitAlphabet(s: string)
    requires s != [] && AllInAlphabet(s)
    ensures AllInAlphabet(FlipLastBit(s))
  {
    var s' := FlipLastBit(s);
    forall i | 0 <= i < |s'| ensures InAlphabet(s'[i]) {
      if i < |s| - 1 {
        assert s'[i] == s'[..|s| - 1][i] == s[..|s| - 1][i];
      }
    }
  }

  /** Text free of line breaks and padding decodes as its quanta. */
  lemma DecodeRawClean(s: string)
    requires AllInAlphabet(s) && |s| % 4 != 1
    ensures DecodeRaw(s) == Some(DecodeChars(s))
  {
    StripNewlinesAlphabet(s);
  }

  /** Values that agree above their lowest bit agree above any lower bit count too. */
  lemma HighBitsAgree(a: sextet, b: sextet)
    requires a / 2 == b / 2
    ensures a / 4 == b / 4 && a / 16 == b / 16
  {
  }

  lemma LastQuantumLowBit(t: string, t': string)
    requires 2 <= |t| <= 3 && |t'| == |t| && AllInAlphabet(t) && AllInAlphabet(t')
    requires t[..|t| - 1] == t'[..|t| - 1]
    requires ValueOf(t'[|t| - 1]) / 2 == ValueOf(t[|t| - 1]) / 2
    ensures DecodeQuantum(t) == DecodeQuantum(t')
  {
    assert t[0] == t[..|t| - 1][0] == t'[0];
    if |t| == 3 { assert t[1] == t[..|t| - 1][1] == t'[1]; }
    HighBitsAgree(ValueOf(t'[|t| - 1]), ValueOf(t[|t| - 1]));
  }

  /** Two texts that differ only in the lowest bit of their last character decode alike. */
  lemma {:induction false} DecodeCharsLastChar(s: string, s': string)
    requires AllInAlphabet(s) && AllInAlphabet(s') && |s| == |s'| && |s| % 4 != 1
    requires |s| % 4 != 0 && s[..|s| - 1] == s'[..|s| - 1]
    requires ValueOf(s'[|s| - 1]) / 2 == ValueOf(s[|s| - 1]) / 2
    ensures DecodeChars(s) == DecodeChars(s')
    decreases |s|
  {
    if |s| > 4 {
      forall i | 0 <= i < |s| - 1 ensures s[i] == s'[i] {
        assert s[i] == s[..|s| - 1][i];
        assert s'[i] == s'[..|s| - 1][i];
      }
      assert s[..4] == s'[..4];
      assert s[4..][..|s| - 5] == s'[4..][..|s| - 5];
      DecodeCharsLastChar(s[4..], s'[4..]);
    } else {
      LastQuantumLowBit(s, s');
    }
  }

  lemma {:induction false} StripNewlinesAppend(a: string, b: string)
    ensures StripNewlines(a + b) == StripNewlines(a) + StripNewlines(b)
  {
    if a != [] {
      assert (a + b)[1..] == a[1..] + b;
      StripNewlinesAppend(a[1..], b);
    } else {
      assert a + b == b;
    }
  }

  /** Line breaks anywhere in the text are skipped by the decoder. */
  lemma NewlineIgnored(a: string, b: string)
    ensures DecodeRaw(a + "\n" + b) == DecodeRaw(a + b)
  {
    assert a + "\n" + b == a + ("\n" + b);
    StripNewlinesAppend(a, "\n" + b);
    StripNewlinesAppend(a, b);
    assert ("\n" + b)[1..] == b;
  }
}
