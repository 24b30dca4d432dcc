/** Base64 (section 4 of RFC 4648) as base64.c encodes and decodes it. */
module Base64 {
  import opened Bytes

  const PAD: byte := 0x3D

  /** The alphabet: A-Z, a-z, 0-9, + and /. */
  function Digit(v: byte): byte
    requires v < 64
  {
    if v < 26 then 0x41 + v
    else if v < 52 then 0x61 + (v - 26)
    else if v < 62 then 0x30 + (v - 52)
    else if v == 62 then 0x2B
    else 0x2F
  }

  /** The decoding table by its runs; 64 marks a character outside the alphabet. */
  function Pr2Six(c: byte): byte {
    if 0x41 <= c <= 0x5A then c - 0x41
    else if 0x61 <= c <= 0x7A then c - 0x61 + 26
    else if 0x30 <= c <= 0x39 then c - 0x30 + 52
    else if c == 0x2B then 62
    else if c == 0x2F then 63
    else 64
  }

  /** Alphabet and decoding table are inverse. */
  lemma TablesInverse(c: byte, v: byte)
    ensures v < 64 ==> Pr2Six(Digit(v)) == v
    ensures Pr2Six(c) < 64 ==> Digit(Pr2Six(c)) == c
  {
  }

  // ---- Reference definition ----

  /** Three bytes as four six-bit digits of one 24-bit number. */
  function Quad(a: byte, b: byte, c: byte): (q: seq<byte>)
    ensures |q| == 4 && forall k :: 0 <= k < 4 ==> q[k] < 64
  {
    var hi: int, mid: int, lo: int := a, b, c;
    var n := hi * 0x10000 + mid * 0x100 + lo;
    [n / 0x40000, n / 0x1000 % 64, n / 64 % 64, n % 64]
  }

  /** The six-bit digits of a byte string, the last group completed with zero bits. */
  function Sextets(s: seq<byte>): (d: seq<byte>)
    ensures forall k :: 0 <= k < |d| ==> d[k] < 64
    ensures |d| == |s| / 3 * 4 + (if |s| % 3 == 0 then 0 else |s| % 3 + 1)
  {
    if s == [] then []
    else if |s| == 1 then Quad(s[0], 0, 0)[..2]
    else if |s| == 2 then Quad(s[0], s[1], 0)[..3]
    else Quad(s[0], s[1], s[2]) + Sextets(s[3..])
  }

  function Digits(d: seq<byte>): (t: seq<byte>)
    requires forall k :: 0 <= k < |d| ==> d[k] < 64
    ensures |t| == |d|
  {
    seq(|d|, k requires 0 <= k < |d| => Digit(d[k]))
  }

  function Padding(n: nat): seq<byte> {
    if n % 3 == 0 then [] else if n % 3 == 1 then [PAD, PAD] else [PAD]
  }

  function Encoded(s: seq<byte>): seq<byte> {
    Digits(Sextets(s)) + Padding(|s|)
  }

  /** Test vectors of section 10 of RFC 4648. */
  lemma TestVectors()
    ensures Encoded(Text("f")) == Text("Zg==") && Encoded(Text("fo")) == Text("Zm8=") && Encoded(Text("foo")) == Text("Zm9v")
  {
    VectorBytes();
    VectorTexts();
    hide Text, Encoded;
  }

  lemma VectorTexts()
    ensures Text("f") == [0x66] && Text("fo") == [0x66, 0x6F] && Text("foo") == [0x66, 0x6F, 0x6F]
    ensures Text("Zg==") == [0x5A, 0x67, 0x3D, 0x3D] && Text("Zm8=") == [0x5A, 0x6D, 0x38, 0x3D] && Text("Zm9v") == [0x5A, 0x6D, 0x39, 0x76]
  {
  }

  lemma VectorBytes()
    ensures Encoded([0x66]) == [0x5A, 0x67, 0x3D, 0x3D]
    ensures Encoded([0x66, 0x6F]) == [0x5A, 0x6D, 0x38, 0x3D]
    ensures Encoded([0x66, 0x6F, 0x6F]) == [0x5A, 0x6D, 0x39, 0x76]
  {
    VectorDigits();
    hide Sextets;
  }

  lemma VectorDigits()
    ensures Sextets([0x66]) == [25, 32] && Sextets([0x66, 0x6F]) == [25, 38, 60] && Sextets([0x66, 0x6F, 0x6F]) == [25, 38, 61, 47]
  {
    QuadDigits(0x66, 0, 0);
    QuadDigits(0x66, 0x6F, 0);
    QuadDigits(0x66, 0x6F, 0x6F);
    hide Quad;
    assert [0x66, 0x6F, 0x6F][3..] == [];
  }

  /** The bytes whose bits are the digits'; a single leftover digit is ignored. */
  function Decoded(d: seq<byte>): (s: seq<byte>)
    requires forall k :: 0 <= k < |d| ==> d[k] < 64
    ensures |s| == |d| * 3 / 4
  {
    if |d| < 2 then []
    else if |d| == 2 then [d[0] * 4 + d[1] / 16]
    else if |d| == 3 then [d[0] * 4 + d[1] / 16, d[1] % 16 * 16 + d[2] / 4]
    else [d[0] * 4 + d[1] / 16, d[1] % 16 * 16 + d[2] / 4, d[2] % 4 * 64 + d[3]] + Decoded(d[4..])
  }

  /** The leading characters that belong to the alphabet. */
  function RunLength(coded: seq<byte>): (n: nat)
    ensures n <= |coded| && (forall k :: 0 <= k < n ==> Pr2Six(coded[k]) < 64)
    ensures n < |coded| ==> Pr2Six(coded[n]) == 64
  {
    if coded == [] || Pr2Six(coded[0]) == 64 then 0 else 1 + RunLength(coded[1..])
  }

  function Values(t: seq<byte>): (d: seq<byte>)
    requires forall k :: 0 <= k < |t| ==> Pr2Six(t[k]) < 64
    ensures |d| == |t| && forall k :: 0 <= k < |d| ==> d[k] == Pr2Six(t[k]) < 64
  {
    seq(|t|, k requires 0 <= k < |t| => Pr2Six(t[k]))
  }

  /** What the decoder makes of a text: the bytes of its leading digits. */
  function DecodedText(coded: seq<byte>): seq<byte> {
    Decoded(Values(coded[..RunLength(coded)]))
  }

  lemma QuadDigits(a: byte, b: byte, c: byte)
    ensures Quad(a, b, c) == [a / 4, a % 4 * 16 + b / 16, b % 16 * 4 + c / 64, c % 64]
  {
    var hi: int, mid: int, lo: int := a, b, c;
    SixBits(hi * 0x10000 + mid * 0x100 + lo, hi / 4, hi % 4 * 16 + mid / 16, mid % 16 * 4 + lo / 64, lo % 64);
  }

  lemma SixBits(n: nat, d: nat, e: nat, f: nat, g: nat)
    requires e < 64 && f < 64 && g < 64 && n == ((d * 64 + e) * 64 + f) * 64 + g
    ensures n / 0x40000 == d && n / 0x1000 % 64 == e && n / 64 % 64 == f && n % 64 == g
  {
    assert n / 64 == (d * 64 + e) * 64 + f;
    assert n / 0x1000 == d * 64 + e;
  }

  /** The decoder's arithmetic recovers the three bytes from their four digits. */
  lemma QuadBytes(a: byte, b: byte, c: byte)
    ensures var q := Quad(a, b, c);
            q[0] * 4 + q[1] / 16 == a && q[1] % 16 * 16 + q[2] / 4 == b && q[2] % 4 * 64 + q[3] == c
  {
    QuadDigits(a, b, c);
    hide Quad;
  }

  lemma {:induction false} SextetsDecode(s: seq<byte>)
    ensures Decoded(Sextets(s)) == s
  {
    hide Quad;
    if |s| == 1 {
      QuadBytes(s[0], 0, 0);
    } else if |s| == 2 {
      QuadBytes(s[0], s[1], 0);
    } else if |s| >= 3 {
      QuadBytes(s[0], s[1], s[2]);
      SextetsDecode(s[3..]);
      var q := Quad(s[0], s[1], s[2]);
      assert Sextets(s)[..4] == q && Sextets(s)[4..] == Sextets(s[3..]);
      assert s == [s[0], s[1], s[2]] + s[3..];
    }
  }

  lemma {:induction false} RunOf(t: seq<byte>, rest: seq<byte>)
    requires forall k :: 0 <= k < |t| ==> Pr2Six(t[k]) < 64
    requires rest != [] ==> Pr2Six(rest[0]) == 64
    ensures RunLength(t + rest) == |t|
  {
    if t != [] {
      assert (t + rest)[1..] == t[1..] + rest;
      RunOf(t[1..], rest);
    }
  }

  /** Decoding an encoded byte string gives it back, whatever follows that is not a digit. */
  lemma RoundTrip(s: seq<byte>, rest: seq<byte>)
    requires rest != [] && Pr2Six(rest[0]) == 64
    ensures DecodedText(Encoded(s) + rest) == s
  {
    SextetsDecode(s);
    DigitValues(Sextets(s));
    hide Sextets, Digits, Values, Decoded, Pr2Six;
    var digits, tail := Digits(Sextets(s)), Padding(|s|) + rest;
    assert Encoded(s) + rest == digits + tail;
    TailStops(|s|, rest);
    RunOf(digits, tail);
    assert (digits + tail)[..|digits|] == digits;
  }

  lemma DigitValues(d: seq<byte>)
    requires forall k :: 0 <= k < |d| ==> d[k] < 64
    ensures (forall k :: 0 <= k < |d| ==> Pr2Six(Digits(d)[k]) < 64) && Values(Digits(d)) == d
  {
    forall k | 0 <= k < |d|
      ensures Pr2Six(Digits(d)[k]) == d[k]
    {
      TablesInverse(0, d[k]);
    }
  }

  lemma TailStops(n: nat, rest: seq<byte>)
    requires rest != [] && Pr2Six(rest[0]) == 64
    ensures Pr2Six((Padding(n) + rest)[0]) == 64
  {
  }

  // ---- Lengths ----

  /** The encoder's output size, with the terminating NUL. */
  function EncodeLen(n: nat): nat {
    (n + 2) / 3 * 4 + 1
  }

  lemma EncodedLength(s: seq<byte>)
    ensures |Encoded(s)| + 1 == EncodeLen(|s|)
  {
    var d := Sextets(s);
    hide Sextets;
    ThirdsRoundedUp(|s| / 3, |s| % 3);
  }

  lemma ThirdsRoundedUp(q: nat, r: nat)
    requires r < 3
    ensures (3 * q + r + 2) / 3 == if r == 0 then q else q + 1
  {
  }

  // ---- The encoder ----

  /** The loop body of `owl_base64encode`: three bytes become four characters. */
  method EncodeTriple(encoded: array<byte>, p: nat, a: byte, b: byte, c: byte, ghost limit: nat)
    requires p + 4 <= limit <= encoded.Length
    modifies encoded
    ensures encoded[..p + 4] == old(encoded[..p]) + Digits(Quad(a, b, c))
    ensures encoded[limit..] == old(encoded[limit..])
  {
    QuadDigits(a, b, c);
    hide Quad, Digit;
    encoded[p] := Digit(a / 4 % 64);
    encoded[p + 1] := Digit(a % 4 * 16 + b / 16);
    encoded[p + 2] := Digit(b % 16 * 4 + c / 64);
    encoded[p + 3] := Digit(c % 64);
  }

  /** The part behind the loop: the last one or two bytes become two or three characters and padding. */
  method EncodeTail(encoded: array<byte>, p: nat, s: seq<byte>, ghost limit: nat)
    requires p + 4 <= limit <= encoded.Length && 1 <= |s| <= 2
    modifies encoded
    ensures encoded[..p + 4] == old(encoded[..p]) + Encoded(s)
    ensures encoded[limit..] == old(encoded[limit..])
  {
    hide Quad, Digit;
    encoded[p] := Digit(s[0] / 4 % 64);
    if |s| == 1 {
      QuadDigits(s[0], 0, 0);
      encoded[p + 1] := Digit(s[0] % 4 * 16);
      encoded[p + 2] := PAD;
    } else {
      QuadDigits(s[0], s[1], 0);
      encoded[p + 1] := Digit(s[0] % 4 * 16 + s[1] / 16);
      encoded[p + 2] := Digit(s[1] % 16 * 4);
    }
    encoded[p + 3] := PAD;
  }

  lemma FirstTriple(s: seq<byte>)
    requires |s| >= 3
    ensures Encoded(s) == Digits(Quad(s[0], s[1], s[2])) + Encoded(s[3..])
  {
    hide Quad, Digit;
    assert Digits(Sextets(s)) == Digits(Quad(s[0], s[1], s[2])) + Digits(Sextets(s[3..]));
  }

  /** `owl_base64encode` into `encoded[at..]`. */
  method Encode(encoded: array<byte>, at: nat, s: seq<byte>) returns (n: nat)
    requires at + EncodeLen(|s|) <= encoded.Length
    modifies encoded
    ensures n == EncodeLen(|s|)
    ensures encoded[at..at + n] == Encoded(s) + [0]
    ensures encoded[..at] == old(encoded[..at]) && encoded[at + n..] == old(encoded[at + n..])
  {
    hide Encoded, Digits, Quad;
    EncodedLength(s);
    ghost var before, limit := encoded[..at], at + EncodeLen(|s|);
    var p := EncodeText(encoded, at, s, limit);
    encoded[p] := 0;
    assert encoded[..p] == before + Encoded(s);
    p := p + 1;
    return p - at;
  }

  method EncodeText(encoded: array<byte>, at: nat, s: seq<byte>, ghost limit: nat) returns (p: nat)
    requires at + |Encoded(s)| <= limit <= encoded.Length
    modifies encoded
    ensures p == at + |Encoded(s)| && encoded[..p] == old(encoded[..at]) + Encoded(s)
    ensures encoded[limit..] == old(encoded[limit..])
  {
    hide Encoded, Digits, Quad, EncodeLen;
    var i := 0;
    p := at;
    ghost var done: seq<byte> := [];
    assert s[0..] == s;
    while i < |s| - 2
      invariant 0 <= i <= |s| && done + Encoded(s[i..]) == Encoded(s)
      invariant p == at + |done| && p + |Encoded(s[i..])| == at + |Encoded(s)|
      invariant encoded[limit..] == old(encoded[limit..])
      invariant encoded[..p] == old(encoded[..at]) + done
    {
      FirstTriple(s[i..]);
      assert s[i..][3..] == s[i + 3..];
      ghost var four := Digits(Quad(s[i], s[i + 1], s[i + 2]));
      EncodeTriple(encoded, p, s[i], s[i + 1], s[i + 2], limit);
      assert done + (four + Encoded(s[i + 3..])) == (done + four) + Encoded(s[i + 3..]);
      done := done + four;
      p, i := p + 4, i + 3;
    }
    if i < |s| {
      EncodedLength(s[i..]);
      TailLength(s[i..]);
      EncodeTail(encoded, p, s[i..], limit);
      p := p + 4;
    } else {
      assert s[i..] == [];
      EmptyEncoded();
    }
  }

  lemma EmptyEncoded()
    ensures Encoded([]) == []
  {
  }

  lemma TailLength(s: seq<byte>)
    requires 1 <= |s| <= 2
    ensures |Encoded(s)| == 4
  {
  }

  // ---- The decoder ----

  method CountDigits(coded: seq<byte>) returns (n: nat)
    requires RunLength(coded) < |coded|
    ensures n == RunLength(coded)
  {
    var i := 0;
    assert coded[0..] == coded;
    while Pr2Six(coded[i]) <= 63
      invariant 0 <= i <= RunLength(coded) && RunLength(coded) == i + RunLength(coded[i..])
      decreases |coded| - i
    {
      assert coded[i..][1..] == coded[i + 1..];
      i := i + 1;
    }
    n := i;
  }

  method DecodeLen(coded: seq<byte>) returns (n: nat)
    requires RunLength(coded) < |coded|
    ensures |DecodedText(coded)| <= n <= |DecodedText(coded)| + 3
    ensures n == (RunLength(coded) + 3) / 4 * 3
  {
    var run := CountDigits(coded);
    n := (run + 3) / 4 * 3;
  }

  /** What the digits from `i` to `j` decode to. */
  function Part(coded: seq<byte>, i: nat, j: nat): (s: seq<byte>)
    requires i <= j <= RunLength(coded)
    ensures |s| == (j - i) * 3 / 4
  {
    Decoded(Values(coded[i..j]))
  }

  /** Two neighbouring digits shifted into one byte, the upper bits cut off. */
  function Shifted(x: nat, y: nat, up: nat, down: nat): byte
    requires down > 0
  {
    (x * up + y / down) % 256
  }

  /** One group of the decoder: three bytes from four digits, or what a shorter last group gives. */
  method DecodeGroup(plain: array<byte>, out: nat, coded: seq<byte>, i: nat, n: nat, ghost limit: nat)
    requires 2 <= n <= 4 && i + n <= RunLength(coded) && out + n - 1 <= limit <= plain.Length
    modifies plain
    ensures plain[..out + n - 1] == old(plain[..out]) + Part(coded, i, i + n)
    ensures plain[limit..] == old(plain[limit..])
  {
    GroupBytes(coded, i, n);
    hide Pr2Six, Part, RunLength, Shifted;
    plain[out] := Shifted(Pr2Six(coded[i]), Pr2Six(coded[i + 1]), 4, 16);
    if n > 2 {
      plain[out + 1] := Shifted(Pr2Six(coded[i + 1]), Pr2Six(coded[i + 2]), 16, 4);
    }
    if n > 3 {
      plain[out + 2] := Shifted(Pr2Six(coded[i + 2]), Pr2Six(coded[i + 3]), 64, 1);
    }
  }

  lemma GroupBytes(coded: seq<byte>, i: nat, n: nat)
    requires 2 <= n <= 4 && i + n <= RunLength(coded)
    ensures var p := Part(coded, i, i + n);
            && p[0] == Shifted(Pr2Six(coded[i]), Pr2Six(coded[i + 1]), 4, 16)
            && (n > 2 ==> p[1] == Shifted(Pr2Six(coded[i + 1]), Pr2Six(coded[i + 2]), 16, 4))
            && (n > 3 ==> p[2] == Shifted(Pr2Six(coded[i + 2]), Pr2Six(coded[i + 3]), 64, 1))
  {
    hide Pr2Six, Decoded, Shifted;
    var d := Values(coded[i..i + n]);
    assert d[0] == Pr2Six(coded[i]) && d[1] == Pr2Six(coded[i + 1]);
    assert n > 2 ==> d[2] == Pr2Six(coded[i + 2]);
    assert n > 3 ==> d[3] == Pr2Six(coded[i + 3]);
    ShortGroup(d);
  }

  lemma ShortGroup(d: seq<byte>)
    requires 2 <= |d| <= 4 && forall k :: 0 <= k < |d| ==> d[k] < 64
    ensures var p := Decoded(d);
            && p[0] == Shifted(d[0], d[1], 4, 16)
            && (|d| > 2 ==> p[1] == Shifted(d[1], d[2], 16, 4))
            && (|d| > 3 ==> p[2] == Shifted(d[2], d[3], 64, 1))
  {
    Truncated(d[0], d[1]);
    if |d| > 2 {
      Truncated(d[1], d[2]);
    }
    if |d| > 3 {
      Truncated(d[2], d[3]);
      assert d[4..] == [];
    }
    hide Shifted;
  }

  lemma Truncated(x: nat, y: nat)
    requires x < 64 && y < 64
    ensures Shifted(x, y, 4, 16) == x * 4 + y / 16
    ensures Shifted(x, y, 16, 4) == x % 16 * 16 + y / 4
    ensures Shifted(x, y, 64, 1) == x % 4 * 64 + y
  {
    LowByte(x * 4 + y / 16, 0, x * 4 + y / 16);
    LowByte(x * 16 + y / 4, x / 16, x % 16 * 16 + y / 4);
    LowByte(x * 64 + y, x / 4, x % 4 * 64 + y);
  }

  lemma LowByte(n: nat, q: nat, r: nat)
    requires n == q * 256 + r && r < 256
    ensures n % 256 == r
  {
  }

  lemma FirstGroup(coded: seq<byte>, i: nat, run: nat)
    requires i + 4 <= run == RunLength(coded)
    ensures Part(coded, i, run) == Part(coded, i, i + 4) + Part(coded, i + 4, run)
  {
    hide Pr2Six;
    var d, first := Values(coded[i..run]), Values(coded[i..i + 4]);
    assert first == d[..4] && first[4..] == [];
    assert Values(coded[i + 4..run]) == d[4..];
  }

  /** The length the decoder reports is the number of bytes it writes. */
  lemma ReportedLength(q: nat, n: nat)
    requires n <= 4
    ensures (4 * q + n + 3) / 4 * 3 - (4 - n) % 4 == (4 * q + n) * 3 / 4
  {
    if n == 0 {
    } else if n == 1 {
    } else if n == 2 {
    } else if n == 3 {
    } else {
    }
  }

  lemma WholePart(coded: seq<byte>)
    ensures Part(coded, 0, RunLength(coded)) == DecodedText(coded)
  {
    assert coded[0..RunLength(coded)] == coded[..RunLength(coded)];
  }

  /** `owl_base64decode`: the text ends at the first character outside the alphabet. */
  method Decode(plain: array<byte>, coded: seq<byte>) returns (n: nat)
    requires RunLength(coded) < |coded| && |DecodedText(coded)| <= plain.Length
    modifies plain
    ensures n == |DecodedText(coded)| && plain[..n] == DecodedText(coded)
    ensures plain[n..] == old(plain[n..])
  {
    hide Pr2Six, Part, Decoded, Values, RunLength, DecodedText;
    var run := CountDigits(coded);
    ghost var all := DecodedText(coded);
    WholePart(coded);
    var nbytes := (run + 3) / 4 * 3;
    var out, i := 0, 0;
    var nprbytes := run;
    ghost var q := 0;
    while nprbytes > 4
      invariant i == 4 * q && out == 3 * q && nprbytes + i == run && (run > 0 ==> nprbytes > 0)
      invariant out <= |all|
      invariant plain[..out] + Part(coded, i, run) == all
      invariant plain[|all|..] == old(plain[|all|..])
    {
      FirstGroup(coded, i, run);
      ghost var done := plain[..out];
      DecodeGroup(plain, out, coded, i, 4, |all|);
      assert plain[..out + 3] + Part(coded, i + 4, run) == done + (Part(coded, i, i + 4) + Part(coded, i + 4, run));
      out, i, nprbytes := out + 3, i + 4, nprbytes - 4;
      q := q + 1;
    }
    if nprbytes > 1 {
      DecodeGroup(plain, out, coded, i, nprbytes, |all|);
    }
    nbytes := nbytes - (4 - nprbytes) % 4;
    ReportedLength(q, nprbytes);
    return nbytes;
  }
}
