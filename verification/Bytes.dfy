/** Bytes, machine words and the few bit operations the SDK performs on them. */
module Bytes {

  /** `uint8_t`; arithmetic that leaves the range is reduced explicitly where the program truncates. */
  type byte = x: int | 0 <= x < 256

  /** A big-endian `uint16_t`. */
  function Word(hi: byte, lo: byte): (w: nat)
    ensures w < 0x10000
  {
    var high: int := hi;
    high * 256 + lo
  }

  datatype Option<+T> = None | Some(value: T)

  function Pow2(n: nat): (p: nat)
    ensures p > 0
  {
    if n == 0 then 1 else 2 * Pow2(n - 1)
  }

  /** Bitwise or, one binary digit at a time. */
  function Or(a: nat, b: nat): nat
    decreases a + b
  {
    if a == 0 && b == 0 then 0
    else 2 * Or(a / 2, b / 2) + (if a % 2 == 1 || b % 2 == 1 then 1 else 0)
  }

  /** Or-ing two bytes gives a byte: more generally no binary digit is created above the operands' own. */
  lemma {:induction false} OrBelow(a: nat, b: nat, bits: nat)
    requires a < Pow2(bits) && b < Pow2(bits)
    ensures Or(a, b) < Pow2(bits)
    decreases bits
  {
    if bits > 0 {
      OrBelow(a / 2, b / 2, bits - 1);
    }
  }

  lemma OrByte(a: byte, b: byte)
    ensures Or(a, b) < 256
  {
    assert Pow2(8) == 256 by { assert Pow2(4) == 16; }
    OrBelow(a, b, 8);
  }

  function OrBytes(a: byte, b: byte): byte {
    OrByte(a, b);
    Or(a, b)
  }

  lemma {:induction false} OrZero(a: nat)
    ensures Or(a, 0) == a
  {
    if a > 0 {
      OrZero(a / 2);
    }
  }

  /** Where the first operand is a multiple of 2^bits and the second is below 2^bits, or is addition. */
  lemma {:induction false} OrAdds(k: nat, b: nat, bits: nat)
    requires b < Pow2(bits)
    ensures Or(k * Pow2(bits), b) == k * Pow2(bits) + b
    decreases bits
  {
    var a := k * Pow2(bits);
    if bits == 0 {
      OrZero(a);
    } else {
      assert a == 2 * (k * Pow2(bits - 1));
      OrAdds(k, b / 2, bits - 1);
    }
  }

  /** Or keeps the low binary digits of the second operand when the first has none of them. */
  lemma {:induction false} OrLow(a: nat, b: nat, bits: nat)
    requires a % Pow2(bits) == 0
    ensures Or(a, b) % Pow2(bits) == b % Pow2(bits)
    decreases bits
  {
    if bits > 0 {
      var p := Pow2(bits - 1);
      Halve(a, p);
      Halve(b, p);
      Halve(Or(a, b), p);
      OrLow(a / 2, b / 2, bits - 1);
    }
  }

  lemma Halve(x: nat, p: nat)
    requires p > 0
    ensures x % (2 * p) == 2 * ((x / 2) % p) + x % 2
  {
    var q, r := x / 2 / p, 2 * ((x / 2) % p) + x % 2;
    assert x / 2 == p * q + (x / 2) % p;
    var k := x / (2 * p) - q;
    assert (2 * p) * k == r - x % (2 * p) by {
      assert x == (2 * p) * (x / (2 * p)) + x % (2 * p);
      assert x == (2 * p) * q + r;
    }
    Multiple(2 * p, k);
  }

  lemma Multiple(d: int, k: int)
    requires d >= 0
    ensures k >= 1 ==> d * k >= d
    ensures k <= -1 ==> d * k <= -d
  {
  }

  /** The bytes of a text in ASCII. */
  function Text(s: string): (t: seq<byte>)
    ensures |t| == |s|
  {
    seq(|s|, i requires 0 <= i < |s| => s[i] as int % 256)
  }

  /** The concatenation of a list of blocks. */
  function Concat<T>(blocks: seq<seq<T>>): seq<T> {
    if blocks == [] then [] else blocks[0] + Concat(blocks[1..])
  }

  lemma SubSlice<T>(s: seq<T>, a: nat, b: nat, c: nat, d: nat)
    requires a <= b <= |s| && c <= d <= b - a
    ensures s[a..b][c..d] == s[a + c..a + d]
  {
    var t := s[a..b];
    forall k | 0 <= k < d - c
      ensures t[c..d][k] == s[a + c..a + d][k]
    {
      assert t[c + k] == s[a + c + k];
    }
  }
}
