/** File control parameter templates: a 0x62 object holding one-byte-length TLVs (ISO/IEC 7816-4, 5.3.3). */
module Fcp {
  import opened Bytes

  const TEMPLATE: byte := 0x62
  const SIZE_WITHOUT_INFO: byte := 0x80
  const SIZE_WITH_INFO: byte := 0x81

  /** A sequence of complete TLVs. */
  predicate Tlvs(b: seq<byte>) {
    b == [] || (|b| >= 2 && 2 + b[1] <= |b| && Tlvs(b[2 + b[1]..]))
  }

  predicate IsTemplate(fcp: seq<byte>) {
    |fcp| >= 2 && fcp[0] == TEMPLATE && Tlvs(fcp[2..])
  }

  /** A template whose outer length is its own, short enough for 8-bit offsets, with two-byte sizes. */
  predicate IsShortTemplate(fcp: seq<byte>) {
    IsTemplate(fcp) && fcp[1] == |fcp| - 2 <= 253 && WordSizes(fcp[2..])
  }

  predicate WordSizes(b: seq<byte>)
    requires Tlvs(b)
  {
    b == [] || ((b[0] == SIZE_WITH_INFO ==> b[1] >= 2) && WordSizes(b[2 + b[1]..]))
  }

  function BigEndian(bs: seq<byte>): nat {
    if bs == [] then 0 else BigEndian(bs[..|bs| - 1]) * 256 + bs[|bs| - 1]
  }

  /** The first value under tag 0x80, as a 16-bit number. */
  function FileSize(b: seq<byte>): Option<nat>
    requires Tlvs(b)
  {
    if b == [] then None
    else if b[0] == SIZE_WITHOUT_INFO then Some(BigEndian(b[2..2 + b[1]]) % 0x10000)
    else FileSize(b[2 + b[1]..])
  }

  /** The last value under tag 0x81, or `default` without one. */
  function TotalSize(b: seq<byte>, default: nat): nat
    requires Tlvs(b) && WordSizes(b)
  {
    if b == [] then default
    else TotalSize(b[2 + b[1]..], if b[0] == SIZE_WITH_INFO then Word(b[2], b[3]) else default)
  }

  // ---- Building a template ----

  datatype RawTlv = Tlv(tag: byte, value: seq<byte>)
  type Tlv = t: RawTlv | |t.value| < 256 witness Tlv(0, [])

  function EncodedTlv(t: Tlv): seq<byte> {
    [t.tag, |t.value|] + t.value
  }

  function EncodedAll(ts: seq<Tlv>): seq<byte> {
    if ts == [] then [] else EncodedTlv(ts[0]) + EncodedAll(ts[1..])
  }

  /** The value of the first element with the tag. */
  function FirstUnder(ts: seq<Tlv>, tag: byte): Option<seq<byte>> {
    if ts == [] then None else if ts[0].tag == tag then Some(ts[0].value) else FirstUnder(ts[1..], tag)
  }

  /** The value of the last element with the tag. */
  function LastUnder(ts: seq<Tlv>, tag: byte): Option<seq<byte>> {
    if ts == [] then None
    else if ts[|ts| - 1].tag == tag then Some(ts[|ts| - 1].value)
    else LastUnder(ts[..|ts| - 1], tag)
  }

  /** Reading the size of a template that was built from a list of TLVs: the first one under tag 0x80. */
  lemma {:induction false} BuiltFileSize(ts: seq<Tlv>)
    ensures Tlvs(EncodedAll(ts))
    ensures FileSize(EncodedAll(ts)) ==
            match FirstUnder(ts, 0x80) case None => None case Some(v) => Some(BigEndian(v) % 0x10000)
  {
    if ts != [] {
      BuiltFileSize(ts[1..]);
      SplitFirst(ts);
    }
  }

  /** Reading the total size of such a template: the last one under tag 0x81. */
  lemma {:induction false} BuiltTotalSize(ts: seq<Tlv>, default: nat)
    requires forall t :: t in ts && t.tag == 0x81 ==> |t.value| == 2
    ensures Tlvs(EncodedAll(ts)) && WordSizes(EncodedAll(ts))
    ensures TotalSize(EncodedAll(ts), default) ==
            match LastUnder(ts, 0x81) case None => default case Some(v) => BigEndian(v)
  {
    if ts != [] {
      SplitFirst(ts);
      var v := ts[0].value;
      if ts[0].tag == SIZE_WITH_INFO {
        BuiltTotalSize(ts[1..], Word(v[0], v[1]));
        assert v[..1][..0] == [] && BigEndian(v[..1]) == v[0];
        assert BigEndian(v) == Word(v[0], v[1]);
      } else {
        BuiltTotalSize(ts[1..], default);
      }
      LastOfRest(ts, SIZE_WITH_INFO);
    }
  }

  lemma SplitFirst(ts: seq<Tlv>)
    requires ts != []
    ensures var b, v := EncodedAll(ts), ts[0].value;
            && |b| >= 2 + |v| && b[0] == ts[0].tag && b[1] == |v| && b[2..2 + |v|] == v
            && b[2 + |v|..] == EncodedAll(ts[1..])
  {
  }

  lemma {:induction false} LastOfRest(ts: seq<Tlv>, tag: byte)
    requires ts != []
    ensures LastUnder(ts, tag) ==
            if LastUnder(ts[1..], tag).Some? then LastUnder(ts[1..], tag)
            else if ts[0].tag == tag then Some(ts[0].value) else None
  {
    if |ts| > 1 {
      var init := ts[..|ts| - 1];
      assert init[1..] == ts[1..][..|ts| - 2];
      LastOfRest(init, tag);
    } else {
      assert ts[..0] == [];
    }
  }

  // ---- Reading a template ----

  /** The inner loop of `getEFSize`: `l` bytes shifted into a `uint16_t`. */
  method ReadNumber(data: seq<byte>, from: nat, l: nat) returns (size: nat)
    requires from + l <= |data|
    ensures size == BigEndian(data[from..from + l]) % 0x10000
  {
    size := 0;
    var i := from;
    while i < from + l
      invariant from <= i <= from + l
      invariant size == BigEndian(data[from..i]) % 0x10000
    {
      assert data[from..i + 1][..i - from] == data[from..i];
      ShiftIn(BigEndian(data[from..i]), data[i]);
      size := size * 256 % 0x10000 + data[i];
      i := i + 1;
    }
  }

  /** `getEFSize`: the size under tag 0x80 of the template in the first `dataLen` bytes of `data`. */
  method GetEFSize(data: seq<byte>, dataLen: nat) returns (ret: bool, size: nat)
    requires 0 < |data| && dataLen <= |data|
    requires data[0] == TEMPLATE ==> IsTemplate(data[..dataLen])
    ensures ret <==> data[0] == TEMPLATE && FileSize(data[..dataLen][2..]).Some?
    ensures ret ==> size == FileSize(data[..dataLen][2..]).value
  {
    hide FileSize, Tlvs, BigEndian;
    ret, size := false, 0;
    var i := 0;
    if data[i] == TEMPLATE {
      i := i + 2;
      assert data[..dataLen][2..] == data[i..dataLen];
      while i < dataLen
        invariant i <= dataLen && Tlvs(data[i..dataLen])
        invariant !ret && FileSize(data[i..dataLen]) == FileSize(data[..dataLen][2..])
        decreases dataLen - i
      {
        ghost var rest := data[i..dataLen];
        FirstTlv(rest);
        if data[i] == SIZE_WITHOUT_INFO {
          i := i + 1;
          var l := data[i];
          i := i + 1;
          ghost var n: nat := l;
          SubSlice(data, i - 2, dataLen, 2, 2 + n);
          size := ReadNumber(data, i, l);
          ret := true;
          break;
        } else {
          ghost var n: nat := data[i + 1];
          SubSlice(data, i, dataLen, 2 + n, |rest|);
          i := i + 1;
          i := i + 1 + data[i];
        }
      }
      if !ret {
        assert data[i..dataLen] == [];
        FirstTlv([]);
      }
    }
  }

  lemma FirstTlv(b: seq<byte>)
    requires Tlvs(b)
    ensures b != [] ==> |b| >= 2 && 2 + b[1] <= |b| && Tlvs(b[2 + b[1]..])
    ensures FileSize(b) ==
            if b == [] then None
            else if b[0] == SIZE_WITHOUT_INFO then Some(BigEndian(b[2..2 + b[1]]) % 0x10000)
            else FileSize(b[2 + b[1]..])
  {
  }

  /** Shifting a byte into a 16-bit accumulator keeps it equal to the number modulo 2^16. */
  lemma ShiftIn(n: nat, b: byte)
    ensures (n % 0x10000) * 256 % 0x10000 + b == (n * 256 + b) % 0x10000
  {
    var q, r := n / 0x10000, n % 0x10000;
    Residue(r * 256, r / 256, r % 256 * 256);
    Residue(n * 256 + b, q * 256 + r / 256, r % 256 * 256 + b);
  }

  lemma Residue(x: nat, q: nat, r: nat)
    requires x == q * 0x10000 + r && r < 0x10000
    ensures x % 0x10000 == r
  {
  }

  /** The walk over the template in `listKeyPairs` and `getCertificateByContainerId`, with 8-bit counters. */
  method GetTotalSize(data: seq<byte>, default: nat, ghost fcp: seq<byte>) returns (size: nat)
    requires fcp <= data && IsShortTemplate(fcp)
    ensures size == TotalSize(fcp[2..], default)
  {
    size := default;
    assert forall k :: 0 <= k < |fcp| ==> data[k] == fcp[k];
    var len: byte := data[1];
    var i: byte := 2;
    len := len + 2;
    while i < len
      invariant i <= len == |fcp| && Tlvs(fcp[i..]) && WordSizes(fcp[i..])
      invariant TotalSize(fcp[i..], size) == TotalSize(fcp[2..], default)
      decreases len - i
    {
      ghost var rest := fcp[i..];
      assert data[i] == rest[0] && data[i + 1] == rest[1];
      assert rest[2 + rest[1]..] == fcp[i + 2 + rest[1]..];
      var t := data[i];
      var l := data[i + 1];
      if t == SIZE_WITH_INFO {
        assert data[i + 2] == rest[2] && data[i + 3] == rest[3];
        size := Word(data[i + 2], data[i + 3]);
      }
      i := i + 2 + l;
    }
  }
}
