/**
 PEM text around base64 (section 3 of RFC 7468, without line wrapping) and the cropping of a chain to
 its first certificate, from BreakoutTrustOnboardSDK.cpp.
 */
module Pem {
  import opened Bytes
  import opened Base64
  import opened Matcher

  const DASH: byte := 0x2D
  const NEWLINE: byte := 0x0A

  const DASHES: seq<byte> := [DASH, DASH, DASH, DASH, DASH]
  const BEGIN: seq<byte> := DASHES + [0x42, 0x45, 0x47, 0x49, 0x4E, 0x20]                  // "-----BEGIN "
  const END: seq<byte> := DASHES + [0x45, 0x4E, 0x44, 0x20]                               // "-----END "
  const CERTIFICATE: seq<byte> := [0x43, 0x45, 0x52, 0x54, 0x49, 0x46, 0x49, 0x43, 0x41, 0x54, 0x45]
  const RSA_PRIVATE_KEY: seq<byte> :=
    [0x52, 0x53, 0x41, 0x20, 0x50, 0x52, 0x49, 0x56, 0x41, 0x54, 0x45, 0x20, 0x4B, 0x45, 0x59]

  function HeaderLine(header: seq<byte>): seq<byte> {
    BEGIN + header + DASHES + [NEWLINE]
  }

  function FooterLine(header: seq<byte>): seq<byte> {
    END + header + DASHES
  }

  function PemText(header: seq<byte>, der: seq<byte>): seq<byte> {
    HeaderLine(header) + Encoded(der) + [NEWLINE] + FooterLine(header)
  }

  /** The lines as they are written. */
  lemma PemLines(header: seq<byte>, der: seq<byte>)
    ensures PemText(header, der) ==
            Text("-----BEGIN ") + header + Text("-----") + [0x0A] + Encoded(der) + [0x0A] + Text("-----END ") + header + Text("-----")
    ensures CERTIFICATE == Text("CERTIFICATE") && RSA_PRIVATE_KEY == Text("RSA PRIVATE KEY")
  {
    LineEnds();
    Headers();
    hide Encoded, Text;
  }

  lemma LineEnds()
    ensures BEGIN == Text("-----BEGIN ") && END == Text("-----END ") && DASHES == Text("-----")
  {
  }

  lemma Headers()
    ensures CERTIFICATE == Text("CERTIFICATE") && RSA_PRIVATE_KEY == Text("RSA PRIVATE KEY")
  {
  }

  /** `der_to_pem_len`: header, base64 with its NUL, footer without the newline before it. */
  function DerToPemLen(derLen: nat, header: seq<byte>): nat {
    11 + |header| + 6 + EncodeLen(derLen) + 9 + |header| + 5
  }

  /** The size announced for a PEM text is exactly its length, for every header and content. */
  lemma PemLength(header: seq<byte>, der: seq<byte>)
    ensures |PemText(header, der)| == DerToPemLen(|der|, header)
  {
    EncodedLength(der);
  }

  /** The base64 body behind the header line decodes to the content, whatever follows the text. */
  lemma PemBody(header: seq<byte>, der: seq<byte>, suffix: seq<byte>)
    ensures var pem := PemText(header, der) + suffix;
            |HeaderLine(header)| <= |pem| && DecodedText(pem[|HeaderLine(header)|..]) == der
  {
    var rest := [NEWLINE] + FooterLine(header) + suffix;
    var pem := PemText(header, der) + suffix;
    assert pem[|HeaderLine(header)|..] == Encoded(der) + rest;
    RoundTrip(der, rest);
  }

  /** Copies `text` to `out[at..]`, leaving what lies behind `limit` as it is. */
  method Put(out: array<byte>, at: nat, text: seq<byte>, ghost limit: nat) returns (end: nat)
    requires at + |text| <= limit <= out.Length
    modifies out
    ensures end == at + |text| && out[..end] == old(out[..at]) + text && out[limit..] == old(out[limit..])
  {
    forall i | 0 <= i < |text| {
      out[at + i] := text[i];
    }
    end := at + |text|;
  }

  /**
   `convert_der_to_pem`. The buffer need not be longer than `der_to_pem_len` says: every write, also
   that of the NUL the base64 encoder leaves behind, stays within that length.
   */
  method ConvertDerToPem(header: seq<byte>, inDer: array<byte>, inDerLen: nat, outPem: array<byte>) returns (outPemLen: nat)
    requires inDerLen <= inDer.Length && outPem != inDer
    requires DerToPemLen(inDerLen, header) <= outPem.Length
    modifies outPem
    ensures outPemLen == DerToPemLen(inDerLen, header)
    ensures outPem[..outPemLen] == PemText(header, inDer[..inDerLen])
    ensures outPem[outPemLen..] == old(outPem[outPemLen..])
  {
    hide Encoded, EncodeLen, DecodedText;
    ghost var der, end := inDer[..inDerLen], DerToPemLen(inDerLen, header);
    EncodedLength(der);
    var p := Put(outPem, 0, BEGIN, end);
    p := Put(outPem, p, header, end);
    p := Put(outPem, p, DASHES + [NEWLINE], end);
    assert outPem[..p] == HeaderLine(header);
    var n := Encode(outPem, p, inDer[..inDerLen]);
    assert outPem[end..] == outPem[p + n..][end - p - n..];
    assert outPem[p..p + n - 1] == outPem[p..p + n][..n - 1] == Encoded(der);
    assert outPem[..p + n - 1] == outPem[..p] + outPem[p..p + n - 1];
    p := p + n - 1;
    p := PutFooter(outPem, p, header, end);
    return p;
  }

  method PutFooter(outPem: array<byte>, at: nat, header: seq<byte>, ghost limit: nat) returns (end: nat)
    requires at + |FooterLine(header)| + 1 <= limit <= outPem.Length
    modifies outPem
    ensures end == at + |FooterLine(header)| + 1
    ensures outPem[..end] == old(outPem[..at]) + [NEWLINE] + FooterLine(header) && outPem[limit..] == old(outPem[limit..])
  {
    end := Put(outPem, at, [NEWLINE] + END, limit);
    end := Put(outPem, end, header, limit);
    end := Put(outPem, end, DASHES, limit);
  }

  // ---- Cropping a chain to its first certificate ----

  const FOOTER: seq<byte> := [
    0x2D, 0x2D, 0x2D, 0x2D, 0x2D, 0x45, 0x4E, 0x44, 0x20,
    0x43, 0x45, 0x52, 0x54, 0x49, 0x46, 0x49, 0x43, 0x41, 0x54, 0x45,
    0x2D, 0x2D, 0x2D, 0x2D, 0x2D]                                       // "-----END CERTIFICATE-----"

  method CropPemChain(inPem: array<byte>, inPemLen: nat) returns (outPemLen: nat)
    requires inPemLen <= inPem.Length
    ensures outPemLen == Cropped(FOOTER, inPem[..inPemLen])
  {
    ghost var t := inPem[..inPemLen];
    var footerInd := 0;
    var i := 0;
    while i < inPemLen
      invariant 0 <= i <= inPemLen && footerInd == Matched(FOOTER, t[..i]) < |FOOTER|
    {
      assert t[..i + 1][..i] == t[..i];
      if inPem[i] == FOOTER[footerInd] {
        footerInd := footerInd + 1;
        if footerInd == |FOOTER| {
          CroppedAt(FOOTER, t, i + 1);
          return i + 1;
        }
      } else {
        footerInd := 0;
      }
      i := i + 1;
    }
    assert t[..i] == t;
    CropIsSound(FOOTER, t);
    return inPemLen;
  }
}
