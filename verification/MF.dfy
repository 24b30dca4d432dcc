/** The MF applet: elementary files read by path (MF.cpp). */
module MFs {
  import opened Bytes
  import opened Cards
  import opened Applets
  import opened Chunks
  import opened SEInterfaces
  import opened Fcp

  const AID: seq<byte> :=
    [0xA0, 0x00, 0x00, 0x00, 0x87, 0x10, 0x01, 0xFF, 0x33, 0xFF, 0xFF, 0x89, 0x01, 0x01, 0x01, 0x00]

  const VERIFY: byte := 0x20

  /** The PIN block of VERIFY: eight bytes, padded with 0xFF. */
  function PinBlock(pin: seq<byte>): (b: seq<byte>)
    requires |pin| <= 8
    ensures |b| == 8
  {
    pin + seq(8 - |pin|, _ => 0xFF)
  }

  function VerifyMfCommand(ch: byte, pin: seq<byte>): (apdu: seq<byte>)
    requires |pin| <= 8
    ensures |apdu| >= 4
  {
    Case3(ch, VERIFY, 0x00, 0x01, PinBlock(pin))
  }

  /** What answers SELECT, if it starts like a template, is one, and announces at most 0x8000 bytes. */
  predicate Templated(f: EF) {
    f.fcp != [] && f.fcp[0] == TEMPLATE ==> IsTemplate(f.fcp) && (Size(f).Some? ==> Size(f).value <= 0x8000)
  }

  /** The size a file announces. */
  function Size(f: EF): Option<nat> {
    if IsTemplate(f.fcp) then FileSize(f.fcp[2..]) else None
  }

  /** A file with a template built from any list of TLVs announces the first value under tag 0x80, as a 16-bit number. */
  lemma AnnouncedSize(ts: seq<Tlv>, length: byte, content: seq<byte>, whole: nat)
    requires |EncodedAll(ts)| <= 254
    ensures var f: EF := File([0x62, length] + EncodedAll(ts), content, whole);
            Size(f) == match FirstUnder(ts, 0x80) case None => None case Some(v) => Some(BigEndian(v) % 0x10000)
  {
    BuiltFileSize(ts);
    assert ([0x62, length] + EncodedAll(ts))[2..] == EncodedAll(ts);
    hide EncodedAll, FileSize, Tlvs;
  }

  class MF {
    const applet: Applet

    constructor ()
      ensures fresh(applet) && applet.Valid() && applet.aid == AID && !applet.isSelected && applet.seiface == null
    {
      applet := new Applet(AID);
    }

    method VerifyPin(pin: seq<byte>, ghost c: Card) returns (ok: bool)
      requires applet.Following(c)
      modifies applet.Device()
      ensures applet.Following(c)
      ensures |pin| > 8 ==> !ok && applet.Card() == old(applet.Card())
      ensures |pin| <= 8 ==>
        var s := Send(old(applet.Card()), VerifyMfCommand(applet.channel, pin));
        ok == s.Succeeded() && applet.Card() == s.card
    {
      hide Send, Undisturbed, Steady;
      if |pin| > 8 {
        return false;
      }
      Channels.RoutedClass(0x00, applet.channel);
      ghost var d, apdu := applet.Card(), VerifyMfCommand(applet.channel, pin);
      SendOpaque(d, apdu, applet.channel);
      Onwards(c, d, Send(d, apdu).card, applet.channel);
      ok := applet.Transmit3(0x00, VERIFY, 0x00, 0x01, PinBlock(pin));
      if ok {
        var sw := applet.GetStatusWord();
        ok := sw == OK;
      }
    }

    /** The chunked reading loop of `readEF`; it fails only when the current file is shorter than `dataLen`. */
    method ReadContent(data: array<byte>, dataLen: nat, ghost c: Card, ghost f: EF) returns (ok: bool)
      requires applet.Reading(c, f)
      requires dataLen <= data.Length && dataLen <= 0x8000
      requires data !in applet.Device()
      modifies applet.Device(), data
      ensures applet.Following(c)
      ensures ok ==> dataLen <= |f.content| && data[..dataLen] == f.content[..dataLen]
      ensures old(applet.Losses()) <= applet.Losses()
      ensures applet.Losses() == old(applet.Losses()) && dataLen <= |f.content| ==> ok
    {
      hide Undisturbed, Steady, Send, Current;
      ghost var before := applet.Losses();
      var i := 0;
      while i < dataLen
        invariant i <= dataLen && i <= |f.content| && before <= applet.Losses()
        invariant applet.Reading(c, f)
        invariant data[..i] == f.content[..i]
        decreases dataLen - i
      {
        var toread := if dataLen - i >= 255 then 255 else dataLen - i;
        var done, n := applet.ReadInto(i, toread, data, i, c, f);
        if !done {
          return false;
        }
        assert data[..i + n] == data[..i] + data[i..i + n];
        assert f.content[..i + n] == f.content[..i] + f.content[i..i + n];
        i := i + n;
      }
      return true;
    }

    /**
     Reads the file at `path` into `data`, or only reports its size when `data` is null. The size is
     the one the file's template announces. Unless a command is lost, reading succeeds exactly when the
     file exists, announces a size and is at least that long.
     */
    method ReadEF(path: seq<byte>, data: array?<byte>, ghost c: Card)
      returns (ok: bool, dataLen: nat)
      requires applet.Following(c) && |path| < 256
      requires path in c.FilesOn(applet.channel) ==> Templated(c.FilesOn(applet.channel)[path])
      requires data != null && path in c.FilesOn(applet.channel) && Size(c.FilesOn(applet.channel)[path]).Some? ==>
                 Size(c.FilesOn(applet.channel)[path]).value <= data.Length
      requires data != null ==> data !in applet.Device()
      modifies applet.Device(), data
      ensures applet.Following(c)
      ensures ok ==> path in c.FilesOn(applet.channel) && Size(c.FilesOn(applet.channel)[path]) == Some(dataLen)
      ensures ok && data != null ==>
        var content := c.FilesOn(applet.channel)[path].content;
        dataLen <= |content| && data[..dataLen] == content[..dataLen]
      ensures old(applet.Losses()) <= applet.Losses()
      ensures applet.Losses() == old(applet.Losses()) && path in c.FilesOn(applet.channel) ==>
        var f := c.FilesOn(applet.channel)[path];
        ok == (Size(f).Some? && (data == null || Size(f).value <= |f.content|))
    {
      hide Undisturbed, Steady, Send, Current;
      ok, dataLen := false, 0;
      var selected := applet.SelectPath(path, Some(0x00), c);
      if selected {
        var l := applet.GetResponseLength();
        assert applet.seiface.apduResponse[..][..l] == c.FilesOn(applet.channel)[path].fcp;
        var found;
        found, dataLen := GetEFSize(applet.seiface.apduResponse[..], l);
        if found {
          if data == null {
            return true, dataLen;
          }
          ok := ReadContent(data, dataLen, c, c.FilesOn(applet.channel)[path]);
        }
      }
    }
  }
}
