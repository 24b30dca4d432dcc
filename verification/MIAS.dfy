/** The MIAS applet: PKCS#11 data objects, key pairs, certificates and cryptographic commands (MIAS.cpp). */
module MIASs {
  import opened Bytes
  import opened Cards
  import opened Channels
  import opened Applets
  import opened Directory
  import opened Chunks
  import opened Fcp
  import opened Listings
  import opened KeyIndex
  import opened Pso
  import P11Objects

  const AID: seq<byte> := [0xA0, 0x00, 0x00, 0x00, 0x18, 0x80, 0x00, 0x00, 0x00, 0x06, 0x62, 0x41, 0x51]

  const FILE_POOL_SIZE := 32

  /** VERIFY of the applet's PIN. */
  function VerifyCommand(ch: byte, pin: seq<byte>): (apdu: seq<byte>)
    ensures |apdu| >= 4
  {
    Case3(OrBytes(0x00, ch), 0x20, 0x00, 0x81, pin)
  }

  /** MANAGE SECURITY ENVIRONMENT: algorithm and key for signing (0xB6) or deciphering (0xB8). */
  function InitCommand(ch: byte, template: byte, algorithm: byte, key: byte): (apdu: seq<byte>)
    ensures |apdu| >= 4
  {
    Case3(OrBytes(0x00, ch), MSE, 0x41, template, [0x80, 0x01, algorithm, 0x84, 0x01, key])
  }

  /** The command that hands the card a digest to sign. */
  function DigestCommand(ch: byte, digest: seq<byte>): (apdu: seq<byte>)
    requires |digest| < 256
    ensures |apdu| >= 4
  {
    Case4(OrBytes(0x00, ch), PSO, 0x90, 0xA0, [0x90, |digest|] + digest, 0x00)
  }

  class MIAS {
    const applet: Applet
    const files: array<Entry>
    var filesNum: nat
    const keypairs: array<KeyPair>
    var signAlgo: byte
    var keypairsNum: int  // -1 until the key pairs have been listed

    ghost predicate Valid()
      reads this, applet, keypairs, if applet.seiface == null then {} else {applet.seiface}
    {
      && applet.Valid() && files.Length == FILE_POOL_SIZE && filesNum <= FILE_POOL_SIZE
      && keypairs.Length == KEY_POOL_SIZE && -1 <= keypairsNum <= KEY_POOL_SIZE
      && (keypairsNum == -1 ==> forall k :: 0 <= k < KEY_POOL_SIZE ==> keypairs[k].kid == 0)
    }

    /** The key pairs listed so far. */
    ghost function Listed(): seq<KeyPair>
      requires Valid()
      reads this, applet, keypairs, if applet.seiface == null then {} else {applet.seiface}
    {
      if keypairsNum < 0 then [] else keypairs[..keypairsNum]
    }

    /** What has been listed, if anything, is what these files say. */
    ghost predicate Indexed(fs: Files)
      reads this, applet, keypairs, if applet.seiface == null then {} else {applet.seiface}
    {
      Valid() && SaneIndex(fs) && (keypairsNum != -1 ==> Index(fs) == Some(Listed()))
    }

    constructor ()
      ensures Valid() && fresh(applet) && fresh(files) && fresh(keypairs) && keypairsNum == -1
      ensures applet.aid == AID && !applet.isSelected && applet.seiface == null
    {
      applet := new Applet(AID);
      files := new Entry[FILE_POOL_SIZE](_ => Entry(0, 0, seq(8, _ => 0), seq(8, _ => 0)));
      filesNum := 0;
      keypairs := new KeyPair[KEY_POOL_SIZE](_ => KeyPair(0, 0, 0, [0, 0], false));
      keypairsNum := -1;
      signAlgo := 0;
    }

    // ---- PKCS#11 data objects ----

    /** Reads the directory's records into the file pool, skipping those that cannot be read in full. */
    method ReadDirectory(nbOfFiles: byte, ghost c: Card, ghost d: EF)
      requires Valid() && applet.Reading(c, d) && filesNum == 0
      requires d.content != [] && nbOfFiles == d.content[0] && |d.content| <= d.whole && Count(d.content) <= 32
      modifies applet.Device(), files, this`filesNum
      ensures Valid() && applet.Following(c)
      ensures forall e :: e in files[..filesNum] ==> e in Entries(d.content)
      ensures old(applet.Losses()) <= applet.Losses()
      ensures applet.Losses() == old(applet.Losses()) ==> files[..filesNum] == Entries(d.content)
    {
      hide Undisturbed, Steady, Sound, Send, Current, EntryOf;
      ghost var before := applet.Losses();
      var record := new byte[RECORD];
      var i := 0;
      while i < nbOfFiles
        invariant i <= nbOfFiles as int
        invariant Valid() && applet.Reading(c, d)
        invariant filesNum <= Min(i, Count(d.content))
        invariant forall e :: e in files[..filesNum] ==> e in Entries(d.content)
        invariant before <= applet.Losses()
        invariant applet.Losses() == before ==> filesNum == Min(i, Count(d.content)) && files[..filesNum] == Entries(d.content)[..filesNum]
      {
        var offset := 1 + i * RECORD;
        RecordPresent(d.content, i);
        var done, n := applet.ReadInto(offset, 0x15, record, 0, c, d);
        if done && n == RECORD {
          assert record[..] == Record(d.content, i);
          assert EntryOf(record[..]) == Entries(d.content)[i];
          AddFile(record[..]);
        }
        i := i + 1;
      }
    }

    /** Enters the file of one directory record into the pool. */
    method AddFile(r: seq<byte>)
      requires files.Length == FILE_POOL_SIZE && filesNum < FILE_POOL_SIZE && |r| == RECORD
      modifies files, this`filesNum
      ensures filesNum == old(filesNum) + 1 && files[..filesNum] == old(files[..filesNum]) + [EntryOf(r)]
    {
      files[filesNum] := EntryOf(r);
      filesNum := filesNum + 1;
    }

    /** The length without the padding spaces of the card's record. */
    method TrimmedLength(record: array<byte>, len: nat) returns (trimLen: nat)
      requires len <= record.Length && P11Objects.Trim(record[..len]) != []
      ensures trimLen <= len && record[..trimLen] == P11Objects.Trim(record[..len])
    {
      ghost var raw := record[..len];
      assert raw == raw[..len];
      var trimPos := len - 1;
      while record[trimPos] == P11Objects.SPACE
        invariant 0 <= trimPos < len
        invariant P11Objects.Trim(raw[..trimPos + 1]) == P11Objects.Trim(raw) != []
        decreases trimPos
      {
        assert raw[..trimPos + 1][..trimPos] == raw[..trimPos];
        trimPos := trimPos - 1;
      }
      trimLen := trimPos + 1;
    }

    /** Copies the label just read and compares it, without its trailing spaces, with the one asked for. */
    method CompareLabel(wanted: seq<byte>, record: array<byte>, ghost raw: seq<byte>) returns (found: bool)
      requires applet.Answered(raw) && record.Length == RECORD && record !in applet.Device()
      requires 0 < |raw| <= 20 && P11Objects.Trim(raw) != []
      modifies record
      ensures found <==> P11Objects.Trim(raw) == wanted
    {
      hide P11Objects.Trim;
      var len := applet.GetResponse(record, 0);
      assert applet.seiface.Response()[..|raw|] == raw;
      record[len] := 0;
      assert record[..len] == raw;
      var trimLen := TrimmedLength(record, len);
      found := |wanted| == trimLen && wanted == record[..trimLen];
    }

    /** Compares the current file's label, without its trailing spaces, with the one asked for. */
    method MatchLabel(wanted: seq<byte>, record: array<byte>, ghost c: Card, ghost f: EF) returns (found: bool, offset: nat)
      requires applet.Reading(c, f) && record.Length == RECORD && record !in applet.Device()
      requires var raw := P11Objects.RawLabel(f.content);
               raw.Some? ==> |raw.value| <= 20 && P11Objects.Trim(raw.value) != [] && 17 < f.whole
      modifies applet.Device(), record
      ensures applet.Reading(c, f)
      ensures var raw := P11Objects.RawLabel(f.content);
              && (found ==> raw.Some? && P11Objects.Trim(raw.value) == wanted && offset == 17 + |raw.value|)
              && (applet.Losses() == old(applet.Losses()) && raw.Some? && P11Objects.Trim(raw.value) == wanted ==> found)
      ensures old(applet.Losses()) <= applet.Losses()
    {
      hide Undisturbed, Steady, Sound, Send, Current, P11Objects.Trim;
      found, offset := false, 16;
      var done, n := applet.ReadInto(offset, 0x01, record, 0, c, f);
      if done && n == 0x01 {
        assert record[0] == f.content[16];
        offset := offset + 1;
        var sent, read, len := applet.ReadBinary(offset, record[0], c, f);
        if read {
          if len == record[0] {
            found := CompareLabel(wanted, record, P11Objects.RawLabel(f.content).value);
            if found {
              offset := offset + len;
            }
          }
        }
      }
    }

    /** Steps over the length-value field at `offset`. */
    method SkipField(offset: nat, record: array<byte>, ghost c: Card, ghost f: EF) returns (ok: bool, next: nat)
      requires applet.Reading(c, f) && record.Length == RECORD && record !in applet.Device() && offset < 0x8000
      modifies applet.Device(), record
      ensures applet.Reading(c, f)
      ensures ok ==> P11Objects.Skip(f.content, offset) == Some(next)
      ensures old(applet.Losses()) <= applet.Losses()
      ensures applet.Losses() == old(applet.Losses()) && P11Objects.Skip(f.content, offset).Some? ==> ok
    {
      hide Undisturbed, Steady, Sound, Send, Current;
      var n;
      ok, n := applet.ReadInto(offset, 0x01, record, 0, c, f);
      next := offset;
      if ok {
        assert record[0] == f.content[offset];
        next := offset + 1 + record[0];
      }
    }

    /** Finds the value header of the current file's object if its label is the one asked for, and reads five bytes there. */
    method FindValue(wanted: seq<byte>, record: array<byte>, ghost c: Card, ghost f: EF) returns (found: bool, offset: nat)
      requires applet.Reading(c, f) && record.Length == RECORD && record !in applet.Device()
      requires P11Objects.Sane(f, wanted)
      modifies applet.Device(), record
      ensures applet.Reading(c, f)
      ensures found ==>
        && P11Objects.Holds(f.content, wanted) && P11Objects.ValueHeader(f.content) == Some(offset)
        && record[..5] == f.content[offset..offset + 5]
      ensures old(applet.Losses()) <= applet.Losses()
      ensures applet.Losses() == old(applet.Losses()) && P11Objects.Holds(f.content, wanted) ==> found
    {
      hide Undisturbed, Steady, Sound, Send, Current, P11Objects.Trim, P11Objects.ValueSpan;
      found, offset := MatchLabel(wanted, record, c, f);
      if found {
        found, offset := SkipField(offset, record, c, f);
        if found {
          found, offset := SkipField(offset, record, c, f);
          if found {
            var done, n := applet.ReadInto(offset, 0x05, record, 0, c, f);
            found := done && n == 0x05;
          }
        }
      }
    }

    /**
     The value's size and the length of its BER header. Where the header determines them they are those
     its first five bytes describe.
     */
    method DecodeSize(record: array<byte>, uninitialised: nat) returns (size: nat, headerLen: nat)
      requires record.Length == RECORD && uninitialised < 0x10000
      ensures size == P11Objects.DecodedSize(record[..], uninitialised) && headerLen == 1 + P11Objects.LengthBytes(record[..])
      ensures P11Objects.Determinate(record[0]) ==> P11Objects.ValueSpan(record[..5], 0) == P11Objects.Span(headerLen, size)
    {
      size, headerLen := uninitialised, 0;
      if record[0] < 0x80 {
        size := record[0];
      } else {
        var i := 0;
        while i < record[0] % 16
          invariant i == headerLen <= record[0] % 16
          invariant size == P11Objects.ShiftedIn(uninitialised, record[1..1 + i])
        {
          assert record[1..1 + i + 1][..i] == record[1..1 + i];
          size := size * 256 % 0x10000;
          size := size + record[1 + i];
          i, headerLen := i + 1, headerLen + 1;
        }
        assert record[..][1..1 + i] == record[1..1 + i];
        if i >= 2 {
          P11Objects.TwoBytesDetermine(uninitialised, record[1..1 + i]);
        }
        if i <= 4 {
          assert record[..5][1..1 + i] == record[1..1 + i];
        }
      }
      headerLen := headerLen + 1;
    }

    /**
     The chunked reading loop of `p11GetObjectByLabel` and `getCertificateByContainerId`, which goes on
     behind a chunk whose read failed: the bytes of such a chunk stay what they were.
     */
    method ReadValue(target: array<byte>, start: nat, size: nat, ghost c: Card, ghost f: EF)
      requires applet.Reading(c, f) && target !in applet.Device() && size <= target.Length
      requires start + size <= |f.content| && start + size <= 0x8000
      modifies applet.Device(), target
      ensures applet.Following(c)
      ensures var r := InChunks(old(applet.Card()), applet.channel, start, size, []);
              && applet.Card() == r.card
              && target[..] == Overlaid(old(target[..size]), r.arrived, f.content[start..start + size]) + old(target[size..])
      ensures old(applet.Losses()) <= applet.Losses()
      ensures applet.Losses() == old(applet.Losses()) ==> target[..size] == f.content[start..start + size]
    {
      hide Undisturbed, Steady, Sound, Send, Current, ReadCommand, Brought, FilledTo, Wrote, Overlaid, InChunks, Passed;
      ghost var ch, arrived, value := applet.channel, [], f.content[start..start + size];
      ghost var all := InChunks(applet.Card(), ch, start, size, []);
      ArriveExactly(applet.Card(), ch, f, start, size, []);
      ghost var before := target[..];
      NothingFilled(before, value);
      var offset := start;
      var i := 0;
      while i < size
        invariant |arrived| == i <= size && offset == start + i && applet.Reading(c, f)
        invariant InChunks(applet.Card(), ch, start, size, arrived) == all
        invariant FilledTo(i, before, arrived, value, target[..])
        decreases size - i
      {
        var len := CHUNK;
        if i + len > size {
          len := size - i;
        }
        ghost var now := target[..];
        ghost var n;
        NextChunk(applet.Card(), ch, start, size, arrived, len);
        ghost var asked := len;
        len, n := ReadChunk(target, i, offset, len, c, f);
        SubSlice(f.content, start, start + size, i, i + n);
        FilledMore(i, before, arrived, value, now, n, asked, target[..]);
        arrived := Passed(arrived, n, asked);
        offset := offset + len;
        i := i + len;
      }
      AllChunks(applet.Card(), ch, start, size, arrived);
      AllFilled(before, arrived, value, target[..]);
    }

    lemma AllChunks(c: Card, ch: byte, start: nat, size: nat, arrived: seq<bool>)
      requires |arrived| == size && start + size <= 0x8000
      ensures InChunks(c, ch, start, size, arrived) == Chunked(c, arrived)
    {
    }

    /** One chunk: `n` bytes have been brought; the loop goes on behind them or, if there are none, behind the chunk. */
    method ReadChunk(target: array<byte>, at: nat, offset: nat, len: byte, ghost c: Card, ghost f: EF) returns (step: nat, ghost n: nat)
      requires applet.Reading(c, f) && target !in applet.Device() && offset < 0x8000
      requires 0 < len && at + len <= target.Length && offset + len <= |f.content|
      modifies applet.Device(), target
      ensures applet.Reading(c, f)
      ensures var s := Send(old(applet.Card()), ReadCommand(applet.channel, offset, len));
              applet.Card() == s.card && n == Brought(s.answer, len) && step == if n > 0 then n else len
      ensures n <= len && Wrote(at, f.content[offset..offset + n], old(target[..]), target[..])
    {
      hide Undisturbed, Steady, Sound, Send, Current, ReadCommand, Brought;
      ghost var s := Send(applet.Card(), ReadCommand(applet.channel, offset, len));
      ChunkBrought(s, len);
      var done, got := applet.ReadInto(offset, len, target, at, c, f);
      n := got;
      assert target[..][..at] == target[..at] && target[..][at + n..] == target[at + n..];
      step := if done then got else len;
    }

    lemma ChunkBrought(s: Sent, len: nat)
      ensures s.Succeeded() && |s.answer.value| - 2 <= len ==> Brought(s.answer, len) == |s.answer.value| - 2
      ensures !s.Succeeded() ==> Brought(s.answer, len) == 0
    {
    }

    /** Tries the data file of one directory entry: its object if the label matches and every field can be read. */
    method ReadObject(e: Entry, wanted: seq<byte>, target: array?<byte>, ghost c: Card) returns (ok: bool, objectLen: nat)
      requires applet.Following(c) && e.efid < 0x10000 && P11Objects.IsData(e)
      requires PathOf(e) in c.FilesOn(applet.channel) ==> P11Objects.Sane(c.FilesOn(applet.channel)[PathOf(e)], wanted)
      requires target != null ==> target !in applet.Device()
      requires target != null && P11Objects.Matches(c.FilesOn(applet.channel), e, wanted) ==>
                 |P11Objects.Value(c.FilesOn(applet.channel), e, wanted)| <= target.Length
      modifies applet.Device(), target
      ensures applet.Following(c)
      ensures !ok ==> objectLen == 0
      ensures ok ==> HasObject(e, wanted, c) && objectLen == |P11Objects.Value(c.FilesOn(applet.channel), e, wanted)|
      ensures applet.Losses() == old(applet.Losses()) && HasObject(e, wanted, c) ==>
        ok && (target != null ==> objectLen <= target.Length && target[..objectLen] == P11Objects.Value(c.FilesOn(applet.channel), e, wanted))
      ensures old(applet.Losses()) <= applet.Losses()
    {
      hide Undisturbed, Steady, Sound, Send, Current, P11Objects.Holds, P11Objects.Value, P11Objects.Sane;
      ok, objectLen := false, 0;
      var selected := applet.SelectPath(PathOf(e), None, c);
      if selected {
        ok, objectLen := ReadSelected(e, wanted, target, c);
      }
    }

    /** The entry's file is there and holds an object of the name. */
    ghost predicate HasObject(e: Entry, wanted: seq<byte>, c: Card)
      reads applet
    {
      P11Objects.Matches(c.FilesOn(applet.channel), e, wanted)
    }

    /** The same once the data file is selected. */
    method ReadSelected(e: Entry, wanted: seq<byte>, target: array?<byte>, ghost c: Card) returns (ok: bool, objectLen: nat)
      requires e.efid < 0x10000 && P11Objects.IsData(e) && PathOf(e) in c.FilesOn(applet.channel)
      requires applet.Reading(c, c.FilesOn(applet.channel)[PathOf(e)]) && P11Objects.Sane(c.FilesOn(applet.channel)[PathOf(e)], wanted)
      requires target != null ==> target !in applet.Device()
      requires target != null && HasObject(e, wanted, c) ==> |P11Objects.Value(c.FilesOn(applet.channel), e, wanted)| <= target.Length
      modifies applet.Device(), target
      ensures applet.Following(c)
      ensures !ok ==> objectLen == 0
      ensures ok ==> HasObject(e, wanted, c) && objectLen == |P11Objects.Value(c.FilesOn(applet.channel), e, wanted)|
      ensures applet.Losses() == old(applet.Losses()) && HasObject(e, wanted, c) ==>
        ok && (target != null ==> objectLen <= target.Length && target[..objectLen] == P11Objects.Value(c.FilesOn(applet.channel), e, wanted))
      ensures old(applet.Losses()) <= applet.Losses()
    {
      hide Undisturbed, Steady, Sound, Send, Current, P11Objects.ValueHeader, P11Objects.Holds, P11Objects.Value, P11Objects.ValueSpan,
           P11Objects.Sane, Overlaid, InChunks;
      ok, objectLen := false, 0;
      ghost var f := c.FilesOn(applet.channel)[PathOf(e)];
      var record := new byte[RECORD];
      var found, offset := FindValue(wanted, record, c, f);
      if found {
        assert record[0] == record[..5][0];
        P11Objects.ValueAt(c.FilesOn(applet.channel), e, wanted, offset);
        var uninitialised: nat :| uninitialised < 0x10000;
        var size, headerLen := DecodeSize(record, uninitialised);
        offset := offset + headerLen;
        ok, objectLen := true, size;
        if target != null {
          ReadValue(target, offset, size, c, f);
        }
      }
    }

    /** Tries the data files of the file pool in order. */
    method FindListed(wanted: seq<byte>, target: array?<byte>, ghost c: Card) returns (ok: bool, objectLen: nat)
      requires Valid() && applet.Following(c)
      requires PATH in c.FilesOn(applet.channel) && P11Objects.SaneFiles(c.FilesOn(applet.channel), wanted)
      requires var es := Entries(c.FilesOn(applet.channel)[PATH].content);
               (forall e :: e in files[..filesNum] ==> e in es) && (Steady(c) ==> files[..filesNum] == es)
      requires target != null ==>
                 target !in applet.Device() && P11Objects.Fits(P11Objects.Sizes(Steady(c), c.FilesOn(applet.channel), wanted), target.Length)
      modifies applet.Device(), target
      ensures applet.Following(c)
      ensures ok ==> objectLen in P11Objects.Sizes(Steady(c), c.FilesOn(applet.channel), wanted)
      ensures old(applet.Losses()) <= applet.Losses()
      ensures applet.Losses() == old(applet.Losses()) && files[..filesNum] == Entries(c.FilesOn(applet.channel)[PATH].content) ==>
        P11Objects.Retrieved(c.FilesOn(applet.channel), wanted, ok, objectLen, target)
    {
      hide Undisturbed, Steady, Sound, Send, Current, P11Objects.Sane, P11Objects.SaneFiles, P11Objects.Matches, P11Objects.Value,
           P11Objects.Object, P11Objects.Sizes, EntryOf;
      ghost var fs := c.FilesOn(applet.channel);
      ghost var es := Entries(fs[PATH].content);
      ghost var listed := files[..filesNum];
      ghost var before := applet.Losses();
      P11Objects.SaneListing(fs, wanted);
      var j := 0;
      while j < filesNum
        invariant 0 <= j <= filesNum && Valid() && applet.Following(c) && files[..filesNum] == listed
        invariant before <= applet.Losses()
        invariant applet.Losses() == before && listed == es ==> forall k :: 0 <= k < j ==> !P11Objects.Matches(fs, es[k], wanted)
      {
        var e := files[j];
        assert e == listed[j] && e in es;
        if P11Objects.IsData(e) {
          if P11Objects.Matches(fs, e, wanted) {
            P11Objects.MatchListed(Steady(c), applet.Losses() == before && listed == es, fs, e, j, wanted);
          }
          ok, objectLen := ReadObject(e, wanted, target, c);
          if ok {
            return;
          }
        } else {
          P11Objects.OnlyDataMatches(fs, e, wanted);
        }
        j := j + 1;
      }
      if applet.Losses() == before && listed == es {
        P11Objects.NothingListed(fs, wanted, target);
      }
      return false, 0;
    }

    /**
     Finds the PKCS#11 data object with the given label and copies its value to `target`, or only
     reports its length when `target` is null.
     */
    method P11GetObjectByLabel(wanted: seq<byte>, target: array?<byte>, ghost c: Card) returns (ok: bool, objectLen: nat)
      requires Valid() && applet.Following(c)
      requires P11Objects.SaneFiles(c.FilesOn(applet.channel), wanted)
      requires target != null ==>
                 target !in applet.Device() && P11Objects.Fits(P11Objects.Sizes(Steady(c), c.FilesOn(applet.channel), wanted), target.Length)
      modifies applet.Device(), files, this`filesNum, target
      ensures Valid() && applet.Following(c)
      ensures ok ==> objectLen in P11Objects.Sizes(Steady(c), c.FilesOn(applet.channel), wanted)
      ensures old(applet.Losses()) <= applet.Losses()
      ensures applet.Losses() == old(applet.Losses()) ==>
        P11Objects.Retrieved(c.FilesOn(applet.channel), wanted, ok, objectLen, target)
    {
      hide Undisturbed, Steady, Sound, Send, Current, P11Objects.SaneFiles, P11Objects.Sizes, P11Objects.Retrieved, EntryOf;
      ok, objectLen := false, 0;
      filesNum := 0;
      P11Objects.NothingRetrieved(c.FilesOn(applet.channel), wanted, target);
      var selected := applet.SelectPath(PATH, None, c);
      if selected {
        ok, objectLen := FindInDirectory(wanted, target, c);
      }
    }

    /** The same once the directory is selected. */
    method FindInDirectory(wanted: seq<byte>, target: array?<byte>, ghost c: Card) returns (ok: bool, objectLen: nat)
      requires Valid() && filesNum == 0 && PATH in c.FilesOn(applet.channel) && applet.Reading(c, c.FilesOn(applet.channel)[PATH])
      requires P11Objects.SaneFiles(c.FilesOn(applet.channel), wanted)
      requires target != null ==>
                 target !in applet.Device() && P11Objects.Fits(P11Objects.Sizes(Steady(c), c.FilesOn(applet.channel), wanted), target.Length)
      modifies applet.Device(), files, this`filesNum, target
      ensures Valid() && applet.Following(c)
      ensures ok ==> objectLen in P11Objects.Sizes(Steady(c), c.FilesOn(applet.channel), wanted)
      ensures old(applet.Losses()) <= applet.Losses()
      ensures applet.Losses() == old(applet.Losses()) ==>
        P11Objects.Retrieved(c.FilesOn(applet.channel), wanted, ok, objectLen, target)
    {
      hide Undisturbed, Steady, Sound, Send, Current, P11Objects.SaneFiles, P11Objects.Sizes, P11Objects.Retrieved, Entries, Count, EntryOf;
      ok, objectLen := false, 0;
      ghost var d := c.FilesOn(applet.channel)[PATH];
      P11Objects.NothingRetrieved(c.FilesOn(applet.channel), wanted, target);
      P11Objects.SaneListing(c.FilesOn(applet.channel), wanted);
      var count := new byte[1];
      var done, n := applet.ReadInto(0, 0x01, count, 0, c, d);
      if done && n == 1 {
        assert count[0] == count[0..1][0] == d.content[0..1][0] == d.content[0];
        ReadDirectory(count[0], c, d);
        ok, objectLen := FindListed(wanted, target, c);
      }
    }

    // ---- Key pairs ----

    lemma NothingLooked(c: Card)
      ensures Looked(c, c)
    {
    }

    /** The key pool being filled: nothing marked yet, nothing written behind the last entry. */
    ghost predicate Filling()
      reads this, keypairs
    {
      && keypairs.Length == KEY_POOL_SIZE && -1 <= keypairsNum < KEY_POOL_SIZE
      && (forall k :: 0 <= k <= keypairsNum ==> !keypairs[k].hasCert)
      && (forall k :: keypairsNum < k < KEY_POOL_SIZE ==> keypairs[k].kid == 0)
    }

    /** Enters the key pair of container `i`, whose record is `r`. */
    method AddKeyPair(r: seq<byte>, i: byte)
      requires Filling() && keypairsNum < KEY_POOL_SIZE - 1 && |r| == CONTAINER_RECORD
      modifies keypairs, this`keypairsNum
      ensures Filling() && keypairsNum == old(keypairsNum) + 1
      ensures keypairs[..keypairsNum + 1] == old(keypairs[..keypairsNum + 1]) + [KeyOf(r, i, 0)]
    {
      keypairsNum := keypairsNum + 1;
      keypairs[keypairsNum] := KeyOf(r, i, keypairs[keypairsNum].kid);
    }

    /** One step of the loop over the container records; `go` is false where the program leaves the loop. */
    method ReadContainer(offset: nat, i: byte, ghost m: nat, ghost c: Card, ghost f: EF) returns (go: bool)
      requires applet.Reading(c, f) && Filling() && |f.content| <= f.whole
      requires offset == m * CONTAINER_RECORD < 0x8000 && i == m % 256
      modifies applet.Device(), keypairs, this`keypairsNum
      ensures applet.Reading(c, f) && Filling() && Looked(old(applet.Card()), applet.Card())
      ensures var s := Send(old(applet.Card()), ReadCommand(applet.channel, offset, CONTAINER_RECORD));
              var next := PoolStep(old(keypairs[..keypairsNum + 1]), s.answer, m);
              && applet.Card() == s.card && go == next.Some?
              && keypairs[..keypairsNum + 1] == if go then next.value else old(keypairs[..keypairsNum + 1])
    {
      hide Undisturbed, Steady, Sound, Send, Current, ReadCommand, KeyOf, Looked;
      go := true;
      var sent, done, len := applet.ReadBinary(offset, 0x0B, c, f);
      if sent {
        if !done {
          return false;
        }
        var r := applet.seiface.apduResponse[..CONTAINER_RECORD];
        assert r == Data(applet.seiface.Response());
        if r[0] != 0 {
          if keypairsNum >= KEY_POOL_SIZE - 1 {
            return false;
          }
          AddKeyPair(r, i);
        }
      }
    }

    /** Reads the container records at offsets below `size` into the key pool. */
    method ReadContainers(size: nat, ghost c: Card, ghost f: EF)
      requires Valid() && keypairsNum == -1 && applet.Reading(c, f)
      requires size <= 0x8000 && |f.content| <= f.whole
      modifies applet.Device(), keypairs, this`keypairsNum
      ensures Valid() && applet.Following(c) && 0 <= keypairsNum && Looked(old(applet.Card()), applet.Card())
      ensures forall k :: 0 <= k < keypairsNum ==> !keypairs[k].hasCert
      ensures Pooled(applet.Card(), Listed()) == PoolRead(old(applet.Card()), applet.channel, size, 0, [])
      ensures old(applet.Losses()) <= applet.Losses()
      ensures applet.Losses() == old(applet.Losses()) ==> Listed() == PoolUpTo(f.content, RecordCount(f.content, size))
    {
      hide Undisturbed, Steady, Sound, Send, Current, ReadCommand, PoolStep, PoolRead, PoolUpTo, RecordCount, Looked;
      ghost var before, ch := applet.Card(), applet.channel;
      ghost var all := PoolRead(before, ch, size, 0, []);
      NothingLooked(before);
      PoolFromStart(before, ch, f, size);
      ghost var m := 0;
      var i: byte := 0;
      var offset := 0;
      assert keypairs[..keypairsNum + 1] == [];
      while offset < size
        invariant offset == m * CONTAINER_RECORD && i == m % 256
        invariant applet.Reading(c, f) && Filling() && Looked(before, applet.Card())
        invariant PoolRead(applet.Card(), ch, size, m, keypairs[..keypairsNum + 1]) == all
        decreases size - offset
      {
        ghost var now := applet.Card();
        NextRecord(now, ch, size, m, keypairs[..keypairsNum + 1]);
        var go := ReadContainer(offset, i, m, c, f);
        LookedMore(before, now, applet.Card());
        if !go {
          assert Pooled(applet.Card(), keypairs[..keypairsNum + 1]) == all;
          break;
        }
        i, offset := (i + 1) % 256, offset + 0x0B;
        m := m + 1;
      }
      NextRecord(applet.Card(), ch, size, m, keypairs[..keypairsNum + 1]);
      keypairsNum := keypairsNum + 1;
    }

    /** Every key pair marked with a certificate names a certificate file of the directory. */
    ghost predicate NamesCertificates(fs: Files)
      reads this, keypairs
    {
      keypairsNum <= keypairs.Length &&
      forall k :: 0 <= k < keypairsNum && keypairs[k].hasCert ==> keypairs[k].pubFileId in CertificatePaths(fs)
    }

    /** Names `fileId` as the certificate file of the first key pair of container `number`. */
    method MarkKeyPair(number: int, fileId: seq<byte>)
      requires Valid() && 0 <= keypairsNum
      modifies keypairs
      ensures Valid() && Listed() == Mark(old(Listed()), number, fileId)
      ensures SameKeys(old(Listed()), Listed())
      ensures forall k :: 0 <= k < keypairsNum && keypairs[k].hasCert ==>
                keypairs[k] == old(keypairs[k]) || keypairs[k].pubFileId == fileId
    {
      ghost var pool := Listed();
      var j := 0;
      while j < keypairsNum
        invariant 0 <= j <= keypairsNum && Listed() == pool
        invariant forall k :: 0 <= k < j ==> !For(pool[k], number)
        invariant forall k :: 0 <= k < KEY_POOL_SIZE ==> keypairs[k] == old(keypairs[k])
      {
        if keypairs[j].kid % 16 - 1 == number {
          MarkAt(pool, number, fileId, j);
          keypairs[j] := keypairs[j].(pubFileId := fileId, hasCert := true);
          assert Listed() == pool[j := pool[j].(pubFileId := fileId, hasCert := true)];
          return;
        }
        j := j + 1;
      }
      MarkAt(pool, number, fileId, j);
    }

    /** Goes through the directory records and marks the key pairs whose certificate files they name. */
    method MarkCertificates(count: byte, ghost c: Card, ghost d: EF)
      requires Valid() && 0 <= keypairsNum && applet.Reading(c, d)
      requires PATH in c.FilesOn(applet.channel) && d == c.FilesOn(applet.channel)[PATH]
      requires d.content != [] && count == d.content[0] && |d.content| <= d.whole
      requires NamesCertificates(c.FilesOn(applet.channel))
      modifies applet.Device(), keypairs
      ensures Valid() && applet.Following(c) && NamesCertificates(c.FilesOn(applet.channel))
      ensures Looked(old(applet.Card()), applet.Card())
      ensures old(applet.Losses()) <= applet.Losses()
      ensures SameKeys(old(Listed()), Listed())
      ensures applet.Losses() == old(applet.Losses()) ==> Listed() == Marked(old(Listed()), Entries(d.content))
    {
      hide Undisturbed, Steady, Sound, Send, Current, ReadCommand, EntryOf, MarkedBy, Looked, SameKeys, NamesCertificates;
      ghost var before, losses := applet.Card(), applet.Losses();
      NothingLooked(before);
      ghost var pool, es := Listed(), Entries(d.content);
      ghost var n := Count(d.content);
      SameKeysStill(pool, pool, pool);
      var i := 0;
      assert es[..0] == [];
      while i < count
        invariant i <= count as int && Valid() && applet.Reading(c, d) && NamesCertificates(c.FilesOn(applet.channel))
        invariant Looked(before, applet.Card()) && losses <= applet.Losses()
        invariant SameKeys(pool, Listed())
        invariant applet.Losses() == losses ==> Listed() == Marked(pool, es[..Min(i, n)])
      {
        ghost var now, marked := applet.Card(), Listed();
        MarkRecord(i, c, d);
        LookedMore(before, now, applet.Card());
        SameKeysStill(pool, marked, Listed());
        assert i < n ==> es[..i + 1][..i] == es[..i];
        i := i + 1;
      }
      assert es[..n] == es;
    }

    /** Reads one directory record and marks by it; one that cannot be read in full marks nothing. */
    method MarkRecord(i: nat, ghost c: Card, ghost d: EF)
      requires Valid() && 0 <= keypairsNum && applet.Reading(c, d)
      requires PATH in c.FilesOn(applet.channel) && d == c.FilesOn(applet.channel)[PATH]
      requires d.content != [] && i < d.content[0] && |d.content| <= d.whole
      requires NamesCertificates(c.FilesOn(applet.channel))
      modifies applet.Device(), keypairs
      ensures Valid() && applet.Reading(c, d) && NamesCertificates(c.FilesOn(applet.channel))
      ensures Looked(old(applet.Card()), applet.Card())
      ensures old(applet.Losses()) <= applet.Losses()
      ensures SameKeys(old(Listed()), Listed())
      ensures applet.Losses() == old(applet.Losses()) ==>
        Listed() == if i < Count(d.content) then MarkedBy(old(Listed()), Entries(d.content)[i]) else old(Listed())
    {
      hide Undisturbed, Steady, Sound, Send, Current, ReadCommand, EntryOf, MarkedBy, Looked, SameKeys, NamesCertificates;
      SameKeysStill(Listed(), Listed(), Listed());
      RecordPresent(d.content, i);
      var sent, done, len := applet.ReadBinary(1 + i * RECORD, 0x15, c, d);
      if done {
        MarkFrom(applet.seiface.apduResponse[..RECORD], i, c, d);
      }
    }

    /** One directory record: a certificate file of the MIAS key store marks its key pair. */
    method MarkFrom(record: seq<byte>, ghost k: nat, ghost c: Card, ghost d: EF)
      requires Valid() && 0 <= keypairsNum && applet.Reading(c, d)
      requires PATH in c.FilesOn(applet.channel) && d == c.FilesOn(applet.channel)[PATH]
      requires k < Count(d.content) && record == Record(d.content, k)
      requires NamesCertificates(c.FilesOn(applet.channel))
      modifies keypairs
      ensures Valid() && applet.Reading(c, d) && NamesCertificates(c.FilesOn(applet.channel))
      ensures Listed() == MarkedBy(old(Listed()), Entries(d.content)[k]) && SameKeys(old(Listed()), Listed())
    {
      hide Undisturbed, Steady, Sound, Send, Current;
      var e := EntryOf(record);
      assert e == Entries(d.content)[k] && e in Listing(c.FilesOn(applet.channel));
      if IsCertificate(e) {
        MarkKeyPair(NamedContainer(e), PathOf(e));
      }
    }

    /** Lists the key pairs the first time it succeeds; after that it answers from memory. */
    method ListKeyPairs(ghost c: Card) returns (ok: bool)
      requires Valid() && applet.Following(c)
      requires SaneIndex(c.FilesOn(applet.channel)) && NamesCertificates(c.FilesOn(applet.channel))
      modifies applet.Device(), keypairs, this`keypairsNum
      ensures Valid() && applet.Following(c) && NamesCertificates(c.FilesOn(applet.channel))
      ensures ok <==> keypairsNum != -1
      ensures Looked(old(applet.Card()), applet.Card())
      ensures old(keypairsNum) != -1 ==>
        ok && applet.Card() == old(applet.Card()) && Listed() == old(Listed())
      ensures old(applet.Losses()) <= applet.Losses()
      ensures old(keypairsNum) == -1 ==> ok == Lists(old(applet.Card()), applet.channel, c.FilesOn(applet.channel))
      ensures old(keypairsNum) == -1 && ok ==>
        ListedFrom(old(applet.Card()), applet.channel, c.FilesOn(applet.channel), Listed(), applet.Card())
      ensures old(keypairsNum) == -1 && applet.Losses() == old(applet.Losses()) ==>
        var index := Index(c.FilesOn(applet.channel));
        ok == index.Some? && (ok ==> Listed() == index.value)
    {
      hide Undisturbed, Steady, Sound, Send, Current, PoolRead, PoolUpTo, Marked, RecordCount, TotalSize, IsShortTemplate, Looked;
      ghost var before := applet.Card();
      NothingLooked(before);
      if keypairsNum != -1 {
        return true;
      }
      ghost var fs := c.FilesOn(applet.channel);
      var selected := applet.SelectPath(CONTAINERS, Some(0x15), c);
      if selected {
        var len := applet.GetResponseLength();
        if len > 2 {
          applet.AnswerStarts(fs[CONTAINERS].fcp);
          if applet.seiface.apduResponse[0] == TEMPLATE {
            var size := GetTotalSize(applet.seiface.apduResponse[..], 0, fs[CONTAINERS].fcp);
            ghost var now := applet.Card();
            ListSelected(size, c);
            LookedMore(before, now, applet.Card());
            return true;
          }
        }
      }
      return false;
    }

    /** The same once the containers' file is selected. */
    method ListSelected(size: nat, ghost c: Card)
      requires Valid() && keypairsNum == -1 && SaneIndex(c.FilesOn(applet.channel)) && NamesCertificates(c.FilesOn(applet.channel))
      requires CONTAINERS in c.FilesOn(applet.channel) && applet.Reading(c, c.FilesOn(applet.channel)[CONTAINERS]) && size <= 0x8000
      modifies applet.Device(), keypairs, this`keypairsNum
      ensures Valid() && applet.Following(c) && NamesCertificates(c.FilesOn(applet.channel)) && keypairsNum != -1
      ensures Looked(old(applet.Card()), applet.Card())
      ensures var p, fs := PoolRead(old(applet.Card()), applet.channel, size, 0, []), c.FilesOn(applet.channel);
              && SameKeys(p.pool, Listed()) && old(applet.Losses()) <= p.card.Losses() <= applet.Losses()
              && (p.card.Losses() == applet.Losses() ==> Listed() == Marked(p.pool, Listing(fs)))
              && (p.card.Losses() == old(applet.Losses()) ==>
                    p.pool == PoolUpTo(fs[CONTAINERS].content, RecordCount(fs[CONTAINERS].content, size)))
    {
      hide Undisturbed, Steady, Sound, Send, Current, PoolRead, PoolUpTo, Marked, RecordCount, Looked;
      ghost var before := applet.Card();
      ReadContainers(size, c, c.FilesOn(applet.channel)[CONTAINERS]);
      ghost var read := applet.Card();
      MarkDirectory(c);
      LookedMore(before, read, applet.Card());
    }

    /** The second half of `listKeyPairs`: without a readable directory no key pair is marked. */
    method MarkDirectory(ghost c: Card)
      requires Valid() && 0 <= keypairsNum && applet.Following(c)
      requires SaneIndex(c.FilesOn(applet.channel)) && NamesCertificates(c.FilesOn(applet.channel))
      modifies applet.Device(), keypairs
      ensures Valid() && applet.Following(c) && NamesCertificates(c.FilesOn(applet.channel))
      ensures Looked(old(applet.Card()), applet.Card())
      ensures old(applet.Losses()) <= applet.Losses()
      ensures SameKeys(old(Listed()), Listed())
      ensures applet.Losses() == old(applet.Losses()) ==> Listed() == Marked(old(Listed()), Listing(c.FilesOn(applet.channel)))
    {
      hide Undisturbed, Steady, Sound, Send, Current, EntryOf, IsShortTemplate, Looked;
      ghost var before := applet.Card();
      ghost var fs := c.FilesOn(applet.channel);
      var selected := applet.SelectPath(PATH, Some(0x15), c);
      if selected {
        ghost var now := applet.Card();
        var sent, done, len := applet.ReadBinary(0, 0x01, c, fs[PATH]);
        LookedMore(before, now, applet.Card());
        if done {
          ghost var read := applet.Card();
          MarkCertificates(applet.seiface.apduResponse[0], c, fs[PATH]);
          LookedMore(before, read, applet.Card());
        }
      }
    }

    /** The key pair of a container, as listed. */
    method GetKeyPairByContainerId(containerId: byte, ghost c: Card) returns (ok: bool, kp: KeyPair)
      requires Valid() && applet.Following(c)
      requires SaneIndex(c.FilesOn(applet.channel)) && NamesCertificates(c.FilesOn(applet.channel))
      modifies applet.Device(), keypairs, this`keypairsNum
      ensures Valid() && applet.Following(c) && NamesCertificates(c.FilesOn(applet.channel))
      ensures old(keypairsNum) != -1 ==> applet.Card() == old(applet.Card()) && keypairsNum != -1 && Listed() == old(Listed())
      ensures Looked(old(applet.Card()), applet.Card()) && old(applet.Losses()) <= applet.Losses()
      ensures old(keypairsNum) == -1 ==> (keypairsNum != -1 <==> Lists(old(applet.Card()), applet.channel, c.FilesOn(applet.channel)))
      ensures old(keypairsNum) == -1 && keypairsNum != -1 ==>
        ListedFrom(old(applet.Card()), applet.channel, c.FilesOn(applet.channel), Listed(), applet.Card())
      ensures old(keypairsNum) == -1 && applet.Losses() == old(applet.Losses()) ==>
        var index := Index(c.FilesOn(applet.channel));
        if index.Some? then keypairsNum != -1 && Listed() == index.value else keypairsNum == -1
      ensures ok == Lookup(Listed(), containerId).Some? && (ok ==> kp == Lookup(Listed(), containerId).value && kp in Listed())
    {
      hide Undisturbed, Steady, Sound, Send, Current, Index, SaneIndex, Looked, Lists, ListedFrom;
      var listed := ListKeyPairs(c);
      kp := KeyPair(0, 0, 0, [0, 0], false);
      var i := 0;
      while i < keypairsNum
        invariant 0 <= i <= |Listed()|
        invariant forall k :: 0 <= k < i ==> !For(Listed()[k], containerId)
      {
        if keypairs[i].kid % 16 - 1 == containerId {
          LookupFirst(Listed(), containerId, i);
          return true, keypairs[i];
        }
        i := i + 1;
      }
      return false, kp;
    }

    /**
     Reads the certificate of a container into `cert`, or only reports its length when `cert` is null.
     A certificate whose first two bytes are 01 00 is refused as compressed.
     */
    method GetCertificateByContainerId(containerId: byte, cert: array?<byte>, ghost c: Card) returns (ok: bool, certLen: nat)
      requires Valid() && applet.Following(c)
      requires var fs := c.FilesOn(applet.channel);
               && SaneIndex(fs) && SaneCertificates(fs) && NamesCertificates(fs)
               && (cert != null ==>
                     && cert !in applet.Device() && 2 <= cert.Length
                     && P11Objects.Fits(CertificateSizes(Steady(c) && Indexed(fs), fs, containerId), cert.Length))
      modifies applet.Device(), keypairs, this`keypairsNum, cert
      ensures Valid() && applet.Following(c) && NamesCertificates(c.FilesOn(applet.channel))
      ensures old(keypairsNum) != -1 ==> keypairsNum != -1 && Listed() == old(Listed())
      ensures old(applet.Losses()) <= applet.Losses()
      ensures old(keypairsNum) == -1 && applet.Losses() == old(applet.Losses()) ==>
        var index := Index(c.FilesOn(applet.channel));
        if index.Some? then keypairsNum != -1 && Listed() == index.value else keypairsNum == -1
      ensures var fs := c.FilesOn(applet.channel);
              ok ==> certLen in CertificateSizes(Steady(c) && old(Indexed(fs)), fs, containerId)
      ensures applet.Losses() == old(applet.Losses()) ==>
        var f := CertificateFile(c.FilesOn(applet.channel), Listed(), containerId);
        if f.None? then !ok else Walkable(f.value) && CertificateRead(f.value, 0, cert, ok, certLen)
    {
      hide Undisturbed, Steady, Sound, Send, Current, Index, SaneIndex, SaneCertificates, CertificatePaths, CertificateSizes,
           CertificateFile, CertificateRead, Lookup;
      ghost var fs, certain := c.FilesOn(applet.channel), Steady(c) && Indexed(c.FilesOn(applet.channel));
      var kp;
      ok, kp := GetKeyPairByContainerId(containerId, c);
      certLen := 0;
      FileNamed(fs, Listed(), containerId);
      if ok {
        ok := false;
        if kp.hasCert {
          var uninitialised: nat :| uninitialised < 0x10000;
          CertificatePathLength(fs, kp.pubFileId);
          if kp.pubFileId in fs {
            NamedSize(certain, fs, Listed(), containerId);
          }
          ok, certLen := ReadCertificate(kp.pubFileId, uninitialised, cert, c);
          if kp.pubFileId in fs {
            SameReading(fs[kp.pubFileId], uninitialised, cert, ok, certLen);
          }
        }
      }
    }

    static lemma SameReading(f: EF, garbage: nat, cert: array?<byte>, ok: bool, certLen: nat)
      requires Walkable(f) && SizeRead(f, garbage) == SizeRead(f, 0)
      ensures CertificateRead(f, garbage, cert, ok, certLen) == CertificateRead(f, 0, cert, ok, certLen)
    {
    }

    /**
     What reading a certificate file comes to when no command is lost, the size being held by a variable
     that held `garbage`: it succeeds exactly when the size is not 0 and what was read does not start with
     01 00; the bytes are in the buffer even then.
     */
    static ghost predicate CertificateRead(f: EF, garbage: nat, cert: array?<byte>, ok: bool, certLen: nat)
      requires Walkable(f)
      reads cert
    {
      var size := SizeRead(f, garbage);
      && (ok ==> certLen == size)
      && if cert == null then ok == (0 < size)
         else
           && 2 <= cert.Length && size <= cert.Length && size <= |f.content|
           && ok == (0 < size && !(cert[0] == 0x01 && cert[1] == 0x00))
           && cert[..size] == f.content[..size]
    }

    /**
     Reads the certificate file at `path`. The size is that of a variable nobody has set, unless the
     file's template states one.
     */
    method ReadCertificate(path: seq<byte>, uninitialised: nat, cert: array?<byte>, ghost c: Card) returns (ok: bool, certLen: nat)
      requires applet.Following(c) && |path| == 2
      requires path in c.FilesOn(applet.channel) ==> Walkable(c.FilesOn(applet.channel)[path])
      requires cert != null ==> cert !in applet.Device() && 2 <= cert.Length
      requires cert != null && path in c.FilesOn(applet.channel) ==>
        var f := c.FilesOn(applet.channel)[path];
        SizeRead(f, uninitialised) <= Min(cert.Length, Min(|f.content|, 0x8000))
      modifies applet.Device(), cert
      ensures applet.Following(c)
      ensures ok ==> path in c.FilesOn(applet.channel) && certLen == SizeRead(c.FilesOn(applet.channel)[path], uninitialised)
      ensures old(applet.Losses()) <= applet.Losses()
      ensures applet.Losses() == old(applet.Losses()) && path in c.FilesOn(applet.channel) ==>
        CertificateRead(c.FilesOn(applet.channel)[path], uninitialised, cert, ok, certLen)
    {
      hide Undisturbed, Steady, Sound, Send, Current, TotalSize, IsShortTemplate, Overlaid, InChunks;
      ghost var fs := c.FilesOn(applet.channel);
      ok, certLen := false, 0;
      var selected := applet.SelectPath(path, Some(0x1C), c);
      if selected {
        ghost var f := fs[path];
        applet.AnswerStarts(f.fcp);
        var efSize := uninitialised;
        if applet.seiface.apduResponse[0] == TEMPLATE {
          applet.AnswersTemplate(f.fcp);
          efSize := GetTotalSize(applet.seiface.apduResponse[..], uninitialised, f.fcp);
        }
        if efSize != 0 {
          certLen := efSize;
          if cert == null {
            return true, certLen;
          }
          ReadValue(cert, 0, efSize, c, f);
          ok := !(cert[0] == 0x01 && cert[1] == 0x00);
        }
      }
    }

    // ---- Cryptographic commands ----

    /** Sends a command with data whose meaning is opaque here and tells whether it succeeded. */
    method Perform(cla: byte, ins: byte, p1: byte, p2: byte, data: seq<byte>, le: Option<byte>, ghost c: Card) returns (ok: bool)
      requires applet.Following(c) && |data| <= 257 && (le.Some? ==> |data| <= 256) && cla in {0x00, 0x10} && ins in {0x20, MSE, PSO}
      modifies applet.Device()
      ensures applet.Following(c)
      ensures var s := Send(old(applet.Card()),
                            if le.Some? then Case4(OrBytes(cla, applet.channel), ins, p1, p2, data, le.value)
                            else Case3(OrBytes(cla, applet.channel), ins, p1, p2, data));
              ok == s.Succeeded() && applet.Card() == s.card && (ok ==> applet.seiface.Response() == s.answer.value)
    {
      hide Send, Undisturbed, Steady, OrBytes;
      RoutedClass(cla, applet.channel);
      ghost var d, ch := applet.Card(), applet.channel;
      ghost var apdu := if le.Some? then Case4(OrBytes(cla, ch), ins, p1, p2, data, le.value)
                        else Case3(OrBytes(cla, ch), ins, p1, p2, data);
      SendOpaque(d, apdu, ch);
      Onwards(c, d, Send(d, apdu).card, ch);
      if le.Some? {
        ok := applet.Transmit4(cla, ins, p1, p2, data, le.value);
      } else {
        ok := applet.Transmit3(cla, ins, p1, p2, data);
      }
      if ok {
        var sw := applet.GetStatusWord();
        ok := sw == OK;
      }
    }

    method VerifyPin(pin: seq<byte>, ghost c: Card) returns (ok: bool)
      requires applet.Following(c) && |pin| <= 256
      modifies applet.Device()
      ensures applet.Following(c)
      ensures var s := Send(old(applet.Card()), VerifyCommand(applet.channel, pin));
              ok == s.Succeeded() && applet.Card() == s.card
    {
      hide Undisturbed, Steady, Sound, Send, OrBytes;
      ok := Perform(0x00, 0x20, 0x00, 0x81, pin, None, c);
    }

    /** Hashes on the card block by block: the commands are those of `HashCommands`. */
    method PsoHashInternally(algorithm: byte, data: seq<byte>, ghost c: Card) returns (ok: bool)
      requires applet.Following(c) && |data| < 0x10000
      modifies applet.Device()
      ensures applet.Following(c)
      ensures algorithm !in {0x10, 0x30, 0x40, 0x50, 0x60} ==> !ok && applet.Card() == old(applet.Card())
      ensures algorithm in {0x10, 0x30, 0x40, 0x50, 0x60} ==>
        var p := Play(old(applet.Card()), HashCommands(applet.channel, if algorithm < 0x50 then 64 else 128, data), [0x90, 0x00]);
        && applet.Card() == p.card && ok == p.answer.Some?
        && old(applet.Card()).received <= applet.Card().received
        && (ok ==> Concat(Bodies(applet.Card().received[|old(applet.Card()).received|..])) == data)
    {
      var blockSize;
      if algorithm == 0x10 || algorithm == 0x30 || algorithm == 0x40 {
        blockSize := 64;
      } else if algorithm == 0x50 || algorithm == 0x60 {
        blockSize := 128;
      } else {
        return false;
      }
      HashHeard(applet.Card(), applet.channel, blockSize, data, [0x90, 0x00]);
      hide Play, HashCommands, Bodies, Concat;
      ok := HashBlockwise(blockSize, data, c);
    }

    lemma RoutedOwn(ch: byte)
      requires applet.Valid() && applet.isSelected && Sound(applet.Card(), applet.View()) && ch == applet.channel
      ensures OrBytes(0x00, ch) == ch
    {
      RoutedClass(0x00, ch);
    }

    method HashBlockwise(blockSize: nat, data: seq<byte>, ghost c: Card) returns (ok: bool)
      requires applet.Following(c) && 0 < blockSize < 256
      modifies applet.Device()
      ensures applet.Following(c)
      ensures var p := Play(old(applet.Card()), HashCommands(applet.channel, blockSize, data), [0x90, 0x00]);
              applet.Card() == p.card && ok == p.answer.Some?
    {
      hide Undisturbed, Steady, Send, Sound, Play, HashCommands;
      ghost var start, ch := applet.Card(), applet.channel;
      applet.Follows(c);
      RoutedOwn(ch);
      ghost var last: Answer := [0x90, 0x00];
      ghost var outcome := Play(start, HashCommands(ch, blockSize, data), last);
      var i := 0;
      assert data[0..] == data;
      while i < |data|
        invariant 0 <= i <= |data| && applet.Following(c)
        invariant outcome == Play(applet.Card(), HashCommands(ch, blockSize, data[i..]), last)
      {
        var l := |data| - i;
        if l > blockSize {
          l := blockSize;
        }
        PlayBlock(applet.Card(), ch, blockSize, data, i, l, last);
        ghost var sent := Send(applet.Card(), Case3(ch, PSO, 0x90, 0x80, data[i..i + l]));
        ok := Perform(0x00, PSO, 0x90, 0x80, data[i..i + l], None, c);
        if !ok {
          return false;
        }
        last := sent.answer.value;
        i := i + l;
      }
      assert data[i..] == [];
      PlayNothing(applet.Card(), ch, blockSize, last);
      return true;
    }

    /** Deciphers on the card: the commands are those of `DecipherCommands`, the result that of `Decipher`. */
    method PsoDecipher(data: seq<byte>, plain: array<byte>, ghost c: Card) returns (ok: bool, plainLen: nat)
      requires applet.Following(c) && |data| <= 511 && 256 <= plain.Length && plain !in applet.Device()
      modifies applet.Device(), plain
      ensures applet.Following(c)
      ensures var d := Decipher(old(applet.Card()), applet.channel, data);
              && applet.Card() == d.card && ok == d.plain.Some?
              && (ok ==> plainLen == |d.plain.value| <= plain.Length && plain[..plainLen] == d.plain.value)
    {
      hide Undisturbed, Steady, Send;
      ok, plainLen := false, 0;
      ghost var start, ch := applet.Card(), applet.channel;
      RoutedClass(0x00, ch);
      hide Sound;
      ghost var commands, last: Answer := DecipherCommands(ch, data), [0x90, 0x00];
      if |data| < 255 {
        PlayOne(start, commands[0], last);
        ok := Perform(0x00, PSO, 0x80, 0x86, [PADDING] + data, None, c);
        if !ok {
          return;
        }
      } else {
        PlayTwo(start, commands[0], commands[1], last);
        ok := Perform(0x10, PSO, 0x80, 0x86, [PADDING] + data[..254], None, c);
        if !ok {
          return;
        }
        PlayOne(applet.Card(), commands[1], applet.seiface.Response());
        ok := Perform(0x00, PSO, 0x80, 0x86, data[254..], None, c);
        if !ok {
          return;
        }
      }
      plainLen := applet.GetResponse(plain, 0);
      if plainLen == 0 {
        ok, plainLen := FetchPlain(plain, c);
      }
    }

    /** GET RESPONSE without Le, as `psoDecipher` sends it when the answer carries no data. */
    method FetchPlain(plain: array<byte>, ghost c: Card) returns (ok: bool, plainLen: nat)
      requires applet.Following(c) && 256 <= plain.Length && plain !in applet.Device()
      modifies applet.Device(), plain
      ensures applet.Following(c)
      ensures var s := Send(old(applet.Card()), Case1(applet.channel, GET_RESPONSE, 0x00, 0x00));
              && applet.Card() == s.card && ok == s.Succeeded()
              && (ok ==> plainLen == |Data(s.answer.value)| && plain[..plainLen] == Data(s.answer.value))
    {
      hide Undisturbed, Steady, Send;
      plainLen := 0;
      ghost var d, ch := applet.Card(), applet.channel;
      RoutedClass(0x00, ch);
      SendOpaque(d, Case1(ch, GET_RESPONSE, 0x00, 0x00), ch);
      Onwards(c, d, Send(d, Case1(ch, GET_RESPONSE, 0x00, 0x00)).card, ch);
      ok := applet.Transmit1(0x00, GET_RESPONSE, 0x00, 0x00);
      if ok {
        var sw := applet.GetStatusWord();
        ok := sw == OK;
        if ok {
          plainLen := applet.GetResponse(plain, 0);
        }
      }
    }

    /**
     Collects a signature: the first answer comes from PSO, the following ones from ENVELOPE with the
     Le the answer before gave. It succeeds exactly when all answers but the last carry data and 61xx
     and the last carries data and 9000.
     */
    method PsoComputeDigitalSignature(signature: array<byte>, ghost n: nat, ghost c: Card) returns (ok: bool, signatureLen: nat)
      requires applet.Following(c) && signature !in applet.Device()
      requires Ends(applet.Card(), applet.channel, n) && |AllData(applet.Card(), applet.channel, n + 1)| <= signature.Length
      modifies applet.Device(), signature
      ensures applet.Following(c)
      ensures var d, ch := old(applet.Card()), applet.channel;
              && ok == Completes(d, ch, n) && applet.Card() == Collected(d, ch, n).card
              && (ok ==> var all := AllData(d, ch, n + 1); signature[..|all|] == all && signatureLen == |all| % 0x10000)
    {
      hide Undisturbed, Steady, Sound, Send, Current, AllData, Collected, Holding, Ends, Continues, Completes;
      ghost var d, ch := applet.Card(), applet.channel;
      ghost var k := 0;
      signatureLen := 0;
      var at := 0;
      NoData(d, ch);
      AnswerDecides(d, ch, n, 0);
      NextCollected(d, ch, 0);
      var sent, len := Collect(PSO, 0x9E, 0x9A, 0x00, c, d, 0);
      if !sent {
        return false, 0;
      }
      while len > 0
        invariant k <= n && Holding(c, d, k) && applet.Following(c) && applet.Card() == Collected(d, ch, k).card
        invariant Collected(d, ch, k).answer.Some? && len == |Collected(d, ch, k).answer.value| - 2
        invariant at == |AllData(d, ch, k)| <= signature.Length && signature[..at] == AllData(d, ch, k)
        invariant signatureLen == at % 0x10000
        decreases n - k
      {
        var sw;
        AnswerDecides(d, ch, n, k);
        len, sw := Append(signature, at, d, k, n + 1, c);
        LengthAdds(at, len);
        at := at + len;
        signatureLen := (signatureLen + len) % 0x10000;
        if sw / 256 == 0x61 {
          k := k + 1;
          NextCollected(d, ch, k);
          AnswerDecides(d, ch, n, k);
          sent, len := Collect(ENVELOPE, 0x00, 0x00, sw % 256, c, d, k);
          if !sent {
            return false, signatureLen;
          }
        } else {
          return sw == OK, signatureLen;
        }
      }
      AnswerDecides(d, ch, n, k);
      return false, signatureLen;
    }

    lemma LengthAdds(a: nat, b: nat)
      ensures (a % 0x10000 + b) % 0x10000 == (a + b) % 0x10000
    {
      var q, r := a / 0x10000, a % 0x10000;
      assert a + b == 0x10000 * q + (r + b);
    }

    /** The interface holds the `k`-th answer of the signature begun at `d`. */
    ghost predicate Holding(c: Card, d: Card, k: nat)
      reads this, applet, if applet.seiface == null then {} else {applet.seiface, applet.seiface.apduResponse}
    {
      && applet.Following(c) && applet.Card() == Collected(d, applet.channel, k).card
      && Collected(d, applet.channel, k).answer == Some(applet.seiface.Response())
    }

    /** Copies the data of answer `k` behind those of the answers before it. */
    method Append(signature: array<byte>, at: nat, ghost d: Card, ghost k: nat, ghost n: nat, ghost c: Card) returns (len: nat, sw: nat)
      requires Holding(c, d, k) && signature !in applet.Device() && k < n
      requires at == |AllData(d, applet.channel, k)| && |AllData(d, applet.channel, n)| <= signature.Length
      requires at <= signature.Length && signature[..at] == AllData(d, applet.channel, k)
      modifies signature
      ensures Holding(c, d, k) && applet.Following(c) && applet.Card() == Collected(d, applet.channel, k).card
      ensures var a := Collected(d, applet.channel, k).answer; a.Some? && len == |a.value| - 2 && sw == Sw(a.value)
      ensures at + len <= signature.Length && at + len == |AllData(d, applet.channel, k + 1)|
      ensures signature[..at + len] == AllData(d, applet.channel, k + 1)
    {
      hide Undisturbed, Steady, Sound, Send, Current, AllData, Collected;
      OneMoreAnswer(d, applet.channel, k, n);
      len := applet.GetResponse(signature, at);
      if len > 0 {
        assert signature[..at + len] == signature[..at] + signature[at..at + len];
      }
      sw := applet.GetStatusWord();
    }

    /** One command of the chain that collects a signature begun at `d`. */
    method Collect(ins: byte, p1: byte, p2: byte, le: byte, ghost c: Card, ghost d: Card, ghost k: nat) returns (sent: bool, len: nat)
      requires applet.Following(c) && ins in {PSO, ENVELOPE}
      requires Collected(d, applet.channel, k) == Send(applet.Card(), Case2(applet.channel, ins, p1, p2, le))
      modifies applet.Device()
      ensures applet.Following(c) && applet.Card() == Collected(d, applet.channel, k).card
      ensures sent == Collected(d, applet.channel, k).answer.Some?
      ensures sent ==> Holding(c, d, k) && len == |Collected(d, applet.channel, k).answer.value| - 2
    {
      hide Undisturbed, Steady, Send, Collected;
      ghost var now, ch := applet.Card(), applet.channel;
      RoutedClass(0x00, ch);
      SendOpaque(now, Case2(ch, ins, p1, p2, le), ch);
      Onwards(c, now, Send(now, Case2(ch, ins, p1, p2, le)).card, ch);
      sent := applet.Transmit2(0x00, ins, p1, p2, le);
      len := applet.GetResponseLength();
    }

    /** The digest length that goes with an algorithm byte. */
    static function DigestLength(algorithm: byte): Option<nat> {
      if algorithm == 0x10 then Some(20)
      else if algorithm == 0x30 then Some(28)
      else if algorithm == 0x40 then Some(32)
      else if algorithm == 0x50 then Some(48)
      else if algorithm == 0x60 then Some(64)
      else None
    }

    /** Gives the card a digest to sign: as many bytes of `hash` as the algorithm's digest has. */
    method PsoHashExternally(algorithm: byte, hash: seq<byte>, ghost c: Card) returns (ok: bool)
      requires applet.Following(c)
      requires DigestLength(algorithm).Some? ==> DigestLength(algorithm).value <= |hash|
      modifies applet.Device()
      ensures applet.Following(c)
      ensures match DigestLength(algorithm)
              case None => !ok && applet.Card() == old(applet.Card())
              case Some(l) =>
                var s := Send(old(applet.Card()), DigestCommand(applet.channel, hash[..l]));
                ok == s.Succeeded() && applet.Card() == s.card
    {
      hide Undisturbed, Steady, Sound, Send, OrBytes;
      var l := DigestLength(algorithm);
      if l.None? {
        return false;
      }
      ok := Perform(0x00, PSO, 0x90, 0xA0, [0x90, l.value] + hash[..l.value], Some(0x00), c);
    }

    method SignInit(algorithm: byte, key: byte, ghost c: Card) returns (ok: bool)
      requires Valid() && applet.Following(c)
      modifies applet.Device(), this`signAlgo
      ensures Valid() && applet.Following(c) && signAlgo == algorithm
      ensures var s := Send(old(applet.Card()), InitCommand(applet.channel, 0xB6, algorithm, key));
              ok == s.Succeeded() && applet.Card() == s.card
    {
      hide Undisturbed, Steady, Sound, Send, OrBytes;
      signAlgo := algorithm;
      ok := Perform(0x00, MSE, 0x41, 0xB6, [0x80, 0x01, algorithm, 0x84, 0x01, key], None, c);
    }

    /** Signs a digest; `n` is how many of the card's answers promise more before the signature is complete. */
    method SignFinal(hash: seq<byte>, signature: array<byte>, ghost n: nat, ghost c: Card) returns (ok: bool, signatureLen: nat)
      requires Valid() && applet.Following(c) && signature !in applet.Device()
      requires DigestLength(signAlgo / 16 * 16).Some? ==>
        var l := DigestLength(signAlgo / 16 * 16).value;
        && l <= |hash|
        && var d, ch := Send(applet.Card(), DigestCommand(applet.channel, hash[..l])).card, applet.channel;
           Ends(d, ch, n) && |AllData(d, ch, n + 1)| <= signature.Length
      modifies applet.Device(), signature
      ensures Valid() && applet.Following(c)
      ensures DigestLength(signAlgo / 16 * 16).None? ==> !ok && applet.Card() == old(applet.Card())
      ensures DigestLength(signAlgo / 16 * 16).Some? ==>
        var s := Send(old(applet.Card()), DigestCommand(applet.channel, hash[..DigestLength(signAlgo / 16 * 16).value]));
        && applet.Card() == (if s.Succeeded() then Collected(s.card, applet.channel, n).card else s.card)
        && ok == (s.Succeeded() && Completes(s.card, applet.channel, n))
        && (ok ==> var all := AllData(s.card, applet.channel, n + 1); signature[..|all|] == all && signatureLen == |all| % 0x10000)
    {
      hide Undisturbed, Steady, Sound, Send, OrBytes, AllData, Collected, Ends, Completes;
      signatureLen := 0;
      ok := PsoHashExternally(signAlgo / 16 * 16, hash, c);
      if ok {
        ok, signatureLen := PsoComputeDigitalSignature(signature, n, c);
      }
    }

    method DecryptInit(algorithm: byte, key: byte, ghost c: Card) returns (ok: bool)
      requires applet.Following(c)
      modifies applet.Device()
      ensures applet.Following(c)
      ensures var s := Send(old(applet.Card()), InitCommand(applet.channel, 0xB8, algorithm, key));
              ok == s.Succeeded() && applet.Card() == s.card
    {
      hide Undisturbed, Steady, Sound, Send, OrBytes;
      ok := Perform(0x00, MSE, 0x41, 0xB8, [0x80, 0x01, algorithm, 0x84, 0x01, key], None, c);
    }
  }
}
