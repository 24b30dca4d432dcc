/**
 The other direction of P11Objects: how a card issuer lays out a directory and its data objects, and
 that what is found by label is what was laid out.
 */
module P11Layout {
  import opened Bytes
  import opened Cards
  import opened Directory
  import opened Fcp
  import opened P11Objects

  /**
   An object to be stored; its name is padded with `spaces`, and `lengthBytes` picks the BER form of the
   value's length (0 for the short form).
   */
  datatype DataObject = DataObject(
    lead: seq<byte>, name: seq<byte>, spaces: nat, application: seq<byte>, objectId: seq<byte>,
    value: seq<byte>, lengthBytes: nat, filler: seq<byte>)

  predicate Storable(o: DataObject) {
    && |o.lead| == 16 && 0 < |o.name| + o.spaces < 256 && (o.name != [] ==> o.name[|o.name| - 1] != 0x20) && |o.application| < 256 && |o.objectId| < 256
    && Measured(o)
  }

  /** The form of the length has room for it. */
  predicate Measured(o: DataObject) {
    match o.lengthBytes
    case 0 => |o.value| < 0x80
    case 1 => |o.value| < 0x100
    case _ => o.lengthBytes <= 4 && |o.value| < 0x10000
  }

  /** From the value's header on the file has the five bytes that are read there. */
  predicate Reaches(o: DataObject)
    requires Measured(o)
  {
    5 <= |Ber(o)| + |o.value| + |o.filler|
  }

  function Field(data: seq<byte>): seq<byte>
    requires |data| < 256
  {
    [|data|] + data
  }

  function Ber(o: DataObject): seq<byte>
    requires Measured(o)
  {
    if o.lengthBytes == 0 then [|o.value|]
    else if o.lengthBytes == 1 then [0x81, |o.value|]
    else [0x80 + o.lengthBytes] + seq(o.lengthBytes - 2, _ => 0) + [|o.value| / 256, |o.value| % 256]
  }

  /** The name as it is stored. */
  function Label(o: DataObject): (text: seq<byte>)
    ensures |text| == |o.name| + o.spaces
  {
    o.name + seq(o.spaces, _ => 0x20)
  }

  function FileOf(o: DataObject): seq<byte>
    requires Storable(o)
  {
    o.lead + Field(Label(o)) + Field(o.application) + Field(o.objectId) + Ber(o) + o.value + o.filler
  }

  /** Leading zeros do not change a big-endian number of two significant bytes. */
  lemma {:induction false} PaddedWord(zeros: seq<byte>, hi: byte, lo: byte)
    requires forall i :: 0 <= i < |zeros| ==> zeros[i] == 0
    ensures BigEndian(zeros + [hi, lo]) == Word(hi, lo)
  {
    var s := zeros + [hi, lo];
    assert s[..|s| - 1] == zeros + [hi] && (zeros + [hi])[..|zeros|] == zeros;
    AllZero(zeros);
  }

  lemma {:induction false} AllZero(zeros: seq<byte>)
    requires forall i :: 0 <= i < |zeros| ==> zeros[i] == 0
    ensures BigEndian(zeros) == 0
  {
    if zeros != [] {
      AllZero(zeros[..|zeros| - 1]);
    }
  }

  /** The reader finds the header of the value exactly when the file has five bytes there. */
  lemma HeaderFoundExactly(o: DataObject)
    requires Storable(o)
    ensures ValueHeader(FileOf(o)).Some? <==> Reaches(o)
  {
    StoredFields(o);
  }

  /** The reader finds in a stored object the name, without its padding, and the value that were stored, unless the length is in the one-byte long form. */
  lemma StoredObject(o: DataObject)
    requires Storable(o) && Reaches(o) && o.lengthBytes != 1
    ensures var content := FileOf(o);
            && RawLabel(content) == Some(Label(o)) && Trim(Label(o)) == o.name
            && ValueHeader(content).Some? && Determinate(content[ValueHeader(content).value])
            && var v := ValueSpan(content, ValueHeader(content).value);
               v.start + v.size <= |content| && content[v.start..v.start + v.size] == o.value
  {
    hide FileOf, Ber, Field, RawLabel, ValueHeader;
    var content, ber := FileOf(o), Ber(o);
    var at := 19 + |Label(o)| + |o.application| + |o.objectId|;
    TrimPadded(o.name, o.spaces);
    StoredFields(o);
    StoredValue(o);
    BerDecodes(o);
    assert content[at] == content[at..at + |ber|][0] && content[at + 1..at + |ber|] == ber[1..];
  }

  /**
   DER's own form for values of 128 to 255 bytes: the header of such an object is found, but the size
   decoded from it is the value's exactly when the variable it is shifted into happened to end in a zero byte.
   */
  lemma OneLengthByteMisread(o: DataObject, garbage: nat, rest: seq<byte>)
    requires Storable(o) && Reaches(o) && o.lengthBytes == 1 && |rest| >= 16
    ensures var content := FileOf(o);
            && ValueHeader(content).Some? && content[ValueHeader(content).value] == 0x81
            && var record := content[ValueHeader(content).value..ValueHeader(content).value + 5] + rest;
               DecodedSize(record, garbage) == |o.value| <==> garbage % 256 == 0
  {
    hide FileOf, Field, RawLabel, ValueHeader;
    var content, ber := FileOf(o), Ber(o);
    var at := 19 + |Label(o)| + |o.application| + |o.objectId|;
    StoredFields(o);
    StoredValue(o);
    assert content[at] == content[at..at + 2][0] == 0x81 && content[at + 1] == content[at..at + 2][1] == |o.value|;
    var record := content[at..at + 5] + rest;
    assert record[1..2] == [|o.value|];
    OneByteIsLeftToChance(garbage, |o.value|);
    assert [ber[1]][..0] == [] && BigEndian([ber[1]]) == |o.value|;
  }

  lemma StoredValue(o: DataObject)
    requires Storable(o)
    ensures var content, at, ber := FileOf(o), 19 + |Label(o)| + |o.application| + |o.objectId|, Ber(o);
            && at + |ber| + |o.value| <= |content|
            && content[at..at + |ber|] == ber && content[at + |ber|..at + |ber| + |o.value|] == o.value
  {
    Slices(o.lead + Field(Label(o)) + Field(o.application) + Field(o.objectId), Ber(o), o.value, o.filler);
  }

  lemma Slices(prefix: seq<byte>, ber: seq<byte>, value: seq<byte>, filler: seq<byte>)
    ensures var all, at := prefix + ber + value + filler, |prefix|;
            && at + |ber| + |value| <= |all|
            && all[at..at + |ber|] == ber && all[at + |ber|..at + |ber| + |value|] == value
  {
  }

  lemma BerDecodes(o: DataObject)
    requires Storable(o)
    ensures var ber := Ber(o);
            && |ber| == 1 + o.lengthBytes && (o.lengthBytes != 1 ==> Determinate(ber[0]))
            && (if o.lengthBytes == 0 then ber[0] == |o.value| < 0x80
                else ber[0] == 0x80 + o.lengthBytes && BigEndian(ber[1..]) == |o.value|)
  {
    if o.lengthBytes == 1 {
      assert Ber(o)[1..] == [|o.value|] && [|o.value|][..0] == [];
    } else if o.lengthBytes > 0 {
      var zeros := seq(o.lengthBytes - 2, _ => 0);
      assert Ber(o)[1..] == zeros + [|o.value| / 256, |o.value| % 256];
      PaddedWord(zeros, |o.value| / 256, |o.value| % 256);
    }
  }

  lemma StoredFields(o: DataObject)
    requires Storable(o)
    ensures var content := FileOf(o);
            && RawLabel(content) == Some(Label(o))
            && ValueHeader(content) == if Reaches(o) then Some(19 + |Label(o)| + |o.application| + |o.objectId|) else None
  {
    hide Ber;
    var rest := Ber(o) + o.value + o.filler;
    assert FileOf(o) == o.lead + Field(Label(o)) + Field(o.application) + Field(o.objectId) + rest;
    FieldBytes(o.lead, Label(o), o.application, o.objectId, rest);
    hide FileOf, Field;
  }

  lemma FieldBytes(lead: seq<byte>, a: seq<byte>, b: seq<byte>, c: seq<byte>, rest: seq<byte>)
    requires |lead| == 16 && |a| < 256 && |b| < 256 && |c| < 256
    ensures var all := lead + Field(a) + Field(b) + Field(c) + rest;
            && |all| == 19 + |a| + |b| + |c| + |rest|
            && all[16] == |a| && all[17..17 + |a|] == a && all[17 + |a|] == |b| && all[18 + |a| + |b|] == |c|
  {
  }

  // ---- The directory ----

  predicate Listable(e: Entry) {
    e.efid < 0x10000 && e.size < 0x10000 && |e.name| == 8 && |e.dir| == 8
  }

  function RecordOf(e: Entry): (r: seq<byte>)
    requires Listable(e)
    ensures |r| == RECORD
  {
    [e.efid / 256, e.efid % 256, e.size / 256, e.size % 256] + e.name + e.dir + [0]
  }

  function Records(es: seq<Entry>): (r: seq<byte>)
    requires forall e :: e in es ==> Listable(e)
    ensures |r| == |es| * RECORD
  {
    if es == [] then [] else RecordOf(es[0]) + Records(es[1..])
  }

  function DirectoryFile(es: seq<Entry>): seq<byte>
    requires |es| < 256 && forall e :: e in es ==> Listable(e)
  {
    [|es|] + Records(es)
  }

  lemma {:induction false} RecordAt(es: seq<Entry>, k: nat)
    requires k < |es| && forall e :: e in es ==> Listable(e)
    ensures Records(es)[k * RECORD..k * RECORD + RECORD] == RecordOf(es[k])
  {
    var r := Records(es);
    if k > 0 {
      RecordAt(es[1..], k - 1);
      assert r[k * RECORD..k * RECORD + RECORD] == r[RECORD..][(k - 1) * RECORD..(k - 1) * RECORD + RECORD];
    }
  }

  lemma EntryRecord(e: Entry)
    requires Listable(e)
    ensures EntryOf(RecordOf(e)) == e
  {
    var r := RecordOf(e);
    assert r[4..12] == e.name && r[12..20] == e.dir;
  }

  /** Data files by their names; and the path of any file is the first two bytes of its record. */
  lemma DataNames(e: Entry)
    requires Listable(e)
    ensures IsData(e) <==> e.dir[..4] == Text("p11") + [0x00] && (e.name[..6] == Text("pubdat") || e.name[..6] == Text("pridat"))
    ensures PathOf(e) == RecordOf(e)[..2]
  {
    assert P11 == Text("p11") + [0x00] && PUBDAT == Text("pubdat") && PRIDAT == Text("pridat");
  }

  /** Listing a stored directory gives back its entries, in order. */
  lemma StoredDirectory(es: seq<Entry>)
    requires |es| < 256 && forall e :: e in es ==> Listable(e)
    ensures Entries(DirectoryFile(es)) == es
  {
    var content := DirectoryFile(es);
    assert Count(content) == |es|;
    forall k | 0 <= k < |es|
      ensures Entries(content)[k] == es[k]
    {
      RecordAt(es, k);
      assert Record(content, k) == Records(es)[k * RECORD..k * RECORD + RECORD];
      EntryRecord(es[k]);
    }
  }

  // ---- Directory and objects together ----

  predicate Stored(files: Files, e: Entry, objects: map<seq<byte>, DataObject>) {
    && Listable(e)
    && (IsData(e) ==>
          && PathOf(e) in objects && Storable(objects[PathOf(e)])
          && PathOf(e) in files && files[PathOf(e)].content == FileOf(objects[PathOf(e)]))
  }

  /** Every entry of the directory `es` that is a data file has its object stored under its path. */
  predicate AllStored(files: Files, es: seq<Entry>, objects: map<seq<byte>, DataObject>) {
    forall k :: 0 <= k < |es| ==> Stored(files, es[k], objects)
  }

  /** The object is wanted by its name, and its value's header can be read. */
  predicate Named(o: DataObject, wanted: seq<byte>)
    requires Storable(o)
  {
    o.name == wanted && Reaches(o)
  }

  /** The value of the first stored object of that name. */
  function FirstNamed(files: Files, es: seq<Entry>, objects: map<seq<byte>, DataObject>, wanted: seq<byte>): Option<seq<byte>>
    requires AllStored(files, es, objects)
  {
    if es == [] then None
    else
      assert Stored(files, es[0], objects);
      if IsData(es[0]) && Named(objects[PathOf(es[0])], wanted) then Some(objects[PathOf(es[0])].value)
      else FirstNamed(files, es[1..], objects, wanted)
  }

  /** What `p11GetObjectByLabel` is meant to return is the first object that was stored under that name. */
  lemma StoredObjectIsFound(files: Files, es: seq<Entry>, objects: map<seq<byte>, DataObject>, wanted: seq<byte>)
    requires |es| < 256 && AllStored(files, es, objects)
    requires (forall e :: e in es ==> Listable(e)) && [0x01, 0x01] in files && files[[0x01, 0x01]].content == DirectoryFile(es)
    requires SaneFiles(files, wanted)
    ensures Object(files, wanted) == FirstNamed(files, es, objects, wanted)
  {
    StoredDirectory(es);
    hide Sane, Value, Matches, Stored;
    FindNamed(files, es, objects, wanted);
  }

  predicate SaneData(files: Files, e: Entry, wanted: seq<byte>) {
    e.efid < 0x10000 && (IsData(e) && PathOf(e) in files ==> Sane(files[PathOf(e)], wanted))
  }

  lemma {:induction false} FindNamed(files: Files, es: seq<Entry>, objects: map<seq<byte>, DataObject>, wanted: seq<byte>)
    requires AllStored(files, es, objects)
    requires forall k :: 0 <= k < |es| ==> SaneData(files, es[k], wanted)
    ensures var r := Find(files, es, wanted);
            match FirstNamed(files, es, objects, wanted)
            case None => r.None?
            case Some(v) => r.Some? && SaneData(files, r.value, wanted) && Value(files, r.value, wanted) == v
  {
    hide Sane, Value, Stored;
    if es != [] {
      StoredEntry(files, es[0], objects, wanted);
      FindNamed(files, es[1..], objects, wanted);
    }
  }

  /** A header that determines its value is not in the one-byte long form. */
  lemma NotOneByte(o: DataObject)
    requires Storable(o) && Reaches(o)
    ensures ValueHeader(FileOf(o)).Some?
    ensures Determinate(FileOf(o)[ValueHeader(FileOf(o)).value]) ==> o.lengthBytes != 1
  {
    hide FileOf, Field, RawLabel, ValueHeader;
    var content, at := FileOf(o), 19 + |Label(o)| + |o.application| + |o.objectId|;
    StoredFields(o);
    StoredValue(o);
    assert content[at] == content[at..at + |Ber(o)|][0];
  }

  lemma StoredEntry(files: Files, e: Entry, objects: map<seq<byte>, DataObject>, wanted: seq<byte>)
    requires Stored(files, e, objects) && SaneData(files, e, wanted)
    ensures Listable(e) && (IsData(e) ==> PathOf(e) in objects && Storable(objects[PathOf(e)]))
    ensures Matches(files, e, wanted) <==> IsData(e) && Named(objects[PathOf(e)], wanted)
    ensures Matches(files, e, wanted) ==> Value(files, e, wanted) == objects[PathOf(e)].value
  {
    if IsData(e) {
      var o := objects[PathOf(e)];
      StoredFields(o);
      TrimPadded(o.name, o.spaces);
      if Named(o, wanted) {
        assert Holds(FileOf(o), wanted);
        NotOneByte(o);
        StoredObject(o);
      }
    }
  }
}
