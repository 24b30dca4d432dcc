/**
 A card on which a size query and the delivery after it read different objects: it stores an object
 under both names and refuses a single command, the first request for a channel.
 */
module Refusal {
  import opened Bytes
  import opened Cards
  import opened Channels
  import opened Directory
  import opened P11Layout
  import opened Sdk
  import opened Extraction
  import MIASs
  import P11Objects

  // ---- Files with two objects ----

  /** Directory entries of two data files. */
  predicate TwoData(a: Entry, b: Entry) {
    && Listable(a) && Listable(b) && P11Objects.IsData(a) && P11Objects.IsData(b)
    && PathOf(a) != PathOf(b) && PathOf(a) != PATH && PathOf(b) != PATH
  }

  /** There are such entries. */
  lemma DataEntries()
    ensures TwoData(Entry(0x1001, 0, P11Objects.PUBDAT + [0x31, 0x00], P11Objects.P11 + [0, 0, 0, 0]),
                    Entry(0x1002, 0, P11Objects.PRIDAT + [0x32, 0x00], P11Objects.P11 + [0, 0, 0, 0]))
  {
    var a := Entry(0x1001, 0, P11Objects.PUBDAT + [0x31, 0x00], P11Objects.P11 + [0, 0, 0, 0]);
    var b := Entry(0x1002, 0, P11Objects.PRIDAT + [0x32, 0x00], P11Objects.P11 + [0, 0, 0, 0]);
    assert P11Objects.P11 <= a.dir && P11Objects.PUBDAT <= a.name;
    assert P11Objects.P11 <= b.dir && P11Objects.PRIDAT <= b.name;
    assert PathOf(a)[1] == 1 && PathOf(b)[1] == 2 && PathOf(a)[0] == PathOf(b)[0] == 0x10;
  }

  function ObjectOf(name: seq<byte>, value: seq<byte>): DataObject {
    DataObject(seq(16, _ => 0), name, 0, [], [], value, 2, [])
  }

  /** Values that two length bytes measure and that end below the limit of READ BINARY. */
  predicate Storable2(name: seq<byte>, value: seq<byte>) {
    0 < |name| <= 20 && name[|name| - 1] != 0x20 && 2 <= |value| <= 0x7000
  }

  function WholeFile(content: seq<byte>): EF {
    File([], content, |content|)
  }

  function TwoObjects(a: Entry, one: seq<byte>, x: seq<byte>, b: Entry, two: seq<byte>, y: seq<byte>): Files
    requires TwoData(a, b) && Storable2(one, x) && Storable2(two, y)
  {
    map[PATH := WholeFile(DirectoryFile([a, b])),
        PathOf(a) := WholeFile(FileOf(ObjectOf(one, x))),
        PathOf(b) := WholeFile(FileOf(ObjectOf(two, y)))]
  }

  lemma SaneObject(name: seq<byte>, value: seq<byte>, wanted: seq<byte>)
    requires Storable2(name, value)
    ensures P11Objects.Sane(WholeFile(FileOf(ObjectOf(name, value))), wanted)
  {
    hide FileOf, Ber, P11Objects.Trim, P11Objects.ValueSpan, P11Objects.RawLabel, P11Objects.ValueHeader;
    var o := ObjectOf(name, value);
    assert Label(o) == name;
    TwoReach(name, value);
    StoredObject(o);
    StoredFields(o);
    ObjectLength(name, value);
    ObjectSpan(name, value);
  }

  lemma ObjectLength(name: seq<byte>, value: seq<byte>)
    requires Storable2(name, value)
    ensures |FileOf(ObjectOf(name, value))| == 19 + |name| + 3 + |value|
  {
  }

  /** Its value ends with the file. */
  lemma ObjectSpan(name: seq<byte>, value: seq<byte>)
    requires Storable2(name, value)
    ensures var content, at := FileOf(ObjectOf(name, value)), 19 + |name|;
            && at + 5 <= |content| && P11Objects.Determinate(content[at])
            && var v := P11Objects.ValueSpan(content, at); v.start + v.size == |content|
  {
    var o := ObjectOf(name, value);
    var content, at := FileOf(o), 19 + |name|;
    assert Label(o) == name;
    ObjectLength(name, value);
    BerDecodes(o);
    StoredValue(o);
    hide FileOf, Ber;
    assert content[at] == content[at..at + |Ber(o)|][0] == Ber(o)[0];
    assert content[at + 1..at + 3] == content[at..at + |Ber(o)|][1..];
  }

  /** Both objects are found under their names. */
  lemma BothFound(a: Entry, one: seq<byte>, x: seq<byte>, b: Entry, two: seq<byte>, y: seq<byte>)
    requires TwoData(a, b) && Storable2(one, x) && Storable2(two, y) && one != two
    ensures var fs := TwoObjects(a, one, x, b, two, y);
            && P11Objects.SaneFiles(fs, one) && P11Objects.SaneFiles(fs, two)
            && P11Objects.Object(fs, one) == Some(x) && P11Objects.Object(fs, two) == Some(y)
  {
    var fs, es := TwoObjects(a, one, x, b, two, y), [a, b];
    var objects := map[PathOf(a) := ObjectOf(one, x), PathOf(b) := ObjectOf(two, y)];
    TwoSane(a, one, x, b, two, y, one);
    TwoSane(a, one, x, b, two, y, two);
    TwoStored(a, one, x, b, two, y);
    hide TwoObjects, FileOf, DirectoryFile, P11Objects.IsData, Stored, P11Objects.SaneFiles, P11Objects.Object, FirstNamed, Reaches, Label;
    assert forall e :: e in es ==> Listable(e);
    StoredObjectIsFound(fs, es, objects, one);
    StoredObjectIsFound(fs, es, objects, two);
    FirstOfTwo(fs, a, b, objects, one);
    FirstOfTwo(fs, a, b, objects, two);
    TwoReach(one, x);
    TwoReach(two, y);
  }

  lemma TwoReach(name: seq<byte>, value: seq<byte>)
    requires Storable2(name, value)
    ensures Storable(ObjectOf(name, value)) && Reaches(ObjectOf(name, value))
  {
  }

  lemma TwoSane(a: Entry, one: seq<byte>, x: seq<byte>, b: Entry, two: seq<byte>, y: seq<byte>, wanted: seq<byte>)
    requires TwoData(a, b) && Storable2(one, x) && Storable2(two, y)
    ensures P11Objects.SaneFiles(TwoObjects(a, one, x, b, two, y), wanted)
  {
    StoredDirectory([a, b]);
    SaneObject(one, x, wanted);
    SaneObject(two, y, wanted);
    hide FileOf, DirectoryFile, P11Objects.IsData, Listable, PathOf, P11Objects.Sane, Entries;
  }

  lemma TwoStored(a: Entry, one: seq<byte>, x: seq<byte>, b: Entry, two: seq<byte>, y: seq<byte>)
    requires TwoData(a, b) && Storable2(one, x) && Storable2(two, y)
    ensures var fs, objects := TwoObjects(a, one, x, b, two, y), map[PathOf(a) := ObjectOf(one, x), PathOf(b) := ObjectOf(two, y)];
            && AllStored(fs, [a, b], objects)
            && [0x01, 0x01] in fs && fs[[0x01, 0x01]].content == DirectoryFile([a, b])
  {
    TwoReach(one, x);
    TwoReach(two, y);
    hide FileOf, DirectoryFile, P11Objects.IsData, PathOf, Storable;
  }

  lemma FirstOfTwo(fs: Files, a: Entry, b: Entry, objects: map<seq<byte>, DataObject>, wanted: seq<byte>)
    requires TwoData(a, b) && AllStored(fs, [a, b], objects)
    ensures Stored(fs, a, objects) && Stored(fs, b, objects)
    ensures var o, p := objects[PathOf(a)], objects[PathOf(b)];
            FirstNamed(fs, [a, b], objects, wanted) ==
            if Named(o, wanted) then Some(o.value) else if Named(p, wanted) then Some(p.value) else None
  {
    hide Named, P11Objects.IsData, FileOf, Storable;
    var es := [a, b];
    var rest := es[1..];
    assert Stored(fs, es[0], objects) && Stored(fs, es[1], objects);
    assert rest == [b] && |rest[1..]| == 0;
    assert FirstNamed(fs, rest[1..], objects, wanted) == None;
    assert FirstNamed(fs, rest, objects, wanted) == if Named(objects[PathOf(b)], wanted) then Some(objects[PathOf(b)].value) else None;
  }

  // ---- One refusal ----

  /** Every command arrives, is accepted and answered 9000, except that the first request for a channel is refused. */
  function RefusesOnce(fs: Files): Card {
    Card(map[MIASs.AID := fs], map[], t => Choice(false, t == 0, true, 1, 0, [], _ => [0x90, 0x00]), 0, [])
  }

  /** From the second command on it obliges. */
  lemma ObligesAfterwards(fs: Files, d: Card, pin: seq<byte>)
    requires d.apps == RefusesOnce(fs).apps && d.open == map[] && d.env == RefusesOnce(fs).env && 1 <= d.tick
    ensures Obliging(d, MIASs.AID, pin)
  {
  }

  /**
   The query, begun on this card, reads the object under the older name; every delivery after it reads
   the other one, and may not be given a buffer of the queried size when its object is longer.
   */
  lemma QueryMisleads(a: Entry, one: seq<byte>, x: seq<byte>, b: Entry, two: seq<byte>, y: seq<byte>, pin: seq<byte>,
                      v: View, e: Card, w: View, buffer: array<byte>)
    requires TwoData(a, b) && Storable2(one, x) && Storable2(two, y) && one != two
    requires v.aid == w.aid == MIASs.AID && !v.selected && !w.selected
    requires var c := RefusesOnce(TwoObjects(a, one, x, b, two, y));
             e.apps == c.apps && e.open == c.open && Counted(Selected(c, v).card, e)
    requires buffer.Length == |y| < |x|
    ensures var c := RefusesOnce(TwoObjects(a, one, x, b, two, y));
            && FilesOf(c, MIASs.AID) == FilesOf(e, MIASs.AID) == TwoObjects(a, one, x, b, two, y)
            && P11Objects.SaneFiles(FilesOf(c, MIASs.AID), one) && P11Objects.SaneFiles(FilesOf(c, MIASs.AID), two)
            && SDK.ReadOnce(c, v, Selected(c, v).card, one, pin, ERR_MIAS_READ_OBJECT) && SDK.NameRead(ERR_MIAS_READ_OBJECT, one, two) == two
            && SDK.P11Outcome(Selected(c, v).card, Selected(c, v).view.(selected := false), two, pin) == 0
            && SDK.P11Outcome(e, w, one, pin) == 0 && SDK.NameRead(0, one, two) == one
            && P11Objects.Object(FilesOf(c, MIASs.AID), one) == Some(x) && P11Objects.Object(FilesOf(c, MIASs.AID), two) == Some(y)
            && !SDK.HoldsEither(e, w, one, two, pin, buffer, 0)
  {
    var fs := TwoObjects(a, one, x, b, two, y);
    var c := RefusesOnce(fs);
    BothFound(a, one, x, b, two, y);
    hide TwoObjects, P11Objects.SaneFiles, P11Objects.Object, Storable2;
    Refused(c, v, fs);
    var d := Selected(c, v).card;
    SteadyArrives(c, v, pin);
    SteadyArrives(d, v, pin);
    SteadyArrives(e, w, pin);
    ObligesAfterwards(fs, d, pin);
    ObligesAfterwards(fs, e, pin);
    ObligingOutcome(d, Selected(c, v).view.(selected := false), two, pin);
    ObligingOutcome(e, w, one, pin);
    assert |x| in SDK.ReadSizes(e, w, one, pin);
  }

  lemma Refused(c: Card, v: View, fs: Files)
    requires c == RefusesOnce(fs) && !v.selected && v.aid == MIASs.AID
    ensures var s := Selected(c, v);
            !s.ok && s.view == v && s.card == c.(tick := 1, received := [OPEN]) && OneSession(c, v, s.card)
  {
    assert !Send(c, OPEN).Succeeded();
  }
}
