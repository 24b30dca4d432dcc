/**
 PKCS#11 data objects on the card. A data file holds 16 bytes of no interest here, then length-value
 fields: label, CKA_APPLICATION, CKA_OBJECT_ID, and the value behind a BER length.
 */
module P11Objects {
  import opened Bytes
  import opened Cards
  import opened Directory
  import opened Fcp

  const SPACE: byte := 0x20
  const P11: seq<byte> := [0x70, 0x31, 0x31, 0x00]               // "p11", terminated
  const PUBDAT: seq<byte> := [0x70, 0x75, 0x62, 0x64, 0x61, 0x74]
  const PRIDAT: seq<byte> := [0x70, 0x72, 0x69, 0x64, 0x61, 0x74]

  /** Whether a directory entry is a public or private data file of the p11 directory. */
  predicate IsData(e: Entry) {
    P11 <= e.dir && (PUBDAT <= e.name || PRIDAT <= e.name)
  }

  /** The text without its trailing spaces. */
  function Trim(s: seq<byte>): seq<byte> {
    if s != [] && s[|s| - 1] == SPACE then Trim(s[..|s| - 1]) else s
  }

  /** However many spaces a name is padded with, they come off and nothing else does. */
  lemma {:induction false} TrimPadded(name: seq<byte>, n: nat)
    ensures (name != [] ==> name[|name| - 1] != 0x20) ==> Trim(name + seq(n, _ => 0x20)) == name
  {
    var padded := name + seq(n, _ => 0x20);
    if n > 0 {
      assert padded[..|padded| - 1] == name + seq(n - 1, _ => 0x20);
      TrimPadded(name, n - 1);
    } else {
      assert padded == name;
    }
  }

  /** The stored label field, when it is complete. */
  function RawLabel(content: seq<byte>): Option<seq<byte>> {
    if |content| > 16 && content[16] > 0 && 17 + content[16] <= |content| then
      Some(content[17..17 + content[16]])
    else None
  }

  /** The offset behind the length-value field at `at`. */
  function Skip(content: seq<byte>, at: nat): Option<nat> {
    if at < |content| then Some(at + 1 + content[at]) else None
  }

  /** The offset of the value's BER header, five bytes of which must exist. */
  function ValueHeader(content: seq<byte>): (at: Option<nat>)
    ensures at.Some? ==> RawLabel(content).Some? && 17 < at.value && at.value + 5 <= |content|
  {
    var raw := RawLabel(content);
    if raw.None? then None else
    var id := Skip(content, 17 + |raw.value|);
    if id.None? then None else
    var value := Skip(content, id.value);
    if value.None? || value.value + 5 > |content| then None else value
  }

  /** The header forms that determine a 16-bit size: one byte below 0x80, or 2 to 4 length bytes. */
  predicate Determinate(b: byte) {
    b < 0x80 || 2 <= b % 16 <= 4
  }

  datatype Span = Span(start: nat, size: nat)

  /** Where the value lies, by its header at `at`. */
  function ValueSpan(content: seq<byte>, at: nat): Span
    requires at + 5 <= |content| && Determinate(content[at])
  {
    var b := content[at];
    if b < 0x80 then Span(at + 1, b)
    else Span(at + 1 + b % 16, BigEndian(content[at + 1..at + 1 + b % 16]) % 0x10000)
  }

  /** Whether the file holds an object with this label, all its fields present. */
  predicate Holds(content: seq<byte>, wanted: seq<byte>) {
    ValueHeader(content).Some? && Trim(RawLabel(content).value) == wanted
  }

  predicate Matches(files: Files, e: Entry, wanted: seq<byte>) {
    IsData(e) && e.efid < 0x10000 && PathOf(e) in files && Holds(files[PathOf(e)].content, wanted)
  }

  /** The first directory entry whose object carries the label. */
  function Find(files: Files, es: seq<Entry>, wanted: seq<byte>): (r: Option<Entry>)
    ensures r.Some? ==> r.value in es && Matches(files, r.value, wanted)
    ensures r.None? ==> forall e :: e in es ==> !Matches(files, e, wanted)
  {
    if es == [] then None
    else if Matches(files, es[0], wanted) then Some(es[0])
    else Find(files, es[1..], wanted)
  }

  /**
   What the reader relies on for a data file: a label of at most 20 bytes that is not blank and is
   read whole; and, for an object with the label asked for, a value header that is read whole and
   determines a value inside the file, below the 0x8000 limit of READ BINARY. The value itself may be
   delivered in pieces of any size.
   */
  predicate Sane(f: EF, wanted: seq<byte>) {
    && (RawLabel(f.content).Some? ==>
          |RawLabel(f.content).value| <= 20 && Trim(RawLabel(f.content).value) != [] && 17 < f.whole)
    && (Holds(f.content, wanted) ==>
          var at := ValueHeader(f.content).value;
          && at < f.whole && Determinate(f.content[at])
          && var v := ValueSpan(f.content, at); v.start + v.size <= |f.content| && v.start + v.size <= 0x8000)
  }

  /** The files of the MIAS application when its directory is `content`. */
  predicate SaneFiles(files: Files, wanted: seq<byte>) {
    PATH in files ==>
      var es := Entries(files[PATH].content);
      && |files[PATH].content| <= files[PATH].whole && |es| <= 32
      && forall e :: e in es && IsData(e) && PathOf(e) in files ==> Sane(files[PathOf(e)], wanted)
  }

  function Value(files: Files, e: Entry, wanted: seq<byte>): seq<byte>
    requires Matches(files, e, wanted) && Sane(files[PathOf(e)], wanted)
  {
    var content := files[PathOf(e)].content;
    var v := ValueSpan(content, ValueHeader(content).value);
    content[v.start..v.start + v.size]
  }

  /** The object `p11GetObjectByLabel` is meant to return. */
  function Object(files: Files, wanted: seq<byte>): Option<seq<byte>>
    requires SaneFiles(files, wanted)
  {
    if PATH !in files then None
    else
      var e := Find(files, Entries(files[PATH].content), wanted);
      if e.None? then None else Some(Value(files, e.value, wanted))
  }

  /**
   The lengths a successful read may report: that of the object, if it is certain that no command is
   lost, otherwise those of all objects that carry the label.
   */
  ghost function Sizes(certain: bool, files: Files, wanted: seq<byte>): set<nat>
    requires SaneFiles(files, wanted)
  {
    if certain then
      var o := Object(files, wanted);
      if o.Some? then {|o.value|} else {}
    else if PATH !in files then {}
    else set e | e in Entries(files[PATH].content) && Matches(files, e, wanted) :: |Value(files, e, wanted)|
  }

  lemma SizeListed(files: Files, e: Entry, wanted: seq<byte>)
    requires SaneFiles(files, wanted) && PATH in files && e in Entries(files[PATH].content) && Matches(files, e, wanted)
    ensures |Value(files, e, wanted)| in Sizes(false, files, wanted)
  {
  }

  /** An entry that matches: its size, and its value if it is known to be the first. */
  lemma MatchListed(certain: bool, first: bool, files: Files, e: Entry, j: nat, wanted: seq<byte>)
    requires SaneFiles(files, wanted) && PATH in files && e in Entries(files[PATH].content) && Matches(files, e, wanted)
    requires certain ==> first
    requires var es := Entries(files[PATH].content);
             first ==> j < |es| && es[j] == e && forall k :: 0 <= k < j ==> !Matches(files, es[k], wanted)
    ensures IsData(e) && PathOf(e) in files && Sane(files[PathOf(e)], wanted)
    ensures |Value(files, e, wanted)| in Sizes(certain, files, wanted)
    ensures first ==> Object(files, wanted) == Some(Value(files, e, wanted))
  {
    if first {
      ObjectAt(files, j, wanted);
    }
    SizeListed(files, e, wanted);
  }

  lemma NothingListed(files: Files, wanted: seq<byte>, target: array?<byte>)
    requires SaneFiles(files, wanted) && PATH in files && forall e :: e in Entries(files[PATH].content) ==> !Matches(files, e, wanted)
    ensures Retrieved(files, wanted, false, 0, target)
  {
    ObjectAt(files, |Entries(files[PATH].content)|, wanted);
  }

  /** The directory can be read whole, and its entries fit the pool. */
  lemma SaneListing(files: Files, wanted: seq<byte>)
    requires SaneFiles(files, wanted) && PATH in files
    ensures var d := files[PATH].content; |d| <= files[PATH].whole && |Entries(d)| <= 32
    ensures forall e :: e in Entries(files[PATH].content) && IsData(e) && PathOf(e) in files ==> Sane(files[PathOf(e)], wanted)
  {
  }

  lemma SizesShrink(before: bool, after: bool, files: Files, wanted: seq<byte>)
    requires SaneFiles(files, wanted) && (before ==> after)
    ensures Sizes(after, files, wanted) <= Sizes(before, files, wanted)
  {
    if after && !before && Object(files, wanted).Some? {
      SizeListed(files, Find(files, Entries(files[PATH].content), wanted).value, wanted);
    }
  }

  /**
   What reading an object comes to when no command is lost: it succeeds exactly when the object is
   there, reports its length and, unless `target` is null, delivers its bytes.
   */
  ghost predicate Retrieved(files: Files, wanted: seq<byte>, ok: bool, len: nat, target: array?<byte>)
    requires SaneFiles(files, wanted)
    reads target
  {
    var o := Object(files, wanted);
    && ok == o.Some? && len == (if ok then |o.value| else 0)
    && (ok && target != null ==> len <= target.Length && target[..len] == o.value)
  }

  /** Nothing is found without a directory. */
  lemma NothingRetrieved(files: Files, wanted: seq<byte>, target: array?<byte>)
    requires SaneFiles(files, wanted)
    ensures PATH !in files || files[PATH].content == [] ==> Retrieved(files, wanted, false, 0, target)
  {
  }

  /** `n` bytes are enough for every one of these sizes. */
  ghost predicate Fits(sizes: set<nat>, n: int) {
    forall k :: k in sizes ==> k <= n
  }

  lemma {:induction false} FindFirst(files: Files, es: seq<Entry>, j: nat, wanted: seq<byte>)
    requires j < |es| && Matches(files, es[j], wanted)
    requires forall k :: 0 <= k < j ==> !Matches(files, es[k], wanted)
    ensures Find(files, es, wanted) == Some(es[j])
  {
    if j > 0 {
      FindFirst(files, es[1..], j - 1, wanted);
    }
  }

  /** The object is that of the first matching entry, and none without one. */
  lemma ObjectAt(files: Files, j: nat, wanted: seq<byte>)
    requires SaneFiles(files, wanted) && PATH in files && j <= |Entries(files[PATH].content)|
    requires var es := Entries(files[PATH].content);
             && (forall k :: 0 <= k < j ==> !Matches(files, es[k], wanted))
             && (j < |es| ==> Matches(files, es[j], wanted))
    ensures var es := Entries(files[PATH].content);
            if j < |es| then Sane(files[PathOf(es[j])], wanted) && Object(files, wanted) == Some(Value(files, es[j], wanted))
            else Object(files, wanted).None?
  {
    var es := Entries(files[PATH].content);
    hide Sane, Matches, Value;
    if j < |es| {
      FindFirst(files, es, j, wanted);
      assert IsData(es[j]) && PathOf(es[j]) in files by { MatchIsData(files, es[j], wanted); }
    }
  }

  lemma OnlyDataMatches(files: Files, e: Entry, wanted: seq<byte>)
    requires !IsData(e)
    ensures !Matches(files, e, wanted)
  {
  }

  lemma MatchIsData(files: Files, e: Entry, wanted: seq<byte>)
    requires Matches(files, e, wanted)
    ensures IsData(e) && e.efid < 0x10000 && PathOf(e) in files
  {
  }

  /** The value found at the header's own offset is the one the five header bytes describe. */
  lemma SpanShift(content: seq<byte>, at: nat)
    requires at + 5 <= |content| && Determinate(content[at])
    ensures var v, w := ValueSpan(content, at), ValueSpan(content[at..at + 5], 0);
            v.start == at + w.start && v.size == w.size
  {
    var b := content[at];
    if b >= 0x80 {
      SubSlice(content, at, at + 5, 1, 1 + b % 16);
    }
  }

  /** The value of an object by the first five bytes of its header at `at`. */
  lemma ValueAt(files: Files, e: Entry, wanted: seq<byte>, at: nat)
    requires Matches(files, e, wanted) && Sane(files[PathOf(e)], wanted) && ValueHeader(files[PathOf(e)].content) == Some(at)
    ensures var content := files[PathOf(e)].content;
            && at + 5 <= |content| && Determinate(content[at]) && content[at..at + 5][0] == content[at]
            && var w := ValueSpan(content[at..at + 5], 0);
               && at + w.start + w.size <= |content| && at + w.start + w.size <= 0x8000
               && Value(files, e, wanted) == content[at + w.start..at + w.start + w.size]
               && |Value(files, e, wanted)| == w.size
  {
    SpanShift(files[PathOf(e)].content, at);
    hide ValueSpan, ValueHeader, Trim;
  }

  // ---- The long form of the value's length ----

  /** Bytes shifted into a 16-bit variable that held `garbage`. */
  function ShiftedIn(garbage: nat, bs: seq<byte>): nat {
    if bs == [] then garbage else ShiftedIn(garbage, bs[..|bs| - 1]) * 256 % 0x10000 + bs[|bs| - 1]
  }

  /** From two bytes on nothing is left of what the variable held before. */
  lemma {:induction false} TwoBytesDetermine(garbage: nat, bs: seq<byte>)
    requires |bs| >= 2
    ensures ShiftedIn(garbage, bs) == BigEndian(bs) % 0x10000
  {
    if |bs| == 2 {
      assert bs == [bs[0], bs[1]];
      TwoBytes(garbage, bs[0], bs[1]);
    } else {
      var init := bs[..|bs| - 1];
      TwoBytesDetermine(garbage, init);
      ShiftIn(BigEndian(init), bs[|bs| - 1]);
    }
  }

  lemma TwoBytes(garbage: nat, hi: byte, lo: byte)
    ensures ShiftedIn(garbage, [hi, lo]) == BigEndian([hi, lo]) == Word(hi, lo)
  {
    assert [hi, lo][..1] == [hi] && [hi][..0] == [];
    var m, high: int := garbage % 256, hi;
    Residue(garbage * 256, garbage / 256, m * 256);
    assert ShiftedIn(garbage, [hi]) == m * 256 + high;
    Residue((m * 256 + high) * 256, m, high * 256);
    assert BigEndian([hi]) == high;
  }

  /** The bytes alone determine the size exactly from two of them on. */
  lemma DeterminedExactly(bs: seq<byte>)
    ensures (forall g: nat :: g < 0x10000 ==> ShiftedIn(g, bs) == BigEndian(bs) % 0x10000) <==> |bs| >= 2
  {
    if |bs| >= 2 {
      forall g: nat | g < 0x10000
        ensures ShiftedIn(g, bs) == BigEndian(bs) % 0x10000
      {
        TwoBytesDetermine(g, bs);
      }
    } else if |bs| == 1 {
      OneByteIsLeftToChance(1, bs[0]);
      assert bs == [bs[0]];
    } else {
      assert ShiftedIn(1, bs) == 1 && BigEndian(bs) == 0;
    }
  }

  /** One length byte (0x81) gives the right size exactly when the variable's low byte happened to be zero. */
  lemma OneByteIsLeftToChance(garbage: nat, b: byte)
    ensures ShiftedIn(garbage, [b]) == BigEndian([b]) % 0x10000 <==> garbage % 256 == 0
  {
    assert ShiftedIn(garbage, [b][..0]) == garbage;
    assert BigEndian([b][..0]) == 0;
  }

  /** The length bytes of the long form. */
  function LengthBytes(record: seq<byte>): (n: nat)
    requires record != []
    ensures n < 16
  {
    if record[0] < 0x80 then 0 else record[0] % 16
  }

  /** The size that is decoded from the bytes read at the value's header, in a variable that held `garbage`. */
  function DecodedSize(record: seq<byte>, garbage: nat): nat
    requires |record| >= 16
  {
    if record[0] < 0x80 then record[0] else ShiftedIn(garbage, record[1..1 + LengthBytes(record)])
  }

  /** It depends on the header alone exactly for the short form and for two or more length bytes. */
  lemma HeaderDeterminesExactly(record: seq<byte>)
    requires |record| >= 16
    ensures (forall g: nat :: g < 0x10000 ==> DecodedSize(record, g) == DecodedSize(record, 0))
            <==> record[0] < 0x80 || record[0] % 16 >= 2
  {
    if record[0] >= 0x80 {
      var bs := record[1..1 + LengthBytes(record)];
      if |bs| >= 2 {
        forall g: nat | g < 0x10000
          ensures DecodedSize(record, g) == DecodedSize(record, 0)
        {
          TwoBytesDetermine(g, bs);
          TwoBytesDetermine(0, bs);
        }
      } else if |bs| == 1 {
        OneByteIsLeftToChance(0, bs[0]);
        OneByteIsLeftToChance(1, bs[0]);
        assert bs == [bs[0]];
        assert DecodedSize(record, 1) != DecodedSize(record, 0);
      } else {
        assert DecodedSize(record, 1) == 1 && DecodedSize(record, 0) == 0;
      }
    }
  }

  /** Of two or more bytes only the last two are left. */
  lemma LastTwoBytes(garbage: nat, bs: seq<byte>)
    requires |bs| >= 2
    ensures ShiftedIn(garbage, bs) == Word(bs[|bs| - 2], bs[|bs| - 1])
  {
    var init := bs[..|bs| - 1];
    var g, x: int := ShiftedIn(garbage, init[..|init| - 1]), init[|init| - 1];
    Residue((g * 256 % 0x10000 + x) * 256, g % 256, x * 256);
  }

  /**
   Only five bytes are read at the value's header. With more than four length bytes the size is made of
   bytes behind them, which the record buffer holds from before: exactly the headers not called
   determinate leave the size open.
   */
  lemma FiveBytesDetermineExactly(record: seq<byte>)
    requires |record| >= 16
    ensures LengthBytes(record) > 4 ==>
              var n := LengthBytes(record); forall g: nat :: DecodedSize(record, g) == Word(record[n - 1], record[n])
    ensures (forall other: seq<byte>, g: nat :: |other| == |record| && other[..5] == record[..5] && g < 0x10000 ==>
               DecodedSize(other, g) == DecodedSize(record, 0))
            <==> Determinate(record[0])
  {
    hide ShiftedIn;
    var n := LengthBytes(record);
    if Determinate(record[0]) {
      forall other: seq<byte>, g: nat | |other| == |record| && other[..5] == record[..5] && g < 0x10000
        ensures DecodedSize(other, g) == DecodedSize(record, 0)
      {
        SameHeader(record, other);
        HeaderDeterminesExactly(other);
      }
    } else if n <= 4 {
      HeaderDeterminesExactly(record);
    } else {
      forall g: nat ensures DecodedSize(record, g) == Word(record[n - 1], record[n]) {
        LastTwoBytes(g, record[1..1 + n]);
      }
      var changed: byte := if record[n] == 0 then 1 else 0;
      var other := record[n := changed];
      assert other[..5] == record[..5];
      LastTwoBytes(0, record[1..1 + n]);
      LastTwoBytes(0, other[1..1 + n]);
      assert DecodedSize(other, 0) != DecodedSize(record, 0);
    }
  }

  lemma SameHeader(record: seq<byte>, other: seq<byte>)
    requires |record| >= 16 && |other| == |record| && other[..5] == record[..5] && LengthBytes(record) <= 4
    ensures LengthBytes(other) == LengthBytes(record) && DecodedSize(other, 0) == DecodedSize(record, 0)
  {
    var n := LengthBytes(record);
    assert other[0] == other[..5][0] && record[0] == record[..5][0];
    SubSlice(other, 0, 5, 1, 1 + n);
    SubSlice(record, 0, 5, 1, 1 + n);
  }
}
