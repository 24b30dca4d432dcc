/**
 The other direction of KeyIndex: how a card issuer lays out key containers and their certificate files,
 and that the index says of each container what was laid out for it.
 */
module KeyLayout {
  import opened Bytes
  import opened Cards
  import opened Directory
  import opened Fcp
  import opened KeyIndex
  import opened P11Layout

  // ---- What is laid out ----

  /** A key container: a signature key, or else an exchange key, of so many bits; flag 0 says that it is not in use. */
  datatype Issued = Issued(flag: byte, signatureBits: nat, exchangeBits: nat, reserved: seq<byte>, rest: seq<byte>)

  predicate Issuable(k: Issued) {
    k.signatureBits < 0x10000 && k.exchangeBits < 0x10000 && |k.reserved| == 3 && |k.rest| == 3
  }

  function ContainerRecord(k: Issued): (r: seq<byte>)
    requires Issuable(k)
    ensures |r| == 11
  {
    [k.flag] + k.reserved
    + [k.signatureBits / 256, k.signatureBits % 256, k.exchangeBits / 256, k.exchangeBits % 256] + k.rest
  }

  function ContainersFile(ks: seq<Issued>): (content: seq<byte>)
    requires forall k :: k in ks ==> Issuable(k)
    ensures |content| == 11 * |ks|
  {
    if ks == [] then [] else ContainersFile(ks[..|ks| - 1]) + ContainerRecord(ks[|ks| - 1])
  }

  /** A directory entry: a certificate file of a container, named by two decimal digits, or something else. */
  datatype Item =
    | Certificate(exchange: bool, container: nat, efid: nat, size: nat, tail: seq<byte>, dirTail: seq<byte>)
    | Other(entry: Entry)

  predicate ProperItem(i: Item) {
    match i
    case Certificate(_, container, efid, size, tail, dirTail) =>
      container < 100 && efid < 0x10000 && size < 0x10000 && |tail| == 3 && |dirTail| == 4
    case Other(e) =>
      && Listable(e)
      && !(e.dir[..4] == Text("mscp") && (e.name[..3] == Text("kxc") || e.name[..3] == Text("ksc")))
  }

  function EntryFor(i: Item): (e: Entry)
    requires ProperItem(i)
    ensures Listable(e)
  {
    match i
    case Certificate(exchange, container, efid, size, tail, dirTail) =>
      Entry(efid, size, Text(if exchange then "kxc" else "ksc") + [0x30 + container / 10, 0x30 + container % 10] + tail, Text("mscp") + dirTail)
    case Other(e) => e
  }

  function EntriesFor(items: seq<Item>): (es: seq<Entry>)
    requires forall i :: i in items ==> ProperItem(i)
    ensures |es| == |items| && forall e :: e in es ==> Listable(e)
  {
    if items == [] then [] else EntriesFor(items[..|items| - 1]) + [EntryFor(items[|items| - 1])]
  }

  function WordBytes(n: nat): seq<byte>
    requires n < 0x10000
  {
    [n / 256, n % 256]
  }

  /** The path of the last certificate file laid out for a container. */
  function LastFor(items: seq<Item>, c: nat): Option<seq<byte>>
    requires forall i :: i in items ==> ProperItem(i)
  {
    if items == [] then None
    else
      var i := items[|items| - 1];
      assert i in items && ProperItem(i);
      if i.Certificate? && i.container == c then Some(WordBytes(i.efid)) else LastFor(items[..|items| - 1], c)
  }

  /** The bits of the container's key, and whether it is an exchange key. */
  function Bits(k: Issued): nat {
    if k.signatureBits != 0 then k.signatureBits else k.exchangeBits
  }

  /**
   What a container is to be known as: the high digit of the identifier tells size and kind, the low one
   the container's place counted from 1; RSA and signing are flags 1 and 4, deciphering 8.
   */
  function Known(ks: seq<Issued>, items: seq<Item>, c: nat): Option<KeyPair>
    requires forall i :: i in items ==> ProperItem(i)
  {
    if c >= |ks| || c >= 15 || ks[c].flag == 0 || Bits(ks[c]) !in {1024, 2048} then None
    else
      var exchange, file := ks[c].signatureBits == 0, LastFor(items, c);
      Some(KeyPair((if Bits(ks[c]) == 1024 then (if exchange then 0x10 else 0x20) else if exchange then 0x30 else 0x40) + c + 1,
                   if exchange then 13 else 5, Bits(ks[c]), if file.Some? then file.value else [0, 0], file.Some?))
  }

  /** Containers and directory as laid out, with a template that states the size of the containers' file. */
  predicate LaidOut(files: Files, ks: seq<Issued>, items: seq<Item>, ts: seq<Tlv>) {
    && (forall k :: k in ks ==> Issuable(k)) && (forall i :: i in items ==> ProperItem(i)) && |items| < 256
    && [0x00, 0x02] in files && [0x01, 0x01] in files
    && var f, d := files[[0x00, 0x02]], files[[0x01, 0x01]];
       && f.content == ContainersFile(ks) && |f.content| <= f.whole && |f.content| <= 0x8000
       && |EncodedAll(ts)| <= 253 && f.fcp == [0x62, |EncodedAll(ts)|] + EncodedAll(ts)
       && (forall t :: t in ts && t.tag == 0x81 ==> |t.value| == 2)
       && LastUnder(ts, 0x81) == Some(WordBytes(|f.content|))
       && d.content == DirectoryFile(EntriesFor(items)) && |d.content| <= d.whole
  }

  // ---- What is found ----

  /** The two digits are the container's number. */
  lemma EntryNames(i: Item)
    requires ProperItem(i)
    ensures var e := EntryFor(i);
            && IsCertificate(e) == i.Certificate?
            && (i.Certificate? ==> NamedContainer(e) == i.container && PathOf(e) == WordBytes(i.efid))
  {
    Spelled();
    var e := EntryFor(i);
    if i.Certificate? {
      assert e.name[..3] == Text(if i.exchange then "kxc" else "ksc") && e.dir[..4] == Text("mscp");
      assert e.name[3] == 0x30 + i.container / 10 && e.name[4] == 0x30 + i.container % 10;
    }
  }

  lemma Spelled()
    ensures MSCP == Text("mscp") && KXC == Text("kxc") && KSC == Text("ksc")
  {
  }

  /** The last certificate entry of a container is the last one laid out for it. */
  lemma {:induction false} LastNamed(items: seq<Item>, c: nat)
    requires forall i :: i in items ==> ProperItem(i)
    ensures ProperEntries(EntriesFor(items))
    ensures var e := CertificateOf(EntriesFor(items), c);
            LastFor(items, c) == if e.Some? then Some(PathOf(e.value)) else None
  {
    hide IsCertificate, NamedContainer, EntryFor;
    if items != [] {
      var es := EntriesFor(items);
      LastNamed(items[..|items| - 1], c);
      EntryNames(items[|items| - 1]);
      assert es[..|es| - 1] == EntriesFor(items[..|items| - 1]);
    }
  }

  lemma {:induction false} RecordOfContainer(ks: seq<Issued>, c: nat)
    requires (forall k :: k in ks ==> Issuable(k)) && c < |ks|
    ensures Container(ContainersFile(ks), c) == ContainerRecord(ks[c])
  {
    if c < |ks| - 1 {
      RecordOfContainer(ks[..|ks| - 1], c);
      assert ContainersFile(ks)[..11 * (|ks| - 1)] == ContainersFile(ks[..|ks| - 1]);
    }
  }

  lemma ContainerUsable(ks: seq<Issued>, c: nat)
    requires (forall k :: k in ks ==> Issuable(k)) && c < |ks|
    ensures Usable(ContainersFile(ks), |ks|, c) <==> ks[c].flag != 0 && Bits(ks[c]) in {1024, 2048}
    ensures var r := Container(ContainersFile(ks), c);
            Word(r[4], r[5]) == ks[c].signatureBits && Word(r[6], r[7]) == ks[c].exchangeBits
  {
    RecordOfContainer(ks, c);
    RecordFields(ks[c]);
    hide ContainersFile, ContainerRecord, Container, Word;
  }

  lemma RecordFields(k: Issued)
    requires Issuable(k)
    ensures var r := ContainerRecord(k);
            r[0] == k.flag && Word(r[4], r[5]) == k.signatureBits && Word(r[6], r[7]) == k.exchangeBits
  {
  }

  /** The template states the size of the containers' file. */
  lemma AllContainers(files: Files, ks: seq<Issued>, items: seq<Item>, ts: seq<Tlv>)
    requires LaidOut(files, ks, items, ts)
    ensures SaneIndex(files) && Announces(files[CONTAINERS]) && Containers(files) == |ks|
  {
    hide ContainersFile, DirectoryFile, EntriesFor, ProperItem, EncodedAll, BigEndian, TotalSize, Tlvs, WordSizes, LastUnder;
    var f := files[CONTAINERS];
    assert f.content == ContainersFile(ks);
    BuiltTotalSize(ts, 0);
    assert f.fcp[2..] == EncodedAll(ts);
    NotNothing(ts);
    TwoByteNumber(|f.content|);
    assert TotalSize(f.fcp[2..], 0) == |f.content|;
  }

  lemma TwoByteNumber(n: nat)
    requires n < 0x10000
    ensures BigEndian(WordBytes(n)) == n
  {
    var hi := WordBytes(n)[..1];
    assert hi == [n / 256] && |hi[..0]| == 0;
    assert BigEndian(hi) == n / 256;
  }

  lemma NotNothing(ts: seq<Tlv>)
    requires LastUnder(ts, 0x81).Some?
    ensures EncodedAll(ts) != []
  {
  }

  /** The index built from the card knows each of up to fifteen containers as it was laid out, and no others. */
  lemma IssuedIsKnown(files: Files, ks: seq<Issued>, items: seq<Item>, ts: seq<Tlv>, c: nat)
    requires LaidOut(files, ks, items, ts) && |ks| <= 15 && c < 256
    ensures SaneIndex(files) && Index(files).Some? && Lookup(Index(files).value, c) == Known(ks, items, c)
  {
    AllContainers(files, ks, items, ts);
    var content, es := files[CONTAINERS].content, EntriesFor(items);
    StoredDirectory(es);
    LastNamed(items, c);
    hide EntriesFor, DirectoryFile, ProperItem, LastFor, CertificateOf, Lookup, Containers, SaneIndex, Announces, EncodedAll,
         Index, Container, ContainersFile, Word, WellNumbered, Entries, Tlvs, LastUnder;
    FifteenContainers(content, |ks|);
    IndexTellsTheCard(files, c);
    if c < |ks| {
      ContainerUsable(ks, c);
    }
  }

  /** And the certificate of a container is the last file laid out for it, if it is on the card. */
  lemma IssuedCertificate(files: Files, ks: seq<Issued>, items: seq<Item>, ts: seq<Tlv>, c: nat)
    requires LaidOut(files, ks, items, ts) && |ks| <= 15 && c < 256
    ensures SaneIndex(files)
    ensures var k := Known(ks, items, c);
            CertificateFile(files, CurrentIndex(files), c) ==
            if k.Some? && LastFor(items, c).Some? && LastFor(items, c).value in files then Some(files[LastFor(items, c).value]) else None
  {
    IssuedIsKnown(files, ks, items, ts, c);
    hide Index, Lookup, LaidOut, LastFor, SaneIndex;
  }
}
