/**
 The key index of the MIAS applet: container records give the key pairs, directory entries give the
 certificate files. The first half follows the program; the second reads the card directly, one
 container at a time, and says exactly when the two agree.
 */
module KeyIndex {
  import opened Bytes
  import opened Cards
  import opened Directory
  import opened Fcp

  const CONTAINERS: seq<byte> := [0x00, 0x02]
  const CONTAINER_RECORD: nat := 0x0B
  const KEY_POOL_SIZE: nat := 16

  const RSA_FLAG: nat := 1
  const SIGNATURE_FLAG: nat := 4
  const DECRYPTION_FLAG: nat := 8

  const MSCP: seq<byte> := [0x6D, 0x73, 0x63, 0x70]
  const KXC: seq<byte> := [0x6B, 0x78, 0x63]
  const KSC: seq<byte> := [0x6B, 0x73, 0x63]

  datatype KeyPair = KeyPair(kid: byte, flags: nat, sizeInBits: nat, pubFileId: seq<byte>, hasCert: bool)

  /** The container records that can be read in full at offsets below `size`. */
  function RecordCount(content: seq<byte>, size: nat): (n: nat)
    ensures n <= |content| / CONTAINER_RECORD
  {
    Min(|content| / CONTAINER_RECORD, (size + CONTAINER_RECORD - 1) / CONTAINER_RECORD)
  }

  function Container(content: seq<byte>, i: nat): (r: seq<byte>)
    requires i < |content| / CONTAINER_RECORD
    ensures |r| == CONTAINER_RECORD
  {
    content[i * CONTAINER_RECORD..i * CONTAINER_RECORD + CONTAINER_RECORD]
  }

  // ---- As the program builds it ----

  /** The key class in the high digit of a key identifier, if the size is supported. */
  function ClassOf(sizeInBits: nat, decryption: bool): (c: Option<byte>)
    ensures c.Some? ==> c.value in {0x10, 0x20, 0x30, 0x40}
  {
    if sizeInBits == 0x400 then Some(if decryption then 0x10 else 0x20)
    else if sizeInBits == 0x800 then Some(if decryption then 0x30 else 0x40)
    else None
  }

  function Identifier(keyClass: byte, i: byte): byte {
    Or(keyClass, i + 1) % 256
  }

  /** The entry for container number `i` (an 8-bit counter); an unsupported size leaves the old identifier in place. */
  function KeyOf(r: seq<byte>, i: byte, oldKid: byte): KeyPair
    requires |r| == CONTAINER_RECORD
  {
    var decryption := Word(r[4], r[5]) == 0;
    var sizeInBits := if decryption then Word(r[6], r[7]) else Word(r[4], r[5]);
    var keyClass := ClassOf(sizeInBits, decryption);
    KeyPair(if keyClass.Some? then Identifier(keyClass.value, i) else oldKid,
            SIGNATURE_FLAG + (if decryption then DECRYPTION_FLAG else 0) + (if keyClass.Some? then RSA_FLAG else 0),
            sizeInBits, [0, 0], false)
  }

  /** The key pool after the first `n` records. */
  function PoolUpTo(content: seq<byte>, n: nat): (pool: seq<KeyPair>)
    requires n <= |content| / CONTAINER_RECORD
    ensures |pool| <= n && |pool| <= KEY_POOL_SIZE
  {
    if n == 0 then [] else PoolAfter(PoolUpTo(content, n - 1), content, n - 1)
  }

  /** The pool after record `m`: a record marked invalid, or beyond a full pool, adds nothing. */
  function PoolAfter(pool: seq<KeyPair>, content: seq<byte>, m: nat): (p: seq<KeyPair>)
    requires m < |content| / CONTAINER_RECORD
    ensures |p| <= |pool| + 1 && (|pool| <= KEY_POOL_SIZE ==> |p| <= KEY_POOL_SIZE)
  {
    var r := Container(content, m);
    if r[0] == 0 || |pool| == KEY_POOL_SIZE then pool else pool + [KeyOf(r, m % 256, 0)]
  }

  predicate IsCertificate(e: Entry)
    requires |e.name| == 8 && |e.dir| == 8
  {
    MSCP <= e.dir && (KXC <= e.name || KSC <= e.name)
  }

  /** The number the two characters after the prefix stand for; not a container number unless they are digits. */
  function NamedContainer(e: Entry): int
    requires |e.name| == 8
  {
    var tens: int, units: int := e.name[3], e.name[4];
    (tens - 0x30) * 10 + (units - 0x30)
  }

  /** The first key pair whose identifier stands for container `c`. */
  predicate For(k: KeyPair, c: int) {
    k.kid % 16 - 1 == c
  }

  function Mark(pool: seq<KeyPair>, c: int, fileId: seq<byte>): (p: seq<KeyPair>)
    ensures |p| == |pool|
  {
    if pool == [] then []
    else if For(pool[0], c) then [pool[0].(pubFileId := fileId, hasCert := true)] + pool[1..]
    else [pool[0]] + Mark(pool[1..], c, fileId)
  }

  predicate ProperEntries(es: seq<Entry>) {
    forall k :: 0 <= k < |es| ==> es[k].efid < 0x10000 && |es[k].name| == 8 && |es[k].dir| == 8
  }

  /** The pool after one directory entry. */
  function MarkedBy(pool: seq<KeyPair>, e: Entry): (p: seq<KeyPair>)
    requires e.efid < 0x10000 && |e.name| == 8 && |e.dir| == 8
    ensures |p| == |pool|
  {
    if IsCertificate(e) then Mark(pool, NamedContainer(e), PathOf(e)) else pool
  }

  /** The pool after the directory entries, in order, have named their certificate files. */
  function Marked(pool: seq<KeyPair>, es: seq<Entry>): (p: seq<KeyPair>)
    requires ProperEntries(es)
    ensures |p| == |pool|
  {
    if es == [] then pool
    else MarkedBy(Marked(pool, es[..|es| - 1]), es[|es| - 1])
  }

  function Lookup(pool: seq<KeyPair>, c: int): (k: Option<KeyPair>)
    ensures k.Some? ==> k.value in pool && For(k.value, c)
    ensures k.None? ==> forall k :: k in pool ==> !For(k, c)
  {
    if pool == [] then None else if For(pool[0], c) then Some(pool[0]) else Lookup(pool[1..], c)
  }

  /** What the reader relies on: a well-formed container template, whole reads of both files. */
  predicate SaneIndex(files: Files) {
    && (CONTAINERS in files ==>
          var f := files[CONTAINERS];
          && |f.content| <= f.whole
          && (Announces(f) ==> IsShortTemplate(f.fcp) && TotalSize(f.fcp[2..], 0) <= 0x8000))
    && (PATH in files ==> |files[PATH].content| <= files[PATH].whole)
  }

  /** SELECT of the file answers more than two bytes, a control parameter template by its first byte. */
  predicate Announces(f: EF) {
    |f.fcp| > 2 && f.fcp[0] == TEMPLATE
  }

  /** The number of container records the program goes through. */
  function Containers(files: Files): (n: nat)
    requires SaneIndex(files) && CONTAINERS in files && Announces(files[CONTAINERS])
    ensures n <= |files[CONTAINERS].content| / CONTAINER_RECORD
  {
    RecordCount(files[CONTAINERS].content, TotalSize(files[CONTAINERS].fcp[2..], 0))
  }

  function Listing(files: Files): (es: seq<Entry>)
    ensures ProperEntries(es)
  {
    if PATH in files then Entries(files[PATH].content) else []
  }

  /** The index the program builds from the card's files, if it can build one. */
  function Index(files: Files): Option<seq<KeyPair>>
    requires SaneIndex(files)
  {
    if CONTAINERS in files && Announces(files[CONTAINERS]) then
      Some(Marked(PoolUpTo(files[CONTAINERS].content, Containers(files)), Listing(files)))
    else None
  }

  /** The paths of the certificate files in the directory. */
  function CertificatePaths(files: Files): set<seq<byte>> {
    set e | e in Listing(files) && e.efid < 0x10000 && |e.name| == 8 && |e.dir| == 8 && IsCertificate(e) :: PathOf(e)
  }

  /** Whether a control parameter template states a total size at all. */
  predicate StatesTotal(b: seq<byte>)
    requires Tlvs(b)
  {
    b != [] && (b[0] == SIZE_WITH_INFO || StatesTotal(b[2 + b[1]..]))
  }

  lemma {:induction false} StatedTotal(b: seq<byte>, d: nat, e: nat)
    requires Tlvs(b) && WordSizes(b)
    ensures StatesTotal(b) ==> TotalSize(b, d) == TotalSize(b, e) < 0x10000
    ensures !StatesTotal(b) ==> TotalSize(b, d) == d
  {
    if b != [] && b[0] != SIZE_WITH_INFO {
      StatedTotal(b[2 + b[1]..], d, e);
    } else if b != [] {
      LaterTotal(b[2 + b[1]..], Word(b[2], b[3]));
    }
  }

  /** Behind one statement of the size another may follow. */
  lemma {:induction false} LaterTotal(b: seq<byte>, d: nat)
    requires Tlvs(b) && WordSizes(b) && d < 0x10000
    ensures TotalSize(b, d) < 0x10000
  {
    if b != [] {
      LaterTotal(b[2 + b[1]..], if b[0] == SIZE_WITH_INFO then Word(b[2], b[3]) else d);
    }
  }

  /** The answer to SELECT, if it starts like a template, is one that the walk with 8-bit counters gets through. */
  predicate Walkable(f: EF) {
    f.fcp != [] && f.fcp[0] == TEMPLATE ==> IsShortTemplate(f.fcp)
  }

  /** The size that is read from it into a variable that held `garbage`. */
  function SizeRead(f: EF, garbage: nat): nat
    requires Walkable(f)
  {
    if f.fcp != [] && f.fcp[0] == TEMPLATE then TotalSize(f.fcp[2..], garbage) else garbage
  }

  /** The file states its total size. */
  predicate StatesSize(f: EF) {
    IsShortTemplate(f.fcp) && StatesTotal(f.fcp[2..])
  }

  /** The file alone determines the size exactly if it states one. */
  lemma SizeStatedExactly(f: EF)
    requires Walkable(f)
    ensures (forall d: nat, e: nat :: d < 0x10000 && e < 0x10000 ==> SizeRead(f, d) == SizeRead(f, e)) <==> StatesSize(f)
  {
    if f.fcp != [] && f.fcp[0] == TEMPLATE {
      forall d: nat, e: nat
        ensures StatesSize(f) ==> SizeRead(f, d) == SizeRead(f, e)
      {
        StatedTotal(f.fcp[2..], d, e);
      }
      StatedTotal(f.fcp[2..], 0, 1);
      StatedTotal(f.fcp[2..], 1, 0);
    }
    assert SizeRead(f, 0) == SizeRead(f, 1) ==> StatesSize(f);
  }

  /** A certificate file without the tag for it: the size is what the variable happened to hold. */
  lemma SizeLeftToChance(content: seq<byte>, whole: nat, garbage: nat)
    ensures var f: EF := File([TEMPLATE, 0x04, SIZE_WITHOUT_INFO, 0x02, 0x01, 0x00], content, whole);
            Walkable(f) && !StatesSize(f) && SizeRead(f, garbage) == garbage
  {
    var f: EF := File([TEMPLATE, 0x04, SIZE_WITHOUT_INFO, 0x02, 0x01, 0x00], content, whole);
    var b := f.fcp[2..];
    assert b == [SIZE_WITHOUT_INFO, 0x02, 0x01, 0x00] && b[4..] == [];
    assert Tlvs(b[4..]) && WordSizes(b[4..]) && !StatesTotal(b[4..]);
    assert b[1] == 2 && Tlvs(b) && WordSizes(b) && !StatesTotal(b);
    StatedTotal(f.fcp[2..], garbage, 0);
  }

  /** Whatever the variable held, the size read is one that the file has, below the limit of READ BINARY. */
  ghost predicate SaneCertificate(f: EF) {
    Walkable(f) && forall g: nat :: g < 0x10000 ==> SizeRead(f, g) <= Min(|f.content|, 0x8000)
  }

  /** So it states it. */
  lemma SaneCertificateFacts(f: EF)
    requires SaneCertificate(f)
    ensures StatesSize(f) && forall g: nat :: SizeRead(f, g) == SizeRead(f, 0)
    ensures SizeRead(f, 0) <= |f.content| && SizeRead(f, 0) <= 0x8000
  {
    assert SizeRead(f, 0xFFFF) <= Min(|f.content|, 0x8000) && SizeRead(f, 0) <= Min(|f.content|, 0x8000);
    StatedTotal(f.fcp[2..], 0xFFFF, 0);
    forall g: nat
      ensures SizeRead(f, g) == SizeRead(f, 0)
    {
      StatedTotal(f.fcp[2..], g, 0);
    }
  }

  lemma CertificatePathLength(files: Files, p: seq<byte>)
    requires p in CertificatePaths(files)
    ensures |p| == 2
  {
  }

  ghost predicate SaneCertificates(files: Files) {
    forall p :: p in CertificatePaths(files) && p in files ==> SaneCertificate(files[p])
  }

  /** The certificate file `getCertificateByContainerId` reads, by an index. */
  function CertificateFile(files: Files, index: seq<KeyPair>, c: nat): Option<EF> {
    var k := Lookup(index, c);
    if k.Some? && k.value.hasCert && k.value.pubFileId in files then Some(files[k.value.pubFileId]) else None
  }

  lemma FileNamed(files: Files, index: seq<KeyPair>, c: nat)
    ensures var f, k := CertificateFile(files, index, c), Lookup(index, c);
            && f.Some? == (k.Some? && k.value.hasCert && k.value.pubFileId in files)
            && (f.Some? ==> f.value == files[k.value.pubFileId])
  {
  }

  /** The key index the card's files give, empty when they give none. */
  ghost function CurrentIndex(files: Files): seq<KeyPair>
    requires SaneIndex(files)
  {
    if Index(files).Some? then Index(files).value else []
  }

  /**
   The lengths a successful read of container `c`'s certificate may report: that of its file, if it is
   certain that no command is lost, otherwise those of all certificate files.
   */
  ghost function CertificateSizes(certain: bool, files: Files, c: nat): set<nat>
    requires SaneIndex(files) && SaneCertificates(files)
  {
    if certain then
      var f := CertificateFile(files, CurrentIndex(files), c);
      if f.Some? && Walkable(f.value) then {SizeRead(f.value, 0)} else {}
    else set p | p in CertificatePaths(files) && p in files && Walkable(files[p]) :: SizeRead(files[p], 0)
  }

  lemma CertificateSizeListed(files: Files, p: seq<byte>, c: nat)
    requires SaneIndex(files) && SaneCertificates(files) && p in CertificatePaths(files) && p in files
    ensures Walkable(files[p]) && SizeRead(files[p], 0) in CertificateSizes(false, files, c)
  {
  }

  /** The size of the file that an index names, if it is certain that the index is the card's. */
  lemma NamedSize(certain: bool, files: Files, index: seq<KeyPair>, c: nat)
    requires SaneIndex(files) && SaneCertificates(files) && CertificateFile(files, index, c).Some?
    requires Lookup(index, c).value.pubFileId in CertificatePaths(files)
    requires certain ==> index == CurrentIndex(files)
    ensures var f := CertificateFile(files, index, c).value;
            && Walkable(f) && SizeRead(f, 0) in CertificateSizes(certain, files, c)
            && forall g: nat :: SizeRead(f, g) == SizeRead(f, 0) <= Min(|f.content|, 0x8000)
  {
    hide SaneIndex, Index, SaneCertificate, Listing;
    SaneCertificateFacts(CertificateFile(files, index, c).value);
    CertificateSizeListed(files, Lookup(index, c).value.pubFileId, c);
  }

  lemma CertificateSizesShrink(before: bool, after: bool, files: Files, c: nat)
    requires SaneIndex(files) && SaneCertificates(files) && (before ==> after)
    ensures CertificateSizes(after, files, c) <= CertificateSizes(before, files, c)
  {
    hide SaneIndex, Index, SaneCertificate, Listing;
    if after && !before {
      var k := Lookup(CurrentIndex(files), c);
      if CertificateFile(files, CurrentIndex(files), c).Some? {
        IndexNamesCertificates(files, k.value);
        CertificateSizeListed(files, k.value.pubFileId, c);
      }
    }
  }

  /** The index names only certificate files of the directory. */
  lemma IndexNamesCertificates(files: Files, k: KeyPair)
    requires SaneIndex(files) && k in CurrentIndex(files) && k.hasCert
    ensures k.pubFileId in CertificatePaths(files)
  {
    hide SaneIndex, Announces, PoolUpTo, Marked, Listing;
    var pool := PoolUpTo(files[CONTAINERS].content, Containers(files));
    PoolHasNone(files[CONTAINERS].content, Containers(files));
    var e := MarkedNames(pool, Listing(files), k);
  }

  lemma {:induction false} PoolHasNone(content: seq<byte>, n: nat)
    requires n <= |content| / CONTAINER_RECORD
    ensures forall k :: k in PoolUpTo(content, n) ==> !k.hasCert
  {
    hide KeyOf;
    if n > 0 {
      PoolHasNone(content, n - 1);
      KeyHasNoCertificate(Container(content, n - 1), (n - 1) % 256, 0);
    }
  }

  lemma {:induction false} MarkNames(pool: seq<KeyPair>, c: int, fileId: seq<byte>, k: KeyPair)
    requires k in Mark(pool, c, fileId)
    ensures k in pool || k.pubFileId == fileId
  {
    if pool != [] && !For(pool[0], c) && k != pool[0] {
      MarkNames(pool[1..], c, fileId, k);
    }
  }

  lemma {:induction false} MarkedNames(pool: seq<KeyPair>, es: seq<Entry>, k: KeyPair) returns (e: Entry)
    requires ProperEntries(es) && k in Marked(pool, es) && k.hasCert && forall p :: p in pool ==> !p.hasCert
    ensures e in es && |e.name| == 8 && |e.dir| == 8 && e.efid < 0x10000 && IsCertificate(e) && k.pubFileId == PathOf(e)
  {
    hide IsCertificate;
    var last := es[|es| - 1];
    if IsCertificate(last) {
      MarkNames(Marked(pool, es[..|es| - 1]), NamedContainer(last), PathOf(last), k);
    }
    if IsCertificate(last) && k.pubFileId == PathOf(last) {
      e := last;
    } else {
      e := MarkedNames(pool, es[..|es| - 1], k);
    }
  }

  // ---- As the card says it ----

  /** Container `c` holds a key pair of a supported size. */
  predicate Usable(content: seq<byte>, n: nat, c: nat)
    requires n <= |content| / CONTAINER_RECORD
  {
    c < n &&
    var r := Container(content, c);
    r[0] != 0 && (if Word(r[4], r[5]) == 0 then Word(r[6], r[7]) in {0x400, 0x800} else Word(r[4], r[5]) in {0x400, 0x800})
  }

  /** The last directory entry that is a certificate file of container `c`. */
  function CertificateOf(es: seq<Entry>, c: nat): (e: Option<Entry>)
    requires ProperEntries(es)
    ensures e.Some? ==> e.value in es && e.value.efid < 0x10000
  {
    if es == [] then None
    else
      var last := es[|es| - 1];
      if IsCertificate(last) && NamedContainer(last) == c then Some(last) else CertificateOf(es[..|es| - 1], c)
  }

  /** What the index must hold for a usable container. */
  function DirectKey(content: seq<byte>, n: nat, es: seq<Entry>, c: nat): KeyPair
    requires n <= |content| / CONTAINER_RECORD && Usable(content, n, c) && c < 15 && ProperEntries(es)
  {
    var r := Container(content, c);
    var decryption := Word(r[4], r[5]) == 0;
    var sizeInBits := if decryption then Word(r[6], r[7]) else Word(r[4], r[5]);
    var file := CertificateOf(es, c);
    KeyPair((if sizeInBits == 0x400 then (if decryption then 0x10 else 0x20) else (if decryption then 0x30 else 0x40)) + c + 1,
            if decryption then SIGNATURE_FLAG + DECRYPTION_FLAG + RSA_FLAG else SIGNATURE_FLAG + RSA_FLAG,
            sizeInBits, if file.Some? then PathOf(file.value) else [0, 0], file.Some?)
  }

  /** Record `m` is usable and there is room for it in the pool. */
  predicate Enters(content: seq<byte>, n: nat, m: nat)
    requires n <= |content| / CONTAINER_RECORD
  {
    Usable(content, n, m) && |PoolUpTo(content, m)| < KEY_POOL_SIZE
  }

  /**
   Container numbers are bytes, and the low digit of a key identifier tells only fifteen of them apart.
   So usable containers must be among the first fifteen; and a usable record behind the last container
   number that enters the pool must have a digit no container is asked for by, or that of a usable one.
   */
  ghost predicate WellNumbered(content: seq<byte>, n: nat)
    requires n <= |content| / CONTAINER_RECORD
  {
    && (forall c: nat :: c < 256 && Usable(content, n, c) ==> c < 15)
    && (forall m: nat :: 256 <= m && Enters(content, n, m) ==> m % 16 == 15 || Usable(content, n, m % 16))
  }

  // ---- They agree ----

  lemma IdentifierLow(keyClass: byte, i: byte)
    requires keyClass in {0x10, 0x20, 0x30, 0x40}
    ensures Identifier(keyClass, i) % 16 == (i + 1) % 16
    ensures i < 15 ==> Identifier(keyClass, i) == keyClass + i + 1
  {
    Sixteen();
    hide Or, Pow2;
    var k := keyClass / 16;
    assert keyClass == k * 16;
    OrLow(keyClass, i + 1, 4);
    var x := Or(keyClass, i + 1);
    assert x % 256 % 16 == x % 16;
    if i < 15 {
      OrAdds(k, i + 1, 4);
    }
  }

  lemma Sixteen()
    ensures Pow2(4) == 16
  {
  }

  /** The identifier of the entry for record `i`: its number modulo 16, or none that any container has. */
  lemma RecordIdentifier(content: seq<byte>, n: nat, i: nat)
    requires i < n <= |content| / CONTAINER_RECORD && Container(content, i)[0] != 0
    ensures var k := KeyOf(Container(content, i), i % 256, 0);
            if Usable(content, n, i) then k.kid % 16 == (i + 1) % 16 else k.kid == 0
  {
    hide Identifier, Word, Container;
    var r := Container(content, i);
    var k := KeyOf(r, i % 256, 0);
    var keyClass := ClassOf(k.sizeInBits, Word(r[4], r[5]) == 0);
    if keyClass.Some? {
      IdentifierLow(keyClass.value, i % 256);
      LowDigit(i);
    }
  }

  lemma LowDigit(i: nat)
    ensures (i % 256 + 1) % 16 == (i + 1) % 16
  {
  }

  lemma {:induction false} LookupAppend(pool: seq<KeyPair>, k: KeyPair, c: int)
    ensures Lookup(pool + [k], c) ==
            if Lookup(pool, c).Some? then Lookup(pool, c) else if For(k, c) then Some(k) else None
  {
    if pool == [] {
      assert pool + [k] == [k];
    } else {
      assert (pool + [k])[1..] == pool[1..] + [k];
      LookupAppend(pool[1..], k, c);
    }
  }

  lemma UsableRecord(content: seq<byte>, n: nat, i: nat)
    requires i < n <= |content| / CONTAINER_RECORD
    ensures Usable(content, n, i) ==> Container(content, i)[0] != 0
  {
  }

  lemma EmptyLookup(c: int)
    ensures Lookup([], c).None?
  {
  }

  /** A record among the container numbers stands for its own container, if it is usable. */
  lemma EarlyRecord(content: seq<byte>, n: nat, m: nat, c: nat)
    requires m < n <= |content| / CONTAINER_RECORD && WellNumbered(content, n) && m < 256
    requires Container(content, m)[0] != 0
    ensures For(KeyOf(Container(content, m), m % 256, 0), c) <==> c == m && Usable(content, n, m)
  {
    hide KeyOf, Container, Usable;
    RecordIdentifier(content, n, m);
  }

  lemma DigitBefore(m: nat)
    ensures (m + 1) % 16 - 1 == if m % 16 == 15 then -1 else m % 16
  {
  }

  /** A record behind them that enters the pool stands at most for a usable container. */
  lemma LateRecord(content: seq<byte>, n: nat, m: nat, c: nat)
    requires m < n <= |content| / CONTAINER_RECORD && WellNumbered(content, n) && 256 <= m
    requires Container(content, m)[0] != 0 && |PoolUpTo(content, m)| < KEY_POOL_SIZE
    ensures For(KeyOf(Container(content, m), m % 256, 0), c) ==> c < m && Usable(content, n, c)
  {
    hide KeyOf, Container, Usable, PoolUpTo;
    RecordIdentifier(content, n, m);
    if Usable(content, n, m) {
      assert Enters(content, n, m);
      DigitBefore(m);
    }
  }

  /** Looking a container up after the first `m` records. */
  lemma {:induction false} LookupPool(content: seq<byte>, n: nat, m: nat, c: nat)
    requires m <= n <= |content| / CONTAINER_RECORD && WellNumbered(content, n) && c < 256
    ensures Lookup(PoolUpTo(content, m), c) ==
            if c < m && Usable(content, n, c) then Some(KeyOf(Container(content, c), c % 256, 0)) else None
  {
    hide KeyOf, Usable, Lookup, WellNumbered, For;
    if m > 0 {
      LookupPool(content, n, m - 1, c);
      var pool, r := PoolUpTo(content, m - 1), Container(content, m - 1);
      LookupAppend(pool, KeyOf(r, (m - 1) % 256, 0), c);
      UsableRecord(content, n, m - 1);
      EarlyPool(content, m - 1);
      if r[0] != 0 && |pool| < KEY_POOL_SIZE {
        if m - 1 < 256 {
          EarlyRecord(content, n, m - 1, c);
        } else {
          LateRecord(content, n, m - 1, c);
        }
      } else if c == m - 1 && Usable(content, n, c) {
        FirstFifteen(content, n, c);
      }
    } else {
      EmptyLookup(c);
    }
  }

  lemma {:induction false} EarlyPool(content: seq<byte>, m: nat)
    requires m <= |content| / CONTAINER_RECORD
    ensures |PoolUpTo(content, m)| <= m
  {
  }

  lemma FirstFifteen(content: seq<byte>, n: nat, c: nat)
    requires n <= |content| / CONTAINER_RECORD && WellNumbered(content, n) && c < 256 && Usable(content, n, c)
    ensures c < 15
  {
  }

  lemma {:induction false} LookupMark(pool: seq<KeyPair>, d: int, fileId: seq<byte>, c: int)
    ensures var k := Lookup(pool, c);
            Lookup(Mark(pool, d, fileId), c) ==
            if k.Some? && c == d then Some(k.value.(pubFileId := fileId, hasCert := true)) else k
  {
    if pool != [] {
      LookupMark(pool[1..], d, fileId, c);
    }
  }

  lemma {:induction false} LookupMarked(pool: seq<KeyPair>, es: seq<Entry>, c: nat)
    requires ProperEntries(es)
    ensures var k, e := Lookup(pool, c), CertificateOf(es, c);
            Lookup(Marked(pool, es), c) ==
            if k.Some? && e.Some? then Some(k.value.(pubFileId := PathOf(e.value), hasCert := true)) else k
  {
    if es != [] {
      var init, last := es[..|es| - 1], es[|es| - 1];
      LookupMarked(pool, init, c);
      LookupMark(Marked(pool, init), NamedContainer(last), PathOf(last), c);
    }
  }

  /** When the records are well numbered, the index holds exactly what the card says about each container. */
  lemma IndexIsDirect(content: seq<byte>, n: nat, es: seq<Entry>, c: nat)
    requires n <= |content| / CONTAINER_RECORD && WellNumbered(content, n) && ProperEntries(es) && c < 256
    ensures Lookup(Marked(PoolUpTo(content, n), es), c) ==
            if Usable(content, n, c) then Some(DirectKey(content, n, es, c)) else None
  {
    hide Lookup, Marked, PoolUpTo, KeyOf, CertificateOf, DirectKey, Container, Word;
    LookupPool(content, n, n, c);
    LookupMarked(PoolUpTo(content, n), es, c);
    if Usable(content, n, c) {
      RecordIsDirect(content, n, es, c);
    }
  }

  lemma RecordIsDirect(content: seq<byte>, n: nat, es: seq<Entry>, c: nat)
    requires n <= |content| / CONTAINER_RECORD && Usable(content, n, c) && c < 15 && ProperEntries(es)
    ensures var k, e := KeyOf(Container(content, c), c, 0), CertificateOf(es, c);
            DirectKey(content, n, es, c) ==
            if e.Some? then k.(pubFileId := PathOf(e.value), hasCert := true) else k
  {
    hide Identifier, Word, Container, CertificateOf;
    var r := Container(content, c);
    var k := KeyOf(r, c, 0);
    IdentifierLow(ClassOf(k.sizeInBits, Word(r[4], r[5]) == 0).value, c);
  }

  /** The index the program builds from a card whose container file announces itself, container by container. */
  lemma IndexTellsTheCard(files: Files, c: nat)
    requires SaneIndex(files) && CONTAINERS in files && Announces(files[CONTAINERS])
    requires WellNumbered(files[CONTAINERS].content, Containers(files)) && c < 256
    ensures var content, n := files[CONTAINERS].content, Containers(files);
            && Index(files).Some?
            && Lookup(Index(files).value, c) ==
               if Usable(content, n, c) then Some(DirectKey(content, n, Listing(files), c)) else None
  {
    IndexIsDirect(files[CONTAINERS].content, Containers(files), Listing(files), c);
    hide Lookup, Marked, PoolUpTo, DirectKey, Usable, Containers, Listing;
  }

  /** Only such cards are indexed correctly. */
  lemma IndexIsDirectExactly(content: seq<byte>, n: nat, es: seq<Entry>)
    requires n <= |content| / CONTAINER_RECORD && ProperEntries(es)
    ensures (forall c: nat :: c < 256 ==> (Lookup(Marked(PoolUpTo(content, n), es), c).Some? <==> Usable(content, n, c)))
            <==> WellNumbered(content, n)
  {
    hide Marked, PoolUpTo, Lookup, Usable, Enters;
    var index := Marked(PoolUpTo(content, n), es);
    if WellNumbered(content, n) {
      forall c: nat | c < 256
        ensures Lookup(index, c).Some? <==> Usable(content, n, c)
      {
        IndexIsDirect(content, n, es, c);
      }
    } else if c: nat :| c < 256 && Usable(content, n, c) && 15 <= c {
      NoneFor(index, c);
    } else {
      var m: nat :| 256 <= m && Enters(content, n, m) && m % 16 != 15 && !Usable(content, n, m % 16);
      InPool(content, n, m);
      LookupMarked(PoolUpTo(content, n), es, m % 16);
    }
  }

  /** How many of the first `n` records are in use. */
  function InUse(content: seq<byte>, n: nat): (k: nat)
    requires n <= |content| / CONTAINER_RECORD
  {
    if n == 0 then 0 else InUse(content, n - 1) + if Container(content, n - 1)[0] == 0 then 0 else 1
  }

  /** The pool holds sixteen key pairs: the first that are in use, of supported size or not. */
  lemma {:induction false} PoolSize(content: seq<byte>, n: nat)
    requires n <= |content| / CONTAINER_RECORD
    ensures |PoolUpTo(content, n)| == Min(16, InUse(content, n))
  {
    hide KeyOf, Container;
    if n > 0 {
      PoolSize(content, n - 1);
    }
  }

  /** No key pair stands for a container from 15 on. */
  lemma NoneFor(index: seq<KeyPair>, c: nat)
    requires 15 <= c
    ensures Lookup(index, c).None?
  {
    assert forall k: KeyPair :: !For(k, c);
  }

  /** A usable record that enters the pool is found under the low digit of its number. */
  lemma {:induction false} InPool(content: seq<byte>, n: nat, m: nat)
    requires n <= |content| / CONTAINER_RECORD && Enters(content, n, m) && m % 16 != 15
    ensures Lookup(PoolUpTo(content, n), m % 16).Some?
    decreases n
  {
    hide KeyOf, Lookup, Container;
    var pool, r := PoolUpTo(content, n - 1), Container(content, n - 1);
    LookupAppend(pool, KeyOf(r, (n - 1) % 256, 0), m % 16);
    if m < n - 1 {
      InPool(content, n - 1, m);
    } else {
      RecordIdentifier(content, n, m);
      UsableRecord(content, n, m);
    }
  }

  /** With at most 15 containers every card is well numbered. */
  lemma FifteenContainers(content: seq<byte>, n: nat)
    requires n <= |content| / CONTAINER_RECORD && n <= 15
    ensures WellNumbered(content, n)
  {
  }

  /** The seventeenth container is found under the number of the first: a card the index gets wrong. */
  lemma SeventeenthContainer()
    ensures var content := seq(16 * CONTAINER_RECORD, _ => 0) + [1, 0, 0, 0, 8, 0, 0, 0, 0, 0, 0];
            && RecordCount(content, |content|) == 17
            && !Usable(content, 17, 0) && Lookup(PoolUpTo(content, 17), 0).Some?
  {
    var zeros: seq<byte> := seq(16 * CONTAINER_RECORD, _ => 0);
    var content := zeros + [1, 0, 0, 0, 8, 0, 0, 0, 0, 0, 0];
    EmptyContainers(content, 16);
    var r := Container(content, 16);
    assert r == [1, 0, 0, 0, 8, 0, 0, 0, 0, 0, 0];
    assert Container(content, 0)[0] == content[0] == 0;
    SeventeenthKey(r);
    hide Container, KeyOf;
    assert PoolUpTo(content, 17) == [KeyOf(r, 16, 0)];
  }

  lemma SeventeenthKey(r: seq<byte>)
    requires r == [1, 0, 0, 0, 8, 0, 0, 0, 0, 0, 0]
    ensures For(KeyOf(r, 16, 0), 0)
  {
    IdentifierLow(0x40, 16);
    hide Identifier;
    assert Word(r[4], r[5]) == 0x800;
  }

  lemma {:induction false} LookupFirst(pool: seq<KeyPair>, c: int, j: nat)
    requires j < |pool| && For(pool[j], c) && forall k :: 0 <= k < j ==> !For(pool[k], c)
    ensures Lookup(pool, c) == Some(pool[j])
  {
    if 0 < j {
      LookupFirst(pool[1..], c, j - 1);
    }
  }

  /** Marking finds the first key pair of the container. */
  lemma {:induction false} MarkAt(pool: seq<KeyPair>, c: int, fileId: seq<byte>, j: nat)
    requires j <= |pool| && forall k :: 0 <= k < j ==> !For(pool[k], c)
    requires j < |pool| ==> For(pool[j], c)
    ensures Mark(pool, c, fileId) ==
            if j < |pool| then pool[j := pool[j].(pubFileId := fileId, hasCert := true)] else pool
  {
    if 0 < j {
      MarkAt(pool[1..], c, fileId, j - 1);
    }
  }

  /** A full pool takes no more records. */
  lemma {:induction false} FullStays(content: seq<byte>, m: nat, n: nat)
    requires m <= n <= |content| / CONTAINER_RECORD && |PoolUpTo(content, m)| == KEY_POOL_SIZE
    ensures PoolUpTo(content, n) == PoolUpTo(content, m)
  {
    if m < n {
      FullStays(content, m, n - 1);
    }
  }

  /** Record `m` counts exactly when its offset is below `size` and it can be read in full. */
  lemma RecordsBelow(content: seq<byte>, size: nat, m: nat)
    ensures m < RecordCount(content, size)
            <==> m * CONTAINER_RECORD < size && m * CONTAINER_RECORD + CONTAINER_RECORD <= |content|
  {
  }

  lemma KeyHasNoCertificate(r: seq<byte>, i: byte, oldKid: byte)
    requires |r| == CONTAINER_RECORD
    ensures !KeyOf(r, i, oldKid).hasCert
  {
  }

  lemma {:induction false} EmptyContainers(content: seq<byte>, n: nat)
    requires n <= |content| / CONTAINER_RECORD
    requires forall i :: 0 <= i < n * CONTAINER_RECORD ==> content[i] == 0
    ensures PoolUpTo(content, n) == []
  {
    if n > 0 {
      EmptyContainers(content, n - 1);
      assert Container(content, n - 1)[0] == content[(n - 1) * CONTAINER_RECORD];
    }
  }
}
