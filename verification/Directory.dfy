/** The file directory of the MIAS applet: a count byte followed by 21-byte records. */
module Directory {
  import opened Bytes
  import opened Cards

  const PATH: seq<byte> := [0x01, 0x01]
  const RECORD: nat := 0x15

  datatype Entry = Entry(efid: nat, size: nat, name: seq<byte>, dir: seq<byte>)

  function EntryOf(r: seq<byte>): (e: Entry)
    requires |r| == RECORD
    ensures |e.name| == 8 && |e.dir| == 8 && e.efid < 0x10000
  {
    Entry(Word(r[0], r[1]), Word(r[2], r[3]), r[4..12], r[12..20])
  }

  /** The number of records that are both announced and present. */
  function Count(content: seq<byte>): nat {
    if content == [] then 0 else Min(content[0], (|content| - 1) / RECORD)
  }

  function Record(content: seq<byte>, k: nat): (r: seq<byte>)
    requires k < Count(content)
    ensures |r| == RECORD
  {
    content[1 + k * RECORD..1 + k * RECORD + RECORD]
  }

  function Entries(content: seq<byte>): (es: seq<Entry>)
    ensures |es| == Count(content)
  {
    seq(Count(content), k requires 0 <= k < Count(content) => EntryOf(Record(content, k)))
  }

  function PathOf(e: Entry): seq<byte>
    requires e.efid < 0x10000
  {
    [e.efid / 256, e.efid % 256]
  }

  /** The k-th record can be read in full exactly when it is among the first `Count`. */
  lemma RecordPresent(content: seq<byte>, k: nat)
    requires content != [] && k < content[0]
    ensures k < Count(content) <==> 1 + k * RECORD + RECORD <= |content|
  {
  }
}
