/**
 The loop over the container records as the card's answers drive it: a read that fails to reach the
 card is passed over, as if its record were invalid.
 */
module Listings {
  import opened Bytes
  import opened Cards
  import opened Chunks
  import opened Fcp
  import opened KeyIndex

  /** The pool after the answer to the read of record `m`; none where the program leaves the loop. */
  function PoolStep(pool: seq<KeyPair>, a: Option<Answer>, m: nat): (p: Option<seq<KeyPair>>)
    ensures p.Some? ==> |pool| <= |p.value| <= |pool| + 1 && (|pool| <= KEY_POOL_SIZE ==> |p.value| <= KEY_POOL_SIZE)
  {
    if a.None? then Some(pool)
    else if Sw(a.value) != OK || |Data(a.value)| != CONTAINER_RECORD then None
    else if Data(a.value)[0] == 0 then Some(pool)
    else if |pool| == KEY_POOL_SIZE then None
    else Some(pool + [KeyOf(Data(a.value), m % 256, 0)])
  }

  datatype Pooled = Pooled(card: Card, pool: seq<KeyPair>)

  /** The card and the pool after the loop from record `m` on. */
  function PoolRead(c: Card, ch: byte, size: nat, m: nat, pool: seq<KeyPair>): (r: Pooled)
    requires size <= 0x8000
    ensures |pool| <= KEY_POOL_SIZE ==> |r.pool| <= KEY_POOL_SIZE
    decreases size - m * CONTAINER_RECORD
  {
    if size <= m * CONTAINER_RECORD then Pooled(c, pool)
    else
      var s := Send(c, ReadCommand(ch, m * CONTAINER_RECORD, CONTAINER_RECORD));
      var next := PoolStep(pool, s.answer, m);
      if next.None? then Pooled(s.card, pool) else PoolRead(s.card, ch, size, m + 1, next.value)
  }

  lemma NextRecord(c: Card, ch: byte, size: nat, m: nat, pool: seq<KeyPair>)
    requires size <= 0x8000
    ensures m * CONTAINER_RECORD < size ==>
              var s := Send(c, ReadCommand(ch, m * CONTAINER_RECORD, CONTAINER_RECORD));
              var next := PoolStep(pool, s.answer, m);
              PoolRead(c, ch, size, m, pool) == if next.None? then Pooled(s.card, pool) else PoolRead(s.card, ch, size, m + 1, next.value)
    ensures size <= m * CONTAINER_RECORD ==> PoolRead(c, ch, size, m, pool) == Pooled(c, pool)
  {
    hide Send, ReadCommand, PoolStep;
  }

  /** One read of a record: its answer is the record, the end of the file, or lost. */
  lemma RecordRead(c: Card, ch: byte, f: EF, m: nat)
    requires Current(c, ch, f) && |f.content| <= f.whole && m * CONTAINER_RECORD < 0x8000
    ensures var s := Send(c, ReadCommand(ch, m * CONTAINER_RECORD, CONTAINER_RECORD));
            && Current(s.card, ch, f) && c.Losses() <= s.card.Losses()
            && (s.answer.Some? <==> s.card.Losses() == c.Losses())
            && (s.answer.Some? ==>
                  (Sw(s.answer.value) == OK <==> m < |f.content| / CONTAINER_RECORD))
            && (s.answer.Some? && m < |f.content| / CONTAINER_RECORD ==> Data(s.answer.value) == Container(f.content, m))
  {
    var offset := m * CONTAINER_RECORD;
    SendRead(c, ch, offset, CONTAINER_RECORD);
    ReadOutcome(f, offset, CONTAINER_RECORD, c.Now().short);
    SendCounted(c, ReadCommand(ch, offset, CONTAINER_RECORD));
    hide Send, Undisturbed, ReadFile, Steady;
  }

  /** When no read is lost the loop builds the pool of all records. */
  lemma {:induction false} PoolReadWhole(c: Card, ch: byte, f: EF, size: nat, m: nat)
    requires Current(c, ch, f) && |f.content| <= f.whole && size <= 0x8000 && m <= RecordCount(f.content, size)
    ensures var r := PoolRead(c, ch, size, m, PoolUpTo(f.content, m));
            && c.Losses() <= r.card.Losses()
            && (r.card.Losses() == c.Losses() ==> r.pool == PoolUpTo(f.content, RecordCount(f.content, size)))
    decreases size - m * CONTAINER_RECORD
  {
    hide Send, Current, ReadCommand, KeyOf, Container, RecordCount;
    RecordsBelow(f.content, size, m);
    var pool := PoolUpTo(f.content, m);
    if m * CONTAINER_RECORD < size {
      RecordRead(c, ch, f, m);
      var s := Send(c, ReadCommand(ch, m * CONTAINER_RECORD, CONTAINER_RECORD));
      var next := PoolStep(pool, s.answer, m);
      if s.answer.None? {
        PoolReadCounts(s.card, ch, f, size, m + 1, pool);
      } else if next.Some? {
        PoolReadWhole(s.card, ch, f, size, m + 1);
      } else if m < |f.content| / CONTAINER_RECORD {
        FullStays(f.content, m, RecordCount(f.content, size));
      }
    }
  }

  lemma PoolFromStart(c: Card, ch: byte, f: EF, size: nat)
    requires Current(c, ch, f) && |f.content| <= f.whole && size <= 0x8000
    ensures var r := PoolRead(c, ch, size, 0, []);
            && c.Losses() <= r.card.Losses()
            && (r.card.Losses() == c.Losses() ==> r.pool == PoolUpTo(f.content, RecordCount(f.content, size)))
  {
    PoolReadWhole(c, ch, f, size, 0);
    hide PoolRead, Current, RecordCount;
  }

  lemma {:induction false} PoolReadCounts(c: Card, ch: byte, f: EF, size: nat, m: nat, pool: seq<KeyPair>)
    requires Current(c, ch, f) && |f.content| <= f.whole && size <= 0x8000
    ensures c.Losses() <= PoolRead(c, ch, size, m, pool).card.Losses() && |pool| <= |PoolRead(c, ch, size, m, pool).pool|
    decreases size - m * CONTAINER_RECORD
  {
    hide Send, Current, ReadCommand, PoolStep;
    if m * CONTAINER_RECORD < size {
      RecordRead(c, ch, f, m);
      var s := Send(c, ReadCommand(ch, m * CONTAINER_RECORD, CONTAINER_RECORD));
      var next := PoolStep(pool, s.answer, m);
      if next.Some? {
        PoolReadCounts(s.card, ch, f, size, m + 1, next.value);
      }
    }
  }

  /** The same key pairs in the same places; they may differ in their certificates. */
  predicate SameKeys(pool: seq<KeyPair>, index: seq<KeyPair>) {
    |index| == |pool| && forall k :: 0 <= k < |pool| ==> index[k].kid == pool[k].kid
  }

  lemma SameKeysStill(a: seq<KeyPair>, b: seq<KeyPair>, c: seq<KeyPair>)
    ensures SameKeys(a, a)
    ensures SameKeys(a, b) && SameKeys(b, c) ==> SameKeys(a, c)
  {
  }

  lemma {:induction false} SameKeysFound(pool: seq<KeyPair>, index: seq<KeyPair>, c: int)
    requires SameKeys(pool, index)
    ensures Lookup(index, c).Some? <==> Lookup(pool, c).Some?
  {
    if pool != [] {
      SameKeysFound(pool[1..], index[1..], c);
    }
  }

  /** A first listing begun at `c` goes ahead: the containers' file is selected and answers as a file does. */
  predicate Lists(c: Card, ch: byte, fs: Files) {
    Send(c, PathCommand(ch, CONTAINERS, Some(0x15))).Succeeded() && CONTAINERS in fs && Announces(fs[CONTAINERS])
  }

  /**
   What such a listing comes to: the pool is what the loop over the containers' records made of the
   answers, and if none of the commands behind it was lost by `d` the directory's certificates are marked.
   */
  ghost predicate ListedFrom(c: Card, ch: byte, fs: Files, index: seq<KeyPair>, d: Card)
    requires SaneIndex(fs)
  {
    && Lists(c, ch, fs)
    && var p := PoolRead(Send(c, PathCommand(ch, CONTAINERS, Some(0x15))).card, ch, TotalSize(fs[CONTAINERS].fcp[2..], 0), 0, []);
       && SameKeys(p.pool, index) && p.card.Losses() <= d.Losses()
       && (p.card.Losses() == d.Losses() ==> index == Marked(p.pool, Listing(fs)))
  }

  /** The loop goes on behind a lost read: each costs no more than its own key pair. */
  lemma {:induction false} PoolLossBound(c: Card, ch: byte, f: EF, size: nat, m: nat, pool: seq<KeyPair>)
    requires Current(c, ch, f) && |f.content| <= f.whole && size <= 0x8000 && m <= RecordCount(f.content, size) <= 16
    requires |pool| <= |PoolUpTo(f.content, m)|
    ensures var r := PoolRead(c, ch, size, m, pool);
            && c.Losses() <= r.card.Losses()
            && |PoolUpTo(f.content, RecordCount(f.content, size))| - |PoolUpTo(f.content, m)|
               <= |r.pool| - |pool| + (r.card.Losses() - c.Losses())
    decreases size - m * CONTAINER_RECORD
  {
    hide Send, Current, ReadCommand, KeyOf, Container, RecordCount;
    RecordsBelow(f.content, size, m);
    var n := RecordCount(f.content, size);
    if m * CONTAINER_RECORD < size {
      RecordRead(c, ch, f, m);
      var s := Send(c, ReadCommand(ch, m * CONTAINER_RECORD, CONTAINER_RECORD));
      var next := PoolStep(pool, s.answer, m);
      if next.Some? {
        if m < n {
          PoolLossBound(s.card, ch, f, size, m + 1, next.value);
        } else {
          PoolReadCounts(s.card, ch, f, size, m + 1, next.value);
        }
      }
    }
  }

  /** A lost read of the only record leaves the pool empty. */
  lemma LostRecord(c: Card, ch: byte, size: nat)
    requires 0 < size <= CONTAINER_RECORD && c.Now().drop
    ensures PoolRead(c, ch, size, 0, []) == Pooled(c.Missed(), [])
  {
    assert Send(c, ReadCommand(ch, 0, CONTAINER_RECORD)) == Sent(c.Missed(), None);
    assert PoolRead(c.Missed(), ch, size, 1, []) == Pooled(c.Missed(), []);
  }
}
