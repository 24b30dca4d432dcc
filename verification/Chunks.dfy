/**
 Reading a stretch of a file chunk by chunk, as the loops of `p11GetObjectByLabel` and
 `getCertificateByContainerId` do: they go on behind a chunk whose read has failed.
 */
module Chunks {
  import opened Bytes
  import opened Cards

  const CHUNK: nat := 0xEE

  function ReadCommand(ch: byte, offset: nat, le: byte): (apdu: seq<byte>)
    requires offset < 0x8000
    ensures |apdu| == 5
  {
    Case2(ch, READ_BINARY, offset / 256, offset % 256, le)
  }

  /** SELECT by path from the MF, asking for the control parameters. */
  function PathCommand(ch: byte, path: seq<byte>, le: Option<byte>): (apdu: seq<byte>)
    ensures |apdu| >= 4
  {
    if le.Some? then Case4(ch, SELECT, 0x08, 0x04, path, le.value) else Case3(ch, SELECT, 0x08, 0x04, path)
  }

  /** The card after the loop, and which bytes of the stretch have arrived. */
  datatype Chunked = Chunked(card: Card, arrived: seq<bool>)

  /** The bytes that a chunk of `len` brings: none when its read fails. */
  function Brought(a: Option<Answer>, len: nat): (n: nat)
    ensures n <= len
  {
    if a.Some? && Sw(a.value) == OK && |a.value| - 2 <= len then |a.value| - 2 else 0
  }

  /** Which bytes have arrived, after a chunk of `len` that brought `n`: the loop goes on behind these or, if none came, behind the chunk. */
  function Passed(arrived: seq<bool>, n: nat, len: nat): (more: seq<bool>)
    ensures |more| == |arrived| + (if n > 0 then n else len) && arrived <= more
    ensures forall k :: |arrived| <= k < |more| ==> more[k] == (n > 0)
  {
    arrived + (if n > 0 then seq(n, _ => true) else seq(len, _ => false))
  }

  /** The loop over `size` bytes from `start` on, of which it has passed the first `|arrived|`. */
  function InChunks(c: Card, ch: byte, start: nat, size: nat, arrived: seq<bool>): (r: Chunked)
    requires |arrived| <= size && start + size <= 0x8000
    ensures |r.arrived| == size && arrived <= r.arrived
    decreases size - |arrived|
  {
    if |arrived| == size then Chunked(c, arrived)
    else
      var len := Min(CHUNK, size - |arrived|);
      var s := Send(c, ReadCommand(ch, start + |arrived|, len));
      var n := Brought(s.answer, len);
      InChunks(s.card, ch, start, size, Passed(arrived, n, len))
  }

  /** The loop's next chunk: 238 bytes, or as many as are left. */
  lemma NextChunk(c: Card, ch: byte, start: nat, size: nat, arrived: seq<bool>, len: nat)
    requires |arrived| < size && start + size <= 0x8000 && len == Min(238, size - |arrived|)
    ensures var s := Send(c, ReadCommand(ch, start + |arrived|, len));
            InChunks(c, ch, start, size, arrived) == InChunks(s.card, ch, start, size, Passed(arrived, Brought(s.answer, len), len))
  {
    hide Send, ReadCommand, Brought, Passed;
  }

  /** The current file of the channel. */
  predicate Current(c: Card, ch: byte, f: EF) {
    ch < 4 && ch in c.open && c.open[ch].ef.Some? && c.open[ch].ef.value in c.FilesOn(ch) && c.FilesOn(ch)[c.open[ch].ef.value] == f
  }

  /** One read in the course of a session that has come from `c` to `d`. */
  lemma ReadOnwards(c: Card, d: Card, ch: byte, f: EF, offset: nat, le: byte)
    requires Undisturbed(c, d, ch) && Current(d, ch, f) && offset < 0x8000
    ensures var s := Send(d, ReadCommand(ch, offset, le));
            && Undisturbed(c, s.card, ch) && Looked(d, s.card) && Current(s.card, ch, f) && s.card.open == d.open && s.card.apps == d.apps
            && c.Losses() <= d.Losses() <= s.card.Losses() && (s.answer.Some? <==> s.card.Losses() == d.Losses())
            && (Steady(c) ==> Steady(s.card) && c.Losses() == s.card.Losses())
            && (s.answer.Some? ==>
                  var a := s.answer.value;
                  && (Sw(a) == OK <==> offset < |f.content| && offset + le <= |f.content|)
                  && (Sw(a) == OK ==>
                        && 1 <= |Data(a)| <= (if le == 0 then 256 else le) && offset + |Data(a)| <= |f.content|
                        && a == f.content[offset..offset + |Data(a)|] + [0x90, 0x00]
                        && (offset < f.whole && le > 0 ==> |Data(a)| == le)))
  {
    SendReadOnwards(c, d, ch, offset, le);
    var e := Send(d, ReadCommand(ch, offset, le)).card;
    assert e.apps == d.apps by {
      SendRead(d, ch, offset, le);
      hide Send, Heard;
    }
    hide Send, Undisturbed, Steady, Looked;
  }

  /** One chunk: it brings bytes exactly when it is not lost. */
  lemma OneChunk(c: Card, ch: byte, f: EF, offset: nat, len: byte)
    requires Current(c, ch, f) && 0 < len && offset + len <= |f.content| && offset < 0x8000
    ensures var s := Send(c, ReadCommand(ch, offset, len));
            && Current(s.card, ch, f) && c.Losses() <= s.card.Losses()
            && (0 < Brought(s.answer, len) <==> s.card.Losses() == c.Losses())
  {
    SendRead(c, ch, offset, len);
    ReadOutcome(f, offset, len, c.Now().short);
    SendCounted(c, ReadCommand(ch, offset, len));
    hide Send, Undisturbed, ReadFile, Steady;
  }

  /** All bytes of a stretch of the file arrive exactly when no read of the loop is lost. */
  lemma {:induction false} ArriveExactly(c: Card, ch: byte, f: EF, start: nat, size: nat, arrived: seq<bool>)
    requires Current(c, ch, f) && |arrived| <= size && start + size <= |f.content| && start + size <= 0x8000
    ensures var r := InChunks(c, ch, start, size, arrived);
            && c.Losses() <= r.card.Losses()
            && ((forall k :: |arrived| <= k < size ==> r.arrived[k]) <==> r.card.Losses() == c.Losses())
    decreases size - |arrived|
  {
    hide Send, Current, Brought, ReadCommand;
    if |arrived| < size {
      var len := Min(CHUNK, size - |arrived|);
      OneChunk(c, ch, f, start + |arrived|, len);
      var s := Send(c, ReadCommand(ch, start + |arrived|, len));
      var n := Brought(s.answer, len);
      var more := Passed(arrived, n, len);
      var r := InChunks(s.card, ch, start, size, more);
      assert r.arrived[|arrived|] == more[|arrived|];
      assert forall k :: |arrived| <= k < |more| ==> r.arrived[k] == more[k];
      ArriveExactly(s.card, ch, f, start, size, more);
    }
  }

  /** A buffer that held `before`, when the bytes of `value` that have arrived are written into it. */
  function Overlaid(before: seq<byte>, arrived: seq<bool>, value: seq<byte>): (b: seq<byte>)
    requires |before| == |arrived| == |value|
    ensures |b| == |value|
  {
    seq(|value|, k requires 0 <= k < |value| => if arrived[k] then value[k] else before[k])
  }

  /** The buffer `now` once the loop has passed the first `i` bytes of the stretch. */
  ghost predicate FilledTo(i: nat, before: seq<byte>, arrived: seq<bool>, value: seq<byte>, now: seq<byte>) {
    i == |arrived| <= |value| <= |before| && now == Overlaid(before[..i], arrived, value[..i]) + before[i..]
  }

  /** `bytes` have been written at `at`, and nothing else. */
  ghost predicate Wrote(at: nat, bytes: seq<byte>, now: seq<byte>, next: seq<byte>) {
    && at + |bytes| <= |now| == |next|
    && next[..at] == now[..at] && next[at..at + |bytes|] == bytes && next[at + |bytes|..] == now[at + |bytes|..]
  }

  lemma FilledMore(i: nat, before: seq<byte>, arrived: seq<bool>, value: seq<byte>, now: seq<byte>, brought: nat, len: nat, next: seq<byte>)
    requires FilledTo(i, before, arrived, value, now) && i + (if brought > 0 then brought else len) <= |value|
    requires Wrote(i, value[i..i + brought], now, next)
    ensures FilledTo(i + (if brought > 0 then brought else len), before, Passed(arrived, brought, len), value, next)
  {
    var more := Passed(arrived, brought, len);
    var step := if brought > 0 then brought else len;
    forall k | 0 <= k < |next|
      ensures next[k] == (Overlaid(before[..i + step], more, value[..i + step]) + before[i + step..])[k]
    {
      if k < i {
        assert next[k] == next[..i][k] == now[..i][k] == now[k];
      } else if k < i + brought {
        assert next[k] == next[i..i + brought][k - i] == value[i..i + brought][k - i];
      } else {
        assert next[k] == next[i + brought..][k - i - brought] == now[i + brought..][k - i - brought] == now[k];
      }
    }
  }

  lemma NothingFilled(before: seq<byte>, value: seq<byte>)
    requires |value| <= |before|
    ensures FilledTo(0, before, [], value, before)
  {
  }

  lemma AllFilled(before: seq<byte>, arrived: seq<bool>, value: seq<byte>, now: seq<byte>)
    requires FilledTo(|value|, before, arrived, value, now)
    ensures |arrived| == |value| <= |before| && now == Overlaid(before[..|value|], arrived, value) + before[|value|..]
    ensures (forall k :: 0 <= k < |arrived| ==> arrived[k]) ==> now[..|value|] == value
  {
    assert value[..|value|] == value;
  }

  /** Whatever the buffer held before, it then holds the value, exactly when all bytes have arrived. */
  lemma FilledExactly(arrived: seq<bool>, value: seq<byte>)
    requires |arrived| == |value|
    ensures (forall before: seq<byte> :: |before| == |value| ==> Overlaid(before, arrived, value) == value)
            <==> (forall k :: 0 <= k < |arrived| ==> arrived[k])
  {
    if k :| 0 <= k < |arrived| && !arrived[k] {
      var other: seq<byte> := seq(|value|, i requires 0 <= i < |value| => if value[i] == 0 then 1 else 0);
      assert Overlaid(other, arrived, value)[k] == other[k] != value[k];
    }
  }

  /** So the buffer holds the stretch of the file behind the loop, whatever it held before, exactly when no read was lost. */
  lemma ReadWholeExactly(c: Card, ch: byte, f: EF, start: nat, size: nat)
    requires Current(c, ch, f) && start + size <= |f.content| && start + size <= 0x8000
    ensures var r, value := InChunks(c, ch, start, size, []), f.content[start..start + size];
            (forall before: seq<byte> :: |before| == |value| ==> Overlaid(before, r.arrived, value) == value)
            <==> r.card.Losses() == c.Losses()
  {
    ArriveExactly(c, ch, f, start, size, []);
    FilledExactly(InChunks(c, ch, start, size, []).arrived, f.content[start..start + size]);
    hide Current, Overlaid, InChunks;
  }

  /** How many bytes have not arrived. */
  function Missing(arrived: seq<bool>): nat {
    if arrived == [] then 0 else Missing(arrived[..|arrived| - 1]) + if arrived[|arrived| - 1] then 0 else 1
  }

  lemma {:induction false} MissingMore(arrived: seq<bool>, n: nat, len: nat)
    ensures Missing(Passed(arrived, n, len)) == Missing(arrived) + if n > 0 then 0 else len
  {
    var step := if n > 0 then n else len;
    if step > 0 {
      var more := Passed(arrived, n, len);
      assert n > 1 || (n == 0 && len > 0) ==> more[..|more| - 1] == Passed(arrived, if n > 0 then n - 1 else 0, if n > 0 then 0 else len - 1);
      if n == 1 {
        assert more[..|more| - 1] == arrived;
      } else {
        MissingMore(arrived, if n > 0 then n - 1 else 0, if n > 0 then 0 else len - 1);
      }
    } else {
      assert Passed(arrived, n, len) == arrived;
    }
  }

  /** The loop goes on behind a lost chunk: each lost command costs no more than the 238 bytes it asked for. */
  lemma {:induction false} LossBound(c: Card, ch: byte, f: EF, start: nat, size: nat, arrived: seq<bool>)
    requires Current(c, ch, f) && |arrived| <= size && start + size <= |f.content| && start + size <= 0x8000
    ensures var r := InChunks(c, ch, start, size, arrived);
            Missing(r.arrived) <= Missing(arrived) + 238 * (r.card.Losses() - c.Losses())
    decreases size - |arrived|
  {
    hide Send, Current, Brought, ReadCommand, Missing;
    if |arrived| < size {
      var len := Min(CHUNK, size - |arrived|);
      OneChunk(c, ch, f, start + |arrived|, len);
      var s := Send(c, ReadCommand(ch, start + |arrived|, len));
      var n := Brought(s.answer, len);
      MissingMore(arrived, n, len);
      LossBound(s.card, ch, f, start, size, Passed(arrived, n, len));
    }
  }
}
