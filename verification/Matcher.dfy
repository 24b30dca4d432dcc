/**
 A pattern matcher that starts over on a mismatch without looking at the mismatching character again,
 as the scan loop of `crop_pem_chain` does.
 */
module Matcher {
  import opened Bytes

  /** One step from `k` matched characters. */
  function Advance(pat: seq<byte>, k: nat, c: byte): (n: nat)
    requires k < |pat|
    ensures n <= |pat|
  {
    if c == pat[k] then k + 1 else 0
  }

  /** How much of the pattern is matched after a text that started with `k` matched; a complete match stands. */
  function Feed(pat: seq<byte>, k: nat, t: seq<byte>): (n: nat)
    requires k <= |pat|
    ensures n <= |pat|
  {
    if t == [] then k
    else
      var j := Feed(pat, k, t[..|t| - 1]);
      if j == |pat| then j else Advance(pat, j, t[|t| - 1])
  }

  function Matched(pat: seq<byte>, t: seq<byte>): (n: nat)
    ensures n <= |pat|
  {
    Feed(pat, 0, t)
  }

  /** The length kept by cropping: up to the first complete match, or everything. */
  function Cropped(pat: seq<byte>, t: seq<byte>): (n: nat)
    ensures n <= |t|
  {
    if t != [] && Matched(pat, t[..|t| - 1]) == |pat| then Cropped(pat, t[..|t| - 1]) else |t|
  }

  predicate OccursAt(pat: seq<byte>, t: seq<byte>, p: nat) {
    p + |pat| <= |t| && t[p..p + |pat|] == pat
  }

  lemma {:induction false} FeedConcat(pat: seq<byte>, k: nat, s: seq<byte>, t: seq<byte>)
    requires k <= |pat|
    ensures Feed(pat, k, s + t) == Feed(pat, Feed(pat, k, s), t)
  {
    if t == [] {
      assert s + t == s;
    } else {
      assert (s + t)[..|s + t| - 1] == s + t[..|t| - 1];
      FeedConcat(pat, k, s, t[..|t| - 1]);
    }
  }

  lemma {:induction false} FeedComplete(pat: seq<byte>, t: seq<byte>)
    ensures Feed(pat, |pat|, t) == |pat|
  {
    if t != [] {
      FeedComplete(pat, t[..|t| - 1]);
    }
  }

  lemma MatchStands(pat: seq<byte>, t: seq<byte>, e: nat)
    requires e <= |t| && Matched(pat, t[..e]) == |pat|
    ensures Matched(pat, t) == |pat|
  {
    assert t == t[..e] + t[e..];
    FeedConcat(pat, 0, t[..e], t[e..]);
    FeedComplete(pat, t[e..]);
  }

  /** The text is cropped where the match is first complete. */
  lemma {:induction false} CroppedAt(pat: seq<byte>, t: seq<byte>, e: nat)
    requires 0 < e <= |t| && Matched(pat, t[..e]) == |pat| && Matched(pat, t[..e - 1]) < |pat|
    ensures Cropped(pat, t) == e
    decreases |t|
  {
    var init := t[..|t| - 1];
    if e < |t| {
      assert init[..e] == t[..e] && init[..e - 1] == t[..e - 1];
      MatchStands(pat, init, e);
      CroppedAt(pat, init, e);
    }
  }

  /** The text ends with the first `k` characters of the pattern. */
  predicate EndsWith(pat: seq<byte>, t: seq<byte>, k: nat) {
    k <= |t| && k <= |pat| && t[|t| - k..] == pat[..k]
  }

  lemma FeedStep(pat: seq<byte>, k: nat, t: seq<byte>)
    requires k <= |pat| && t != []
    ensures var j, last := Feed(pat, k, t[..|t| - 1]), t[|t| - 1];
            Feed(pat, k, t) == if j == |pat| then j else if last == pat[j] then j + 1 else 0
  {
  }

  lemma MatchedStep(pat: seq<byte>, t: seq<byte>)
    requires t != []
    ensures var j, last := Matched(pat, t[..|t| - 1]), t[|t| - 1];
            Matched(pat, t) == if j == |pat| then j else if last == pat[j] then j + 1 else 0
  {
    FeedStep(pat, 0, t);
    hide Feed;
  }

  /** A partial match is a prefix of the pattern at the end of the text; so is a match when it becomes complete. */
  lemma {:induction false} PartialIsSuffix(pat: seq<byte>, t: seq<byte>)
    requires pat != []
    ensures Matched(pat, t) <= |t| && (Matched(pat, t) < |pat| ==> EndsWith(pat, t, Matched(pat, t)))
    ensures t != [] && Matched(pat, t) == |pat| && Matched(pat, t[..|t| - 1]) < |pat| ==> OccursAt(pat, t, |t| - |pat|)
  {
    hide Feed, Matched, EndsWith, OccursAt;
    NoneMatched(pat, t);
    if t != [] {
      var init := t[..|t| - 1];
      PartialIsSuffix(pat, init);
      MatchedStep(pat, t);
      if Matched(pat, init) < |pat| && Matched(pat, t) > 0 {
        OneMore(pat, t, Matched(pat, init));
      }
    }
  }

  lemma NoneMatched(pat: seq<byte>, t: seq<byte>)
    ensures EndsWith(pat, t, 0) && Matched(pat, []) == 0
  {
  }

  lemma OneMore(pat: seq<byte>, t: seq<byte>, j: nat)
    requires t != [] && j < |pat| && EndsWith(pat, t[..|t| - 1], j) && t[|t| - 1] == pat[j]
    ensures EndsWith(pat, t, j + 1)
    ensures j + 1 == |pat| ==> OccursAt(pat, t, |t| - |pat|)
  {
    var init := t[..|t| - 1];
    assert t[|t| - (j + 1)..] == init[|init| - j..] + [pat[j]];
    assert pat[..j + 1] == pat[..j] + [pat[j]];
    assert pat[..|pat|] == pat;
  }

  /** Sound for every text: what is kept is everything, or it ends with the pattern. */
  lemma {:induction false} CropIsSound(pat: seq<byte>, t: seq<byte>)
    requires pat != []
    ensures var n := Cropped(pat, t);
            if Matched(pat, t) == |pat| then n >= |pat| && OccursAt(pat, t, n - |pat|) else n == |t|
  {
    hide Feed, Matched, OccursAt, EndsWith;
    NoneMatched(pat, t);
    if t != [] {
      var init := t[..|t| - 1];
      PartialIsSuffix(pat, t);
      if Matched(pat, init) == |pat| {
        CropIsSound(pat, init);
        MatchStands(pat, t, |init|);
        OccursEarlier(pat, t, |init|, Cropped(pat, init) - |pat|);
      }
    }
  }

  lemma OccursEarlier(pat: seq<byte>, t: seq<byte>, e: nat, p: nat)
    requires e <= |t| && OccursAt(pat, t[..e], p)
    ensures OccursAt(pat, t, p)
  {
    assert t[..e] == t[0..e];
    SubSlice(t, 0, e, p, p + |pat|);
  }

  lemma {:induction false} FeedPattern(pat: seq<byte>, n: nat)
    requires n <= |pat|
    ensures Feed(pat, 0, pat[..n]) == n
  {
    if n > 0 {
      assert pat[..n][..n - 1] == pat[..n - 1];
      FeedPattern(pat, n - 1);
    }
  }

  predicate FirstAt(pat: seq<byte>, t: seq<byte>, p: nat) {
    OccursAt(pat, t, p) && forall q :: 0 <= q < p ==> !OccursAt(pat, t, q)
  }

  lemma MatchOccurs(pat: seq<byte>, t: seq<byte>, e: nat)
    requires pat != [] && e <= |t|
    ensures Matched(pat, t[..e]) == |pat| ==> exists q :: 0 <= q <= e - |pat| && OccursAt(pat, t, q)
  {
    var s := t[..e];
    CropIsSound(pat, s);
    if Matched(pat, s) == |pat| {
      var q := Cropped(pat, s) - |pat|;
      OccursEarlier(pat, t, e, q);
    }
  }

  /** Before the first occurrence ends the match is not complete. */
  lemma NotEarlier(pat: seq<byte>, t: seq<byte>, p: nat, e: nat)
    requires pat != [] && FirstAt(pat, t, p) && e < p + |pat|
    ensures Matched(pat, t[..e]) < |pat|
  {
    hide Matched;
    MatchOccurs(pat, t, e);
  }

  /** The text is cropped at its first occurrence exactly when the state in which the scan arrives there leads to a match. */
  lemma CropsAtFirst(pat: seq<byte>, t: seq<byte>, p: nat)
    requires pat != [] && FirstAt(pat, t, p)
    ensures Matched(pat, t) == |pat| && Cropped(pat, t) == p + |pat|
            <==> Feed(pat, Matched(pat, t[..p]), pat) == |pat|
  {
    var e := p + |pat|;
    NotEarlier(pat, t, p, e - 1);
    assert t[..e] == t[..p] + pat;
    FeedConcat(pat, 0, t[..p], pat);
    assert Matched(pat, t[..e]) == Feed(pat, Matched(pat, t[..p]), pat);
    hide Feed, Matched, FirstAt;
    if Matched(pat, t[..e]) == |pat| {
      MatchStands(pat, t, e);
      CroppedAt(pat, t, e);
    } else if e < |t| && Matched(pat, t) == |pat| {
      CropElsewhere(pat, t, e);
    } else if e == |t| {
      assert t[..e] == t;
    }
  }

  lemma {:induction false} CropElsewhere(pat: seq<byte>, t: seq<byte>, e: nat)
    requires e < |t| && Matched(pat, t[..e]) < |pat| && Matched(pat, t) == |pat|
    ensures Cropped(pat, t) != e
    decreases |t|
  {
    var init := t[..|t| - 1];
    assert init[..e] == t[..e];
    if e == |init| {
      assert init[..e] == init;
    } else if Matched(pat, init) == |pat| {
      CropElsewhere(pat, init, e);
    }
  }

  /** A pattern met with nothing matched is where the text is cropped, whatever follows. */
  lemma CropsBehind(pat: seq<byte>, start: seq<byte>, suffix: seq<byte>)
    requires pat != [] && Matched(pat, start) == 0
    ensures Cropped(pat, start + pat + suffix) == |start| + |pat|
  {
    var n := |pat|;
    FeedPattern(pat, n);
    FeedPattern(pat, n - 1);
    assert pat[..n] == pat;
    FeedConcat(pat, 0, start, pat);
    FeedConcat(pat, 0, start, pat[..n - 1]);
    var t, e := start + pat + suffix, |start| + n;
    assert t[..e] == start + pat && t[..e - 1] == start + pat[..n - 1];
    hide Feed;
    CroppedAt(pat, t, e);
  }
}
