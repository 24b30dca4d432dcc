/** What `crop_pem_chain` finds in texts, and that it finds the end of the certificate the SDK wrote. */
module Chain {
  import opened Bytes
  import opened Base64
  import opened Matcher
  import opened Pem

  function Dashes(n: nat): (t: seq<byte>)
    ensures |t| == n
  {
    seq(n, _ => DASH)
  }

  /** From the start, a run of dashes leaves the matcher in a state of period six: five match, the sixth resets it. */
  lemma {:induction false} DashRun(n: nat)
    ensures Feed(FOOTER, 0, Dashes(n)) == n % 6
  {
    if n > 0 {
      assert Dashes(n)[..n - 1] == Dashes(n - 1);
      DashRun(n - 1);
    }
  }

  lemma FooterDashes(j: nat)
    requires j < |FOOTER|
    ensures FOOTER[j] == DASH <==> j < 5 || 20 <= j
  {
  }

  lemma OneDash(k: nat, n: nat)
    requires k <= |FOOTER|
    ensures Feed(FOOTER, k, Dashes(0)) == k
    ensures var j := Feed(FOOTER, k, Dashes(n));
            Feed(FOOTER, k, Dashes(n + 1)) == if j == |FOOTER| then j else if 5 <= j < 20 then 0 else j + 1
  {
    var j := Feed(FOOTER, k, Dashes(n));
    assert Dashes(n + 1)[..n] == Dashes(n);
    FeedStep(FOOTER, k, Dashes(n + 1));
    if j < |FOOTER| {
      FooterDashes(j);
    }
  }

  lemma FiveDashes(k: nat)
    requires k <= 19
    ensures var j := Feed(FOOTER, k, DASHES); if k == 0 then j == 5 else j <= 4
  {
    assert DASHES == Dashes(5);
    OneDash(k, 0);
    OneDash(k, 1);
    OneDash(k, 2);
    OneDash(k, 3);
    OneDash(k, 4);
  }

  /** Text without dashes resets an early partial match and starts none. */
  lemma {:induction false} NoDashes(k: nat, t: seq<byte>)
    requires k <= 4 && (t != [] || k == 0) && DASH !in t
    ensures Feed(FOOTER, k, t) == 0
  {
    if t != [] {
      var init, last := t[..|t| - 1], t[|t| - 1];
      assert last in t && last != DASH;
      if init != [] {
        NoDashes(k, init);
      } else {
        assert Feed(FOOTER, k, init) == k;
      }
    }
  }

  const MIDDLE: seq<byte> := [0x45, 0x4E, 0x44, 0x20] + CERTIFICATE

  /** A footer met in the middle of a partial match is not recognised: its trailing dashes start a new one. */
  lemma FooterFrom(k: nat)
    requires k <= 19
    ensures Feed(FOOTER, k, FOOTER) == if k == 0 then |FOOTER| else 5
  {
    if k == 0 {
      FeedPattern(FOOTER, |FOOTER|);
      assert FOOTER[..|FOOTER|] == FOOTER;
    } else {
      assert FOOTER == DASHES + MIDDLE + DASHES;
      FeedConcat(FOOTER, k, DASHES + MIDDLE, DASHES);
      FeedConcat(FOOTER, k, DASHES, MIDDLE);
      FiveDashes(k);
      NoDashes(Feed(FOOTER, k, DASHES), MIDDLE);
      FiveDashes(0);
    }
  }

  /** The scan of the first `n` characters of a footer at `p`. */
  lemma IntoFooter(t: seq<byte>, p: nat, n: nat)
    requires OccursAt(FOOTER, t, p) && n <= |FOOTER|
    ensures Matched(FOOTER, t[..p + n]) == Feed(FOOTER, Matched(FOOTER, t[..p]), FOOTER[..n])
  {
    SubSlice(t, p, p + |FOOTER|, 0, n);
    assert FOOTER[..n] == FOOTER[0..n] == t[p..p + n];
    assert t[..p + n] == t[..p] + t[p..p + n];
    FeedConcat(FOOTER, 0, t[..p], FOOTER[..n]);
  }

  /** Late partial matches end in the first dashes of a footer, so that footer is not the first. */
  lemma LateMatch(t: seq<byte>, p: nat)
    requires FirstAt(FOOTER, t, p)
    ensures Matched(FOOTER, t[..p]) <= 19
  {
    var k := Matched(FOOTER, t[..p]);
    NotEarlier(FOOTER, t, p, p);
    var n := |FOOTER| - k;
    if 20 <= k {
      NotEarlier(FOOTER, t, p, p + n);
      IntoFooter(t, p, n);
      TrailingDashes(k, n);
      assert false;
    }
  }

  lemma {:induction false} TrailingDashes(k: nat, n: nat)
    requires 20 <= k <= |FOOTER| && k + n <= |FOOTER|
    ensures Feed(FOOTER, k, FOOTER[..n]) == k + n
  {
    if n > 0 {
      var t := FOOTER[..n];
      assert t[..n - 1] == FOOTER[..n - 1] && t[n - 1] == FOOTER[n - 1];
      FooterDashes(n - 1);
      FooterDashes(k + n - 1);
      TrailingDashes(k, n - 1);
      FeedStep(FOOTER, k, t);
      hide Feed;
    }
  }

  /**
   The exact condition for finding the first footer of a text: the scan must arrive there with nothing
   matched.
   */
  lemma CropsAtFooterExactly(t: seq<byte>, p: nat)
    requires FirstAt(FOOTER, t, p)
    ensures Matched(FOOTER, t) == |FOOTER| && Cropped(FOOTER, t) == p + |FOOTER| <==> Matched(FOOTER, t[..p]) == 0
  {
    hide Feed, Matched;
    LateMatch(t, p);
    CropsAtFirst(FOOTER, t, p);
    FooterFrom(Matched(FOOTER, t[..p]));
  }

  /**
   In terms of the text: behind a character that no footer contains, such as a newline, and a run of
   extra dashes, the footer is found exactly when the number of extra dashes is a multiple of six.
   */
  lemma CropsBehindDashes(t: seq<byte>, p: nat, extra: nat)
    requires FirstAt(FOOTER, t, p) && extra < p
    requires t[p - extra - 1] !in FOOTER && t[p - extra..p] == Dashes(extra)
    ensures Matched(FOOTER, t) == |FOOTER| && Cropped(FOOTER, t) == p + |FOOTER| <==> extra % 6 == 0
  {
    CropsAtFooterExactly(t, p);
    var q := p - extra;
    assert t[..p] == t[..q] + Dashes(extra);
    FeedConcat(FOOTER, 0, t[..q], Dashes(extra));
    NotEarlier(FOOTER, t, p, q - 1);
    assert t[..q][..q - 1] == t[..q - 1];
    assert Matched(FOOTER, t[..q]) == 0;
    DashRun(extra);
  }

  /** The first footer behind a run of dashes, by the state the scan has reached before the run. */
  lemma BehindRun(t: seq<byte>, p: nat, extra: nat)
    requires FirstAt(FOOTER, t, p) && extra <= p && t[p - extra..p] == Dashes(extra)
    ensures Matched(FOOTER, t) == |FOOTER| && Cropped(FOOTER, t) == p + |FOOTER|
            <==> Feed(FOOTER, Matched(FOOTER, t[..p - extra]), Dashes(extra)) == 0
  {
    CropsAtFooterExactly(t, p);
    assert t[..p] == t[..p - extra] + Dashes(extra);
    FeedConcat(FOOTER, 0, t[..p - extra], Dashes(extra));
  }

  /** The text ends in a footer that breaks off between its two runs of dashes. */
  predicate Unfinished(t: seq<byte>) {
    exists m: nat {:trigger FOOTER[..m]} :: 6 <= m <= 20 && m <= |t| && t[|t| - m..] == FOOTER[..m]
  }

  /**
   The same behind any other text: where it does not end in an unfinished footer, the footer is found
   exactly when the number of extra dashes is a multiple of six.
   */
  lemma CropsBehindText(t: seq<byte>, p: nat, extra: nat)
    requires FirstAt(FOOTER, t, p) && extra < p
    requires t[p - extra - 1] != DASH && t[p - extra..p] == Dashes(extra)
    requires !Unfinished(t[..p - extra])
    ensures Matched(FOOTER, t) == |FOOTER| && Cropped(FOOTER, t) == p + |FOOTER| <==> extra % 6 == 0
  {
    hide Feed, Matched, Cropped, FirstAt, Dashes, Unfinished;
    BehindRun(t, p, extra);
    NothingMatched(t, p, p - extra);
    DashRun(extra);
  }

  lemma NothingMatched(t: seq<byte>, p: nat, e: nat)
    requires FirstAt(FOOTER, t, p) && 0 < e <= p && t[e - 1] != DASH && !Unfinished(t[..e])
    ensures Matched(FOOTER, t[..e]) == 0
  {
    hide Feed, Matched;
    var before := t[..e];
    PartialIsSuffix(FOOTER, before);
    NotEarlier(FOOTER, t, p, e);
    var k := Matched(FOOTER, before);
    if k > 0 {
      LastOf(FOOTER, before, k);
      FooterDashes(k - 1);
    }
  }

  lemma LastOf(pat: seq<byte>, t: seq<byte>, k: nat)
    requires 0 < k && EndsWith(pat, t, k)
    ensures t[|t| - 1] == pat[k - 1]
  {
    assert t[|t| - k..][k - 1] == t[|t| - 1] && pat[..k][k - 1] == pat[k - 1];
  }

  /**
   Behind a footer that breaks off between its two runs of dashes, itself at the start of a text or a
   line, the first of the following dashes only ends the partial match: the footer is found exactly
   when their number is one more than a multiple of six.
   */
  lemma CropsBehindUnfinished(t: seq<byte>, p: nat, m: nat, extra: nat)
    requires FirstAt(FOOTER, t, p) && 6 <= m <= 19 && m + extra <= p && t[p - extra..p] == Dashes(extra)
    requires t[p - extra - m..p - extra] == FOOTER[..m]
    requires p == m + extra || t[p - extra - m - 1] !in FOOTER
    ensures Matched(FOOTER, t) == |FOOTER| && Cropped(FOOTER, t) == p + |FOOTER| <==> extra % 6 == 1
  {
    hide Feed, Matched, Cropped, FirstAt, Dashes;
    BehindRun(t, p, extra);
    UnfinishedState(t, p, m, extra);
    OutOfStep(m, extra);
  }

  lemma UnfinishedState(t: seq<byte>, p: nat, m: nat, extra: nat)
    requires FirstAt(FOOTER, t, p) && 6 <= m <= 19 && m + extra <= p
    requires t[p - extra - m..p - extra] == FOOTER[..m]
    requires p == m + extra || t[p - extra - m - 1] !in FOOTER
    ensures Matched(FOOTER, t[..p - extra]) == m
  {
    var q := p - extra - m;
    assert t[..p - extra] == t[..q] + FOOTER[..m];
    FeedConcat(FOOTER, 0, t[..q], FOOTER[..m]);
    FeedPattern(FOOTER, m);
    NothingFed();
    assert t[..0] == [];
    if q > 0 {
      NotEarlier(FOOTER, t, p, q - 1);
      assert t[..q][..q - 1] == t[..q - 1];
      FeedStep(FOOTER, 0, t[..q]);
    }
    hide Feed, FirstAt;
  }

  lemma NothingFed()
    ensures Matched(FOOTER, []) == 0
  {
  }

  /** Dashes in the middle of a match: the first one ends it. */
  lemma {:induction false} OutOfStep(m: nat, n: nat)
    requires 6 <= m <= 19
    ensures Feed(FOOTER, m, Dashes(n)) == if n == 0 then m else (n - 1) % 6
  {
    hide Feed, Dashes;
    OneDash(m, 0);
    if n > 0 {
      OutOfStep(m, n - 1);
      OneDash(m, n - 1);
      if n > 1 {
        NextOfSix(n - 2);
      }
    }
  }

  lemma NextOfSix(n: nat)
    ensures (n + 1) % 6 == if n % 6 == 5 then 0 else n % 6 + 1
  {
  }

  /** A text that begins with its footer, or has it at the start of a line, is cropped right behind it. */
  lemma CropsAtLineStart(t: seq<byte>, p: nat)
    requires FirstAt(FOOTER, t, p) && (p == 0 || t[p - 1] == NEWLINE)
    ensures Cropped(FOOTER, t) == p + |FOOTER|
  {
    if p == 0 {
      CropsAtFooterExactly(t, 0);
      assert t[..0] == [];
    } else {
      assert t[p..p] == Dashes(0);
      CropsBehindDashes(t, p, 0);
    }
  }

  /** With one dash too many the footer is missed. */
  lemma OneDashTooMany()
    ensures var t := [DASH] + FOOTER + [NEWLINE];
            OccursAt(FOOTER, t, 1) && Cropped(FOOTER, t) == |t|
  {
    var s, t := [DASH] + FOOTER, [DASH] + FOOTER + [NEWLINE];
    assert t[..|t| - 1] == s;
    FeedConcat(FOOTER, 0, [DASH], FOOTER);
    assert [DASH][..0] == [];
    assert Feed(FOOTER, 0, [DASH]) == 1;
    FooterFrom(1);
  }

  /** The scan arrives at the footer of a certificate the SDK wrote with nothing matched. */
  lemma BeforeFooter(der: seq<byte>)
    ensures Matched(FOOTER, HeaderLine(CERTIFICATE) + Encoded(der) + [NEWLINE]) == 0
  {
    var line := HeaderLine(CERTIFICATE);
    HeaderLineResets();
    EncodedHasNoDash(der);
    FeedConcat(FOOTER, 0, line + Encoded(der), [NEWLINE]);
    FeedConcat(FOOTER, 0, line, Encoded(der));
    NoDashes(0, Encoded(der));
    NoDashes(0, [NEWLINE]);
  }

  lemma HeaderLineResets()
    ensures Feed(FOOTER, 0, HeaderLine(CERTIFICATE)) == 0
  {
    var words := [0x45, 0x47, 0x49, 0x4E, 0x20] + CERTIFICATE;
    assert HeaderLine(CERTIFICATE) == DASHES + [0x42] + words + DASHES + [NEWLINE];
    FeedConcat(FOOTER, 0, DASHES + [0x42] + words + DASHES, [NEWLINE]);
    FeedConcat(FOOTER, 0, DASHES + [0x42] + words, DASHES);
    FeedConcat(FOOTER, 0, DASHES + [0x42], words);
    FeedConcat(FOOTER, 0, DASHES, [0x42]);
    FiveDashes(0);
    Single(0x42);
    Single(NEWLINE);
    NoDashes(0, words);
  }

  lemma Single(c: byte)
    requires c != 0x45
    ensures Feed(FOOTER, 5, [c]) == 0
  {
    assert [c][..0] == [];
  }

  lemma EncodedHasNoDash(der: seq<byte>)
    ensures DASH !in Encoded(der)
  {
    hide Sextets;
    var digits := Digits(Sextets(der));
    forall k | 0 <= k < |digits|
      ensures digits[k] != DASH
    {
      TablesInverse(0, Sextets(der)[k]);
    }
  }

  /** Cropping a certificate the SDK wrote, whatever follows it, yields exactly that text, and its body decodes to the DER. */
  lemma CroppedCertificate(der: seq<byte>, suffix: seq<byte>)
    ensures var pem := PemText(CERTIFICATE, der);
            && (pem + suffix)[..Cropped(FOOTER, pem + suffix)] == pem
            && DecodedText((pem + suffix)[|HeaderLine(CERTIFICATE)|..]) == der
  {
    hide Feed, Encoded, DecodedText;
    PemBody(CERTIFICATE, der, suffix);
    var start := HeaderLine(CERTIFICATE) + Encoded(der) + [NEWLINE];
    var pem := PemText(CERTIFICATE, der);
    BeforeFooter(der);
    assert FooterLine(CERTIFICATE) == FOOTER && pem == start + FOOTER;
    CropsBehind(FOOTER, start, suffix);
  }
}
