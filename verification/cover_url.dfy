/** `get_high_resolution_album_cover_url`: find the first `<digits>x<digits>`
    resolution token in an image URL and ask for `10000x10000` instead. */
module CoverUrl {
  import opened Wrappers
  import opened Ascii
  import opened Strings

  /** The replacement resolution. */
  const MaxResolution: string := "10000x10000"

  /** `t` is a whole match of the regex `\d+x\d+`. */
  predicate IsToken(t: string)
  {
    exists p :: 0 < p < |t| - 1 && TokenSplitAt(t, p)
  }

  /** `t` is digits, an `x` at position `p`, and digits again. */
  predicate TokenSplitAt(t: string, p: int)
  {
    0 < p < |t| - 1 && t[p] == 'x' && AllDigits(t[..p]) && AllDigits(t[p + 1..])
  }

  /** Some substring of `s` matches `\d+x\d+`. */
  predicate ContainsToken(s: string)
  {
    exists a, b :: 0 <= a <= b <= |s| && IsToken(s[a..b])
  }

  /** End of the run of digits starting at `i`, as the greedy `\d+` takes it. */
  function DigitRunEnd(s: string, i: nat): (j: nat)
    requires i <= |s|
    ensures i <= j <= |s|
    ensures forall k :: i <= k < j ==> IsDigit(s[k])
    ensures j == |s| || !IsDigit(s[j])
    decreases |s| - i
  {
    if i < |s| && IsDigit(s[i]) then DigitRunEnd(s, i + 1) else i
  }

  /** The regex matches at `i`: a digit run, then `x`, then a digit. Since the
      character after a greedy `\d+` is never a digit, backtracking cannot
      produce a match the greedy attempt misses. */
  predicate MatchesAt(s: string, i: nat)
  {
    i < |s| && IsDigit(s[i])
    && var j := DigitRunEnd(s, i);
    j + 1 < |s| && s[j] == 'x' && IsDigit(s[j + 1])
  }

  /** End of the match at `i`: the greedy second digit run. */
  function MatchEnd(s: string, i: nat): nat
    requires MatchesAt(s, i)
  {
    DigitRunEnd(s, DigitRunEnd(s, i) + 1)
  }

  /** `re.search(r'\d+x\d+', s[i..])`, as a span of `s`. */
  function SearchFrom(s: string, i: nat): (m: Option<(nat, nat)>)
    requires i <= |s|
    ensures m.None? ==> forall k :: i <= k < |s| ==> !MatchesAt(s, k)
    ensures m.Some? ==> i <= m.value.0 && MatchesAt(s, m.value.0) && m.value.1 == MatchEnd(s, m.value.0)
    ensures m.Some? ==> forall k :: i <= k < m.value.0 ==> !MatchesAt(s, k)
    decreases |s| - i
  {
    if i == |s| then None
    else if MatchesAt(s, i) then Some((i, MatchEnd(s, i)))
    else SearchFrom(s, i + 1)
  }

  /** `m.group(0)`: the leftmost resolution token of the URL, if any. */
  function ResolutionToken(url: string): Option<string>
  {
    match SearchFrom(url, 0)
    case None => None
    case Some(m) => Some(url[m.0..m.1])
  }

  /** The URL as the source rewrites it: `re.sub(token, "10000x10000", url)`.
      The token only holds digits and `x`, so as a pattern it matches itself
      literally, and `re.sub` rewrites every non-overlapping occurrence. */
  function UpgradeCoverUrl(url: string): (r: Option<string>)
    ensures r.None? <==> !ContainsToken(url)
    ensures r.Some? ==>
      exists i: nat, e: nat ::
        LeftmostMatch(url, i, e) &&
        r.value == url[..i] + MaxResolution + ReplaceAll(url[e..], url[i..e], MaxResolution)
  {
    match SearchFrom(url, 0)
    case None =>
      NoMatchNoToken(url);
      None
    case Some(m) =>
      var i, e := m.0, m.1;
      UpgradeShape(url, i, e);
      Some(ReplaceAll(url, url[i..e], MaxResolution))
  }

  /** `url[i..e]` is the span `re.search` reports: the leftmost match of
      `\d+x\d+`, with both digit runs maximal. */
  predicate LeftmostMatch(url: string, i: nat, e: nat)
  {
    && i < e <= |url|
    && IsToken(url[i..e])
    && (forall a, b :: 0 <= a < i && a <= b <= |url| ==> !IsToken(url[a..b]))
    && (i == 0 || !IsDigit(url[i - 1]))
    && (e == |url| || !IsDigit(url[e]))
  }

  /** The rewrite the code evidently intends: replace the matched span only,
      leaving every other character of the URL alone. */
  function UpgradeMatchedSpan(url: string): (r: Option<string>)
    ensures r.None? <==> !ContainsToken(url)
    ensures r.Some? ==>
      exists i: nat, e: nat ::
        LeftmostMatch(url, i, e) && r.value == url[..i] + MaxResolution + url[e..]
  {
    match SearchFrom(url, 0)
    case None =>
      NoMatchNoToken(url);
      None
    case Some(m) =>
      var i, e := m.0, m.1;
      SearchIsLeftmost(url, i, e);
      Some(url[..i] + MaxResolution + url[e..])
  }

  // ---------------------------------------------------------------------
  // The regex search agrees with the token predicates

  /** A digit run ends exactly where the first non-digit is. */
  lemma {:induction false} RunEndAt(s: string, i: nat, k: nat)
    requires i <= k <= |s|
    requires forall q :: i <= q < k ==> IsDigit(s[q])
    requires k == |s| || !IsDigit(s[k])
    ensures DigitRunEnd(s, i) == k
    decreases k - i
  {
    if i < k {
      RunEndAt(s, i + 1, k);
    }
  }

  /** A slice is all digits exactly when every position in its range is a digit. */
  lemma DigitsSlice(s: string, lo: nat, hi: nat)
    requires lo <= hi <= |s|
    ensures AllDigits(s[lo..hi]) <==> forall q :: lo <= q < hi ==> IsDigit(s[q])
  {
    assert forall q :: lo <= q < hi ==> s[lo..hi][q - lo] == s[q];
  }

  /** A token split inside `s`, read as positions of `s`. */
  lemma TokenSplitInside(s: string, a: nat, b: nat, p: int)
    requires a <= b <= |s| && TokenSplitAt(s[a..b], p)
    ensures 0 < p && a + p + 1 < b && s[a + p] == 'x'
    ensures forall q :: a <= q < a + p ==> IsDigit(s[q])
    ensures forall q :: a + p + 1 <= q < b ==> IsDigit(s[q])
  {
    var t := s[a..b];
    assert t[..p] == s[a..a + p];
    assert t[p + 1..] == s[a + p + 1..b];
    DigitsSlice(s, a, a + p);
    DigitsSlice(s, a + p + 1, b);
    assert s[a + p] == t[p];
  }

  /** A token found anywhere makes the regex match where the token starts. */
  lemma TokenMatches(s: string, a: nat, b: nat)
    requires a <= b <= |s| && IsToken(s[a..b])
    ensures MatchesAt(s, a)
  {
    var p :| TokenSplitAt(s[a..b], p);
    TokenSplitInside(s, a, b, p);
    RunEndAt(s, a, a + p);
  }

  /** An occurrence of a token is a place where the regex matches. */
  lemma OccurrenceMatches(s: string, t: string, k: nat)
    requires IsToken(t)
    ensures OccursAt(s, t, k) ==> MatchesAt(s, k)
  {
    if OccursAt(s, t, k) {
      TokenMatches(s, k, k + |t|);
    }
  }

  /** The regex's match is a token, with both digit runs maximal. */
  lemma MatchIsToken(s: string, i: nat)
    requires MatchesAt(s, i)
    ensures i < MatchEnd(s, i) <= |s|
    ensures IsToken(s[i..MatchEnd(s, i)])
    ensures MatchEnd(s, i) == |s| || !IsDigit(s[MatchEnd(s, i)])
  {
    var j := DigitRunEnd(s, i);
    var e := MatchEnd(s, i);
    var t := s[i..e];
    var p := j - i;
    assert t[p] == 'x';
    assert t[..p] == s[i..j];
    assert t[p + 1..] == s[j + 1..e];
    DigitsSlice(s, i, j);
    DigitsSlice(s, j + 1, e);
    assert TokenSplitAt(t, p);
  }

  /** Where the regex finds nothing there is no token at all, and conversely. */
  lemma NoMatchNoToken(s: string)
    requires SearchFrom(s, 0).None?
    ensures !ContainsToken(s)
  {
    if ContainsToken(s) {
      var a, b :| 0 <= a <= b <= |s| && IsToken(s[a..b]);
      TokenMatches(s, a, b);
      assert false;
    }
  }

  /** A digit just before a match would extend it to the left. */
  lemma DigitBeforeMatch(s: string, i: nat)
    requires 0 < i && MatchesAt(s, i)
    ensures IsDigit(s[i - 1]) ==> MatchesAt(s, i - 1)
  {
    if IsDigit(s[i - 1]) {
      RunEndAt(s, i - 1, DigitRunEnd(s, i));
    }
  }

  /** What the search reports is the leftmost match, and the matched text does
      not occur anywhere before it. */
  lemma SearchIsLeftmost(url: string, i: nat, e: nat)
    requires SearchFrom(url, 0) == Some((i, e))
    ensures LeftmostMatch(url, i, e)
    ensures OccursAt(url, url[i..e], i)
    ensures forall k: nat :: k < i ==> !OccursAt(url, url[i..e], k)
  {
    MatchIsToken(url, i);
    FirstOccurrenceIsMatch(url, i);
  }

  /** The pieces of the source's rewrite once the search has found `(i, e)`. */
  lemma UpgradeShape(url: string, i: nat, e: nat)
    requires SearchFrom(url, 0) == Some((i, e))
    ensures ContainsToken(url)
    ensures LeftmostMatch(url, i, e)
    ensures ReplaceAll(url, url[i..e], MaxResolution)
      == url[..i] + MaxResolution + ReplaceAll(url[e..], url[i..e], MaxResolution)
  {
    SearchIsLeftmost(url, i, e);
    assert IsToken(url[i..e]);
    ReplaceAllFirst(url, url[i..e], MaxResolution, i);
  }

  /** Both rewrites, once the search has found `(i, e)`. */
  lemma RewritesAt(url: string, i: nat, e: nat)
    requires SearchFrom(url, 0) == Some((i, e))
    ensures i <= e <= |url|
    ensures UpgradeCoverUrl(url) == Some(ReplaceAll(url, url[i..e], MaxResolution))
    ensures UpgradeMatchedSpan(url) == Some(url[..i] + MaxResolution + url[e..])
  {
    MatchIsToken(url, i);
  }

  /** The leftmost match is what the search reports. */
  lemma SearchOfLeftmost(url: string, i: nat, e: nat)
    requires LeftmostMatch(url, i, e)
    ensures SearchFrom(url, 0) == Some((i, e))
  {
    var m := SearchFrom(url, 0);
    assert m.Some? by {
      assert IsToken(url[i..e]);
      if m.None? {
        NoMatchNoToken(url);
        assert false;
      }
    }
    SearchIsLeftmost(url, m.value.0, m.value.1);
    LeftmostMatchUnique(url, i, e, m.value.0, m.value.1);
  }

  /** Tokens never start before the match, and the match starts a digit run. */
  lemma FirstOccurrenceIsMatch(s: string, i: nat)
    requires SearchFrom(s, 0).Some? && SearchFrom(s, 0).value.0 == i
    ensures forall a, b :: 0 <= a < i && a <= b <= |s| ==> !IsToken(s[a..b])
    ensures i == 0 || !IsDigit(s[i - 1])
    ensures forall k: nat :: k < i ==> !OccursAt(s, s[i..MatchEnd(s, i)], k)
  {
    var e := MatchEnd(s, i);
    MatchIsToken(s, i);
    forall a, b | 0 <= a < i && a <= b <= |s| ensures !IsToken(s[a..b]) {
      if IsToken(s[a..b]) {
        TokenMatches(s, a, b);
        assert false;
      }
    }
    if i > 0 {
      DigitBeforeMatch(s, i);
    }
    forall k: nat | k < i ensures !OccursAt(s, s[i..e], k) {
      OccurrenceMatches(s, s[i..e], k);
    }
  }

  // ---------------------------------------------------------------------
  // Properties of the rewrite

  /** The source returns `None` exactly when the URL holds no token; otherwise
      it carries the leftmost token. */
  lemma TokenFoundIff(url: string)
    ensures ResolutionToken(url).None? <==> !ContainsToken(url)
    ensures ResolutionToken(url).Some? ==> (exists i: nat, e: nat :: LeftmostMatch(url, i, e) && ResolutionToken(url).value == url[i..e])
  {
    match SearchFrom(url, 0)
    case None =>
      NoMatchNoToken(url);
    case Some(m) =>
      SearchIsLeftmost(url, m.0, m.1);
  }

  /** When the token occurs only once, the source's rewrite is
      `prefix + "10000x10000" + suffix`, which is what the matched-span
      rewrite returns. */
  lemma SingleTokenAgrees(url: string, i: nat, e: nat)
    requires LeftmostMatch(url, i, e)
    requires OccursOnlyAt(url, url[i..e], i)
    ensures UpgradeCoverUrl(url) == Some(url[..i] + MaxResolution + url[e..])
    ensures UpgradeMatchedSpan(url) == UpgradeCoverUrl(url)
  {
    assert ReplaceAll(url, url[i..e], MaxResolution) == url[..i] + MaxResolution + url[e..] by {
      ReplaceAllSingle(url, url[i..e], MaxResolution, i);
    }
    assert UpgradeCoverUrl(url) == Some(ReplaceAll(url, url[i..e], MaxResolution))
      && UpgradeMatchedSpan(url) == Some(url[..i] + MaxResolution + url[e..]) by {
      SearchOfLeftmost(url, i, e);
      RewritesAt(url, i, e);
    }
  }

  /** The leftmost match is determined by the URL. */
  lemma LeftmostMatchUnique(url: string, i: nat, e: nat, i': nat, e': nat)
    requires LeftmostMatch(url, i, e) && LeftmostMatch(url, i', e')
    ensures i == i' && e == e'
  {
    assert IsToken(url[i..e]) && IsToken(url[i'..e']);
    assert i == i';
    TokenShape(url, i, e);
    TokenShape(url, i', e');
  }

  /** A token whose end is not followed by a digit ends where the regex's match does. */
  lemma TokenShape(url: string, i: nat, e: nat)
    requires i < e <= |url| && IsToken(url[i..e])
    requires e == |url| || !IsDigit(url[e])
    ensures MatchesAt(url, i) && MatchEnd(url, i) == e
  {
    var p :| TokenSplitAt(url[i..e], p);
    TokenSplitInside(url, i, e, p);
    RunEndAt(url, i, i + p);
    RunEndAt(url, i + p + 1, e);
  }

  // ---------------------------------------------------------------------
  // The source rewrites more than the matched span

  /** On `1x1/11x1` the leftmost token is `1x1`; `re.sub` also rewrites the
      `1x1` inside the later `11x1`, turning it into `110000x10000`, while the
      matched-span rewrite leaves it alone. */
  lemma AsWrittenRewritesLaterTokens()
    ensures UpgradeCoverUrl("1x1/11x1") == Some("10000x10000/110000x10000")
    ensures UpgradeMatchedSpan("1x1/11x1") == Some("10000x10000/11x1")
  {
    ExampleAsWritten();
    ExampleSpan();
    ExampleLiterals();
  }

  lemma ExampleLiterals()
    ensures MaxResolution + "/1" + MaxResolution == "10000x10000/110000x10000"
    ensures MaxResolution + "/11x1" == "10000x10000/11x1"
  {
    assert MaxResolution == "10000x10000";
  }

  lemma ExampleAsWritten()
    ensures UpgradeCoverUrl("1x1/11x1") == Some(MaxResolution + "/1" + MaxResolution)
  {
    ExampleSearch();
    ExampleReplaceWhole();
  }

  lemma ExampleSpan()
    ensures UpgradeMatchedSpan("1x1/11x1") == Some(MaxResolution + "/11x1")
  {
    var u := "1x1/11x1";
    ExampleSearch();
    assert UpgradeMatchedSpan(u) == Some(u[..0] + MaxResolution + u[3..]);
    assert u[..0] == "" && u[3..] == "/11x1";
    assert u[..0] + MaxResolution + u[3..] == MaxResolution + "/11x1";
  }

  lemma ExampleReplaceWhole()
    ensures ReplaceAll("1x1/11x1", "1x1/11x1"[0..3], MaxResolution) == MaxResolution + "/1" + MaxResolution
  {
    var u := "1x1/11x1";
    var t := u[0..3];
    assert t == "1x1";
    assert u[3..] == "/11x1";
    ExampleReplace();
    ReplaceAllFirst(u, t, MaxResolution, 0);
  }

  lemma ExampleSearch()
    ensures SearchFrom("1x1/11x1", 0) == Some((0, 3))
  {
    var u := "1x1/11x1";
    RunEndAt(u, 0, 1);
    RunEndAt(u, 2, 3);
    SearchFindsFirst(u, 0);
  }

  lemma ExampleReplace()
    ensures ReplaceAll("/11x1", "1x1", MaxResolution) == "/1" + MaxResolution
  {
    var rest := "/11x1";
    var t := "1x1";
    assert rest[2..5] == t;
    assert !OccursAt(rest, t, 0) by { assert rest[0..3][0] == '/'; }
    assert !OccursAt(rest, t, 1) by { assert rest[1..4][1] == '1'; }
    ReplaceAllFirst(rest, t, MaxResolution, 2);
    assert rest[5..] == "" && rest[..2] == "/1";
  }

  // ---------------------------------------------------------------------
  // The matched-span rewrite is stable

  /** Matches before position `n` only look at the first `n` characters and at
      whether character `n` is a digit, provided character `n - 1` is not one. */
  lemma MatchesAgreeOnPrefix(s: string, s': string, n: nat, k: nat)
    requires n < |s| && n < |s'| && s[..n] == s'[..n]
    requires n == 0 || !IsDigit(s[n - 1])
    requires IsDigit(s[n]) == IsDigit(s'[n])
    requires k < n
    ensures MatchesAt(s, k) <==> MatchesAt(s', k)
  {
    assert forall q :: 0 <= q < n ==> s[q] == s[..n][q] == s'[..n][q] == s'[q];
    if IsDigit(s[k]) {
      var j := DigitRunEnd(s, k);
      assert j < n;
      RunEndAt(s', k, j);
    }
  }

  /** The search reports the first place where the regex matches. */
  lemma SearchFindsFirst(s: string, i: nat)
    requires MatchesAt(s, i)
    requires forall k :: 0 <= k < i ==> !MatchesAt(s, k)
    ensures SearchFrom(s, 0) == Some((i, MatchEnd(s, i)))
  {
  }

  lemma MaxResolutionIsToken()
    ensures IsToken(MaxResolution)
  {
    var t := MaxResolution;
    assert TokenSplitAt(t, 5);
  }

  /** In the rewritten URL the regex matches `10000x10000` where the old
      token was. */
  lemma RewrittenMatch(url: string, i: nat, e: nat)
    requires LeftmostMatch(url, i, e)
    ensures var v := url[..i] + MaxResolution + url[e..];
      MatchesAt(v, i) && MatchEnd(v, i) == i + |MaxResolution|
  {
    var v := url[..i] + MaxResolution + url[e..];
    var n := |MaxResolution|;
    assert v[i..i + n] == MaxResolution;
    MaxResolutionIsToken();
    assert i + n == |v| || !IsDigit(v[i + n]) by {
      if i + n < |v| {
        assert v[i + n] == url[e];
      }
    }
    TokenShape(v, i, i + n);
  }

  /** Nothing matches in the rewritten URL before the rewritten token. */
  lemma RewrittenPrefix(url: string, i: nat, e: nat)
    requires LeftmostMatch(url, i, e)
    ensures var v := url[..i] + MaxResolution + url[e..];
      forall k :: 0 <= k < i ==> !MatchesAt(v, k)
  {
    var v := url[..i] + MaxResolution + url[e..];
    assert url[..i] == v[..i];
    assert IsDigit(v[i]);
    TokenMatches(url, i, e);
    forall k | 0 <= k < i ensures !MatchesAt(v, k) {
      TokenAtMatchesBefore(url, i, e, k);
      MatchesAgreeOnPrefix(url, v, i, k);
    }
  }

  lemma TokenAtMatchesBefore(url: string, i: nat, e: nat, k: nat)
    requires LeftmostMatch(url, i, e) && k < i
    ensures !MatchesAt(url, k)
  {
    if MatchesAt(url, k) {
      MatchIsToken(url, k);
      assert false;
    }
  }

  /** Rewriting an already rewritten URL changes nothing: its leftmost token is
      now `10000x10000` itself, at the same place. */
  lemma MatchedSpanIdempotent(url: string)
    requires UpgradeMatchedSpan(url).Some?
    ensures UpgradeMatchedSpan(UpgradeMatchedSpan(url).value) == UpgradeMatchedSpan(url)
  {
    var m := SearchFrom(url, 0);
    var i, e := m.value.0, m.value.1;
    SearchIsLeftmost(url, i, e);
    var v := url[..i] + MaxResolution + url[e..];
    assert UpgradeMatchedSpan(url).value == v;
    RewrittenMatch(url, i, e);
    RewrittenPrefix(url, i, e);
    SearchFindsFirst(v, i);
    var n := |MaxResolution|;
    assert v[..i] == url[..i] && v[i + n..] == url[e..];
  }
}
