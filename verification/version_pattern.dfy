/** The one regular expression the watcher uses, `DUBBD v(\d+\.\d+\.\d+)`,
    applied with Go's `FindStringSubmatch` (RE2, leftmost-first, `\d` = ASCII 0-9).

    Two definitions live here side by side:
    - a declarative one, `MatchesAt` / `LeftmostMatch`, saying which text a
      match occupies and what the capture group holds;
    - a scanner, `MatchAt` / `FirstMatch` / `ExtractVersion`, that computes it.
    The contracts and lemmas tie the two together. */
module VersionPattern {
  import opened Wrappers

  /** The literal part of the pattern, before the capture group. */
  const Literal: string := "DUBBD v"

  /** RE2's `\d`: ASCII decimal digits only. */
  predicate IsDigit(c: char) {
    '0' <= c <= '9'
  }

  /** Every character of `t` from `lo` up to (not including) `hi` is a digit. */
  ghost predicate DigitsIn(t: string, lo: int, hi: int) {
    0 <= lo <= hi <= |t| && forall j :: lo <= j < hi ==> IsDigit(t[j])
  }

  /** `v` is `digits '.' digits '.' digits`, its dots at `p` and `q`. */
  ghost predicate SplitsAsVersion(v: string, p: int, q: int) {
    && 0 < p && p + 1 < q && q + 1 < |v|
    && v[p] == '.' && v[q] == '.'
    && DigitsIn(v, 0, p) && DigitsIn(v, p + 1, q) && DigitsIn(v, q + 1, |v|)
  }

  /** `v` is three non-empty digit runs joined by dots. */
  ghost predicate IsVersion(v: string) {
    exists p, q :: SplitsAsVersion(v, p, q)
  }

  /** The preferred match of the pattern starting at position `i` of `s`
      captures `v`: the literal, then `v`, which is a version whose last run
      cannot be extended (greedy `\d+`). The first two runs are maximal because
      a dot follows each. */
  ghost predicate MatchesAt(s: string, i: int, v: string) {
    var k := i + |Literal|;
    && 0 <= i && k + |v| <= |s|
    && s[i..k] == Literal
    && s[k..k + |v|] == v
    && IsVersion(v)
    && (k + |v| == |s| || !IsDigit(s[k + |v|]))
  }

  /** No match of the pattern starts in positions `lo` .. `hi`-1 of `s`. */
  ghost predicate NoMatchIn(s: string, lo: int, hi: int) {
    forall j, w :: lo <= j < hi ==> !MatchesAt(s, j, w)
  }

  /** What `FindStringSubmatch` returns as group 1: the match that starts
      leftmost. */
  ghost predicate LeftmostMatch(s: string, i: int, v: string) {
    MatchesAt(s, i, v) && NoMatchIn(s, 0, i)
  }

  /** Length of the maximal run of digits in `s` starting at `k`. */
  function DigitRun(s: string, k: nat): (n: nat)
    requires k <= |s|
    ensures k + n <= |s|
    ensures forall j :: k <= j < k + n ==> IsDigit(s[j])
    ensures k + n == |s| || !IsDigit(s[k + n])
    decreases |s| - k
  {
    if k < |s| && IsDigit(s[k]) then 1 + DigitRun(s, k + 1) else 0
  }

  /** A run of `n` digits that nothing extends is the one DigitRun measures. */
  lemma DigitRunIs(s: string, k: nat, n: nat)
    requires k + n <= |s|
    requires forall j :: k <= j < k + n ==> IsDigit(s[j])
    requires k + n == |s| || !IsDigit(s[k + n])
    ensures DigitRun(s, k) == n
  {
  }

  /** Where a version `v`, split at `p` and `q`, is written at `k` of `s` with
      no digit after it, DigitRun measures its three components. */
  lemma VersionRuns(s: string, k: nat, v: string, p: int, q: int)
    requires k + |v| <= |s| && s[k..k + |v|] == v && SplitsAsVersion(v, p, q)
    requires k + |v| == |s| || !IsDigit(s[k + |v|])
    ensures DigitRun(s, k) == p
    ensures DigitRun(s, k + p + 1) == q - p - 1
    ensures DigitRun(s, k + q + 1) == |v| - q - 1
    ensures s[k + p] == '.' && s[k + q] == '.'
  {
    assert forall j :: 0 <= j < |v| ==> s[k + j] == v[j];
    DigitRunIs(s, k, p);
    DigitRunIs(s, k + p + 1, q - p - 1);
    DigitRunIs(s, k + q + 1, |v| - q - 1);
  }

  /** Scans `\d+\.\d+\.\d+` greedily at position `k`; returns the text it spans. */
  function TripleAt(s: string, k: nat): Option<string>
    requires k <= |s|
  {
    var a := DigitRun(s, k);
    var p := k + a;
    if a == 0 || p >= |s| || s[p] != '.' then None
    else
      var b := DigitRun(s, p + 1);
      var q := p + 1 + b;
      if b == 0 || q >= |s| || s[q] != '.' then None
      else
        var c := DigitRun(s, q + 1);
        if c == 0 then None else Some(s[k..q + 1 + c])
  }

  /** The scanner is sound: what it finds at `i` is a match there. */
  lemma MatchAtSound(s: string, i: nat)
    requires i + |Literal| <= |s| && s[i..i + |Literal|] == Literal
    requires TripleAt(s, i + |Literal|).Some?
    ensures MatchesAt(s, i, TripleAt(s, i + |Literal|).value)
  {
    var k := i + |Literal|;
    var v := TripleAt(s, k).value;
    var p := k + DigitRun(s, k);
    var q := p + 1 + DigitRun(s, p + 1);
    var e := q + 1 + DigitRun(s, q + 1);
    assert v == s[k..e];
    assert forall j :: 0 <= j < |v| ==> v[j] == s[k + j];
    assert SplitsAsVersion(v, p - k, q - k);
  }

  /** The scanner is complete: a match at `i` is what it finds there. */
  lemma MatchAtComplete(s: string, i: nat, v: string)
    requires MatchesAt(s, i, v)
    ensures TripleAt(s, i + |Literal|) == Some(v)
  {
    var p, q :| SplitsAsVersion(v, p, q);
    TripleAtFinds(s, i + |Literal|, v, p, q);
  }

  /** A version written at `k` and not followed by a digit is what TripleAt
      scans there. */
  lemma TripleAtFinds(s: string, k: nat, v: string, p: int, q: int)
    requires k + |v| <= |s| && s[k..k + |v|] == v && SplitsAsVersion(v, p, q)
    requires k + |v| == |s| || !IsDigit(s[k + |v|])
    ensures TripleAt(s, k) == Some(v)
  {
    VersionRuns(s, k, v, p, q);
    assert k + p + 1 + (q - p - 1) + 1 + (|v| - q - 1) == k + |v|;
  }

  /** The capture group of the preferred match starting at position `i`, if any. */
  function MatchAt(s: string, i: nat): (r: Option<string>)
    requires i <= |s|
    ensures r.Some? ==> MatchesAt(s, i, r.value)
    ensures forall v :: MatchesAt(s, i, v) ==> r == Some(v)
  {
    if i + |Literal| <= |s| && s[i..i + |Literal|] == Literal then
      var r := TripleAt(s, i + |Literal|);
      assert r.Some? ==> MatchesAt(s, i, r.value) by {
        if r.Some? { MatchAtSound(s, i); }
      }
      assert forall v :: MatchesAt(s, i, v) ==> r == Some(v) by {
        forall v | MatchesAt(s, i, v) {
          MatchAtComplete(s, i, v);
        }
      }
      r
    else
      None
  }

  /** At most one capture per start position. */
  lemma MatchIsUnique(s: string, i: nat, v: string, w: string)
    requires MatchesAt(s, i, v) && MatchesAt(s, i, w)
    ensures v == w
  {
    var r := MatchAt(s, i);
  }

  /** A match found by the scanner: where it starts and what group 1 captured. */
  datatype Match = Match(start: nat, version: string)

  /** The leftmost match starting at or after `from`. */
  function FirstMatch(s: string, from: nat): (r: Option<Match>)
    requires from <= |s|
    ensures r.Some? ==> && from <= r.value.start <= |s|
                        && MatchesAt(s, r.value.start, r.value.version)
                        && NoMatchIn(s, from, r.value.start)
    ensures r.None? ==> NoMatchIn(s, from, |s| + 1)
    decreases |s| - from
  {
    match MatchAt(s, from)
    case Some(v) => Some(Match(from, v))
    case None =>
      if from == |s| then None else FirstMatch(s, from + 1)
  }

  /** `versionPattern.FindStringSubmatch(text)[1]`, or None when there is no
      match. On a match Go returns the whole match and group 1, so the
      `len(match) == 2` test holds exactly when there is a match. */
  function ExtractVersion(text: string): (r: Option<string>)
    ensures r.Some? ==> exists i :: LeftmostMatch(text, i, r.value)
    ensures r.None? ==> forall i, v :: !MatchesAt(text, i, v)
    ensures r.Some? ==> IsVersion(r.value) && |r.value| >= 5
  {
    match FirstMatch(text, 0)
    case None => None
    case Some(m) =>
      assert |m.version| >= 5 by {
        var p, q :| SplitsAsVersion(m.version, p, q);
      }
      assert LeftmostMatch(text, m.start, m.version);
      Some(m.version)
  }

  /** Converse of ExtractVersion's contract: the leftmost match is the one
      extracted. Together they say ExtractVersion(s) == Some(v) exactly when
      some LeftmostMatch(s, i, v) holds. */
  lemma ExtractVersionFinds(s: string, i: int, v: string)
    requires LeftmostMatch(s, i, v)
    ensures ExtractVersion(s) == Some(v)
  {
    var m := FirstMatch(s, 0);
    MatchIsUnique(s, i, v, m.value.version);
  }

  /** An extracted version is never the empty string, so Go's `""` sentinel
      for "no version" and the Option used here agree. */
  lemma ExtractedVersionIsNonEmpty(text: string)
    requires ExtractVersion(text).Some?
    ensures ExtractVersion(text).value != ""
  {
  }

  /** Each component of an extracted version is the maximal digit run at its
      position in the text: DigitRun measures exactly the components. */
  lemma ExtractedComponentsAreMaximalRuns(s: string, i: int, v: string, p: int, q: int)
    requires LeftmostMatch(s, i, v) && SplitsAsVersion(v, p, q)
    ensures DigitRun(s, i + |Literal|) == p
    ensures DigitRun(s, i + |Literal| + p + 1) == q - p - 1
    ensures DigitRun(s, i + |Literal| + q + 1) == |v| - q - 1
  {
    VersionRuns(s, i + |Literal|, v, p, q);
  }

  /** A worked case: text after the version that is not a digit (here a
      fourth dotted component) ends the match, as the unanchored pattern does. */
  lemma ExtractFourPartVersion()
    ensures ExtractVersion("DUBBD v1.2.3.4") == Some("1.2.3")
  {
    var s := "DUBBD v1.2.3.4";
    assert SplitsAsVersion("1.2.3", 1, 3) by {
      assert "1.2.3"[..1] == "1";
      assert "1.2.3"[2..3] == "2";
      assert "1.2.3"[4..] == "3";
    }
    assert s[0..7] == Literal && s[7..12] == "1.2.3";
    assert MatchesAt(s, 0, "1.2.3");
    ExtractVersionFinds(s, 0, "1.2.3");
  }

  /** A worked case: a bare announcement yields its version. */
  lemma ExtractBareAnnouncement()
    ensures ExtractVersion("DUBBD v1.1.0") == Some("1.1.0")
  {
    var s := "DUBBD v1.1.0";
    assert SplitsAsVersion("1.1.0", 1, 3) by {
      assert DigitsIn("1.1.0", 0, 1) && DigitsIn("1.1.0", 2, 3) && DigitsIn("1.1.0", 4, 5);
    }
    assert s[0..7] == Literal && s[7..12] == "1.1.0";
    assert MatchesAt(s, 0, "1.1.0");
    ExtractVersionFinds(s, 0, "1.1.0");
  }
}
