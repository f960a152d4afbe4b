/** The first regular expression of the redirect script,
      ^(.*\/redcap_v)(\d+\.\d+\.\d+)(\/.*)$
    applied to the sanitized request URI.  Group 1 is `prefix`, group 2
    `version` and group 3 `rest`.

    Two layers: the ghost predicates `IsSplit` and `IsGreedyMatch` say what
    a match is, and the scanner `Parse` finds it the way PCRE's backtracking
    does, trying the longest `.*` first. */
module UriParser {
  import opened Wrappers
  import opened Text

  /** The literal that closes group 1: `\/redcap_v`. */
  const Marker: string := "/redcap_v"

  /** Capture groups 1, 2 and 3 of a successful match. */
  datatype UriParts = UriParts(prefix: string, version: string, rest: string)

  /** `p` is matched by `.*\/redcap_v`. */
  predicate EndsWithMarker(p: string) {
    MarkerAt(p, |p|)
  }

  /** `v` is matched by `\d+\.\d+\.\d+`, with its two dots at `i` and `j`. */
  ghost predicate DotsAt(v: string, i: nat, j: nat) {
    i < j < |v| && v[i] == '.' && v[j] == '.' &&
    IsDigitRun(v[..i]) && IsDigitRun(v[i + 1..j]) && IsDigitRun(v[j + 1..])
  }

  /** `v` is matched by `\d+\.\d+\.\d+`. */
  ghost predicate IsVersion(v: string) {
    exists i: nat, j: nat :: DotsAt(v, i, j)
  }

  /** One way of matching the whole pattern: `uri` is `p + v + r` with `p`
      ending in the marker, `v` a dotted triple of digit runs and `r`
      starting with a slash. */
  ghost predicate IsSplit(uri: string, p: string, v: string, r: string) {
    uri == p + v + r && EndsWithMarker(p) && IsVersion(v) && |r| > 0 && r[0] == '/'
  }

  /** The match PCRE reports: the split whose group 1 is longest, since the
      leading `.*` is greedy. */
  ghost predicate IsGreedyMatch(uri: string, m: UriParts) {
    && IsSplit(uri, m.prefix, m.version, m.rest)
    && forall p, v, r :: IsSplit(uri, p, v, r) ==> |p| <= |m.prefix|
  }

  /** A version contains only digits and dots, so it never holds the marker's
      letters or a slash. */
  lemma VersionChars(v: string, k: nat)
    requires IsVersion(v) && k < |v|
    ensures IsDigit(v[k]) || v[k] == '.'
  {
    var i: nat, j: nat :| DotsAt(v, i, j);
    if k < i {
      assert v[k] == v[..i][k];
    } else if i < k < j {
      assert v[k] == v[i + 1..j][k - i - 1];
    } else if j < k {
      assert v[k] == v[j + 1..][k - j - 1];
    }
  }

  /** The marker holds no digit and no dot. */
  lemma MarkerChars(k: nat)
    requires k < |Marker|
    ensures !IsDigit(Marker[k]) && Marker[k] != '.'
  {
    assert Marker == ['/', 'r', 'e', 'd', 'c', 'a', 'p', '_', 'v'];
  }

  /** In `p + w + r` with `w` a version, a marker that ends beyond `p`
      starts after `w`: it cannot share a character with the version. */
  lemma MarkerClearOfVersion(t: string, p: string, w: string, r: string, k: nat)
    requires t == p + w + r && IsVersion(w)
    requires |p| < k <= |t| && MarkerAt(t, k)
    ensures k - |Marker| >= |p| + |w|
  {
    if k - |Marker| < |p| + |w| {
      var y := if k - 1 < |p| + |w| then k - 1 else |p| + |w| - 1;
      assert t[y] == w[y - |p|];
      VersionChars(w, y - |p|);
      assert t[y] == t[k - |Marker|..k][y - (k - |Marker|)];
      MarkerChars(y - (k - |Marker|));
      assert false;
    }
  }

  // ---------------------------------------------------------------------
  // The scanner

  /** The marker ends just before position `k` of `s`. */
  predicate MarkerAt(s: string, k: nat)
    requires k <= |s|
  {
    k >= |Marker| && s[k - |Marker|..k] == Marker
  }

  /** Length of the longest run of digits starting at `i`, as greedy `\d+`
      takes it. */
  function DigitsFrom(s: string, i: nat): (n: nat)
    requires i <= |s|
    ensures i + n <= |s|
    ensures forall k | i <= k < i + n :: IsDigit(s[k])
    ensures i + n == |s| || !IsDigit(s[i + n])
    decreases |s| - i
  {
    if i < |s| && IsDigit(s[i]) then 1 + DigitsFrom(s, i + 1) else 0
  }

  /** A digit run that stops at a non-digit is exactly what `DigitsFrom`
      finds. */
  lemma DigitsFromExact(s: string, i: nat, n: nat)
    requires i + n <= |s|
    requires forall k | i <= k < i + n :: IsDigit(s[k])
    requires i + n == |s| || !IsDigit(s[i + n])
    ensures DigitsFrom(s, i) == n
  {
  }

  /** A slice of a slice is a slice. */
  lemma SliceOfSlice(s: string, k: nat, e: nat, a: nat, b: nat)
    requires k <= e <= |s| && a <= b <= e - k
    ensures s[k..e][a..b] == s[k + a..k + b]
  {
    var t := s[k..e][a..b];
    forall x | 0 <= x < b - a ensures t[x] == s[k + a + x] {
      assert t[x] == s[k..e][a + x];
    }
  }

  /** `DotsAt` on a slice of `s`, restated on the positions of `s` itself. */
  lemma DotsAtSlice(s: string, k: nat, i: nat, j: nat, e: nat)
    requires k < i < j < e <= |s|
    ensures DotsAt(s[k..e], i - k, j - k) <==>
      && s[i] == '.' && s[j] == '.'
      && k < i && DigitsIn(s, k, i)
      && i + 1 < j && DigitsIn(s, i + 1, j)
      && j + 1 < e && DigitsIn(s, j + 1, e)
  {
    SliceOfSlice(s, k, e, 0, i - k);
    SliceOfSlice(s, k, e, i - k + 1, j - k);
    SliceOfSlice(s, k, e, j - k + 1, e - k);
    var v := s[k..e];
    assert v[..i - k] == v[0..i - k];
    assert v[j - k + 1..] == v[j - k + 1..e - k];
    DigitsInSlice(s, k, i);
    DigitsInSlice(s, i + 1, j);
    DigitsInSlice(s, j + 1, e);
  }

  /** `DigitsIn` on a slice, restated on the positions of `s` itself. */
  lemma DigitsInSlice(s: string, a: nat, b: nat)
    requires a <= b <= |s|
    ensures DigitsIn(s[a..b], 0, b - a) <==> DigitsIn(s, a, b)
  {
    if DigitsIn(s[a..b], 0, b - a) {
      forall x | a <= x < b ensures IsDigit(s[x]) {
        assert s[x] == s[a..b][x - a];
      }
    }
  }

  /** `\d+` starting at `i`, followed by the character `c`: the position
      of that `c`. */
  function RunThen(s: string, i: nat, c: char): (r: Option<nat>)
    requires i <= |s|
    ensures r.Some? ==> i < r.value < |s| && DigitsIn(s, i, r.value) && s[r.value] == c
  {
    var n := DigitsFrom(s, i);
    if n > 0 && i + n < |s| && s[i + n] == c then Some(i + n) else None
  }

  /** A digit run that ends in a non-digit `c` is the one `RunThen` finds. */
  lemma RunThenFinds(s: string, i: nat, e: nat, c: char)
    requires i < e < |s| && DigitsIn(s, i, e) && s[e] == c && !IsDigit(c)
    ensures RunThen(s, i, c) == Some(e)
  {
    DigitsFromExact(s, i, e - i);
  }

  /** Where `\d+\.\d+\.\d+` starting at `k` ends, provided a `/` follows
      it.  Greedy `\d+` never needs to give digits back here: each run is
      followed by a dot or a slash, which no digit can stand in for. */
  function VersionEnd(s: string, k: nat): (e: Option<nat>)
    requires k <= |s|
    ensures e.Some? ==> k < e.value < |s| && s[e.value] == '/'
  {
    match RunThen(s, k, '.')
    case None => None
    case Some(i) =>
      match RunThen(s, i + 1, '.')
      case None => None
      case Some(j) => RunThen(s, j + 1, '/')
  }

  /** What `VersionEnd` finds is matched by `\d+\.\d+\.\d+`. */
  lemma VersionEndSound(s: string, k: nat)
    requires k <= |s| && VersionEnd(s, k).Some?
    ensures IsVersion(s[k..VersionEnd(s, k).value])
  {
    var i := RunThen(s, k, '.').value;
    var j := RunThen(s, i + 1, '.').value;
    var e := RunThen(s, j + 1, '/').value;
    DotsAtSlice(s, k, i, j, e);
    assert DotsAt(s[k..e], i - k, j - k);
  }

  /** The version that starts at `k` and is followed by a slash is unique:
      `VersionEnd` finds it whenever there is one. */
  lemma VersionEndFinds(s: string, k: nat, e: nat)
    requires k <= e < |s| && IsVersion(s[k..e]) && s[e] == '/'
    ensures VersionEnd(s, k) == Some(e)
  {
    var i, j := VersionDots(s, k, e);
    RunThenFinds(s, k, i, '.');
    RunThenFinds(s, i + 1, j, '.');
    RunThenFinds(s, j + 1, e, '/');
  }

  /** The two dots of a version that occupies `s[k..e]`, as positions of `s`. */
  lemma VersionDots(s: string, k: nat, e: nat) returns (i: nat, j: nat)
    requires k <= e <= |s| && IsVersion(s[k..e])
    ensures k < i && i + 1 < j && j + 1 < e && s[i] == '.' && s[j] == '.'
    ensures DigitsIn(s, k, i) && DigitsIn(s, i + 1, j) && DigitsIn(s, j + 1, e)
  {
    var i0: nat, j0: nat :| DotsAt(s[k..e], i0, j0);
    assert i0 > 0 by {
      assert |s[k..e][..i0]| > 0;
    }
    i, j := k + i0, k + j0;
    DotsAtSlice(s, k, i, j, e);
  }

  /** The match whose group 1 has length exactly `k`, if there is one. */
  function MatchAt(uri: string, k: nat): (m: Option<UriParts>)
    requires k <= |uri|
    ensures m.Some? ==> |m.value.prefix| == k
  {
    if !MarkerAt(uri, k) then None
    else
      match VersionEnd(uri, k)
      case None => None
      case Some(e) => Some(UriParts(uri[..k], uri[k..e], uri[e..]))
  }

  /** A marker ending at `k`, followed by a version and a slash, is a
      split of the URI. */
  lemma SplitOfPieces(uri: string, k: nat, e: nat)
    requires k < e < |uri| && MarkerAt(uri, k) && IsVersion(uri[k..e]) && uri[e] == '/'
    ensures IsSplit(uri, uri[..k], uri[k..e], uri[e..])
  {
    assert uri[..k] + uri[k..e] + uri[e..] == uri;
    assert uri[..k][k - |Marker|..] == uri[k - |Marker|..k];
  }

  /** What `MatchAt` finds matches the whole pattern. */
  lemma MatchAtSound(uri: string, k: nat)
    requires k <= |uri| && MatchAt(uri, k).Some?
    ensures IsSplit(uri, MatchAt(uri, k).value.prefix, MatchAt(uri, k).value.version, MatchAt(uri, k).value.rest)
  {
    VersionEndSound(uri, k);
    SplitOfPieces(uri, k, VersionEnd(uri, k).value);
  }

  /** The pieces of a split, read back from the URI by position. */
  lemma PiecesOfSplit(uri: string, p: string, v: string, r: string)
    requires IsSplit(uri, p, v, r)
    ensures MarkerAt(uri, |p|) && uri[|p| + |v|] == '/'
    ensures p == uri[..|p|] && v == uri[|p|..|p| + |v|] && r == uri[|p| + |v|..]
  {
    var k := |p|;
    assert uri[k - |Marker|..k] == p[k - |Marker|..];
    assert uri[k + |v|] == r[0];
    assert uri[..k] == p;
    assert uri[k..k + |v|] == v;
    assert uri[k + |v|..] == r;
  }

  /** A split is determined by the length of its prefix: the scanner's test
      at position `|p|` finds exactly that split. */
  lemma SplitAt(uri: string, p: string, v: string, r: string)
    requires IsSplit(uri, p, v, r)
    ensures MatchAt(uri, |p|) == Some(UriParts(p, v, r))
  {
    PiecesOfSplit(uri, p, v, r);
    VersionEndFinds(uri, |p|, |p| + |v|);
  }

  /** The largest position `j <= k` at which `test` finds something, with
      what it found: trying `k`, `k - 1`, ..., 0 in turn is the order in
      which PCRE backtracks out of the greedy `.*`. */
  function LastHit<T>(test: nat -> Option<T>, k: nat): (r: Option<(nat, T)>)
    ensures r.Some? ==> r.value.0 <= k && test(r.value.0) == Some(r.value.1)
    ensures r.Some? ==> forall x | r.value.0 < x <= k :: test(x).None?
    ensures r.None? ==> forall x | 0 <= x <= k :: test(x).None?
    decreases k
  {
    match test(k)
    case Some(found) => Some((k, found))
    case None => if k == 0 then None else LastHit(test, k - 1)
  }

  /** The scanner's test at prefix length `k`, total on all `k`. */
  function TestAt(uri: string): nat -> Option<UriParts> {
    (k: nat) => if k <= |uri| then MatchAt(uri, k) else None
  }

  /** Matches the sanitized URI against the pattern (lines 49 and 59):
      `None` when `preg_match` finds nothing, otherwise the three groups of
      the greedy match. */
  function Parse(uri: string): (m: Option<UriParts>)
    ensures m.Some? <==> exists p, v, r :: IsSplit(uri, p, v, r)
    ensures m.Some? ==> IsGreedyMatch(uri, m.value)
  {
    var found := LastHit(TestAt(uri), |uri|);
    assert forall p, v, r | IsSplit(uri, p, v, r) :: found.Some? && |p| <= found.value.0 by {
      forall p, v, r | IsSplit(uri, p, v, r) ensures found.Some? && |p| <= found.value.0 {
        SplitAt(uri, p, v, r);
        assert TestAt(uri)(|p|).Some?;
      }
    }
    match found
    case None => None
    case Some((k, m)) =>
      assert TestAt(uri)(k) == MatchAt(uri, k);
      MatchAtSound(uri, k);
      Some(m)
  }

  /** `Parse` returns exactly the greedy match: the two descriptions of the
      regex agree on every URI. */
  lemma ParseIsGreedyMatch(uri: string, m: UriParts)
    ensures Parse(uri) == Some(m) <==> IsGreedyMatch(uri, m)
  {
    if IsGreedyMatch(uri, m) {
      assert IsSplit(uri, m.prefix, m.version, m.rest);
      var m' := Parse(uri).value;
      assert IsGreedyMatch(uri, m');
      assert |m'.prefix| == |m.prefix|;
      SplitAt(uri, m.prefix, m.version, m.rest);
      SplitAt(uri, m'.prefix, m'.version, m'.rest);
    }
  }

  /** A version and a remainder that starts with a slash are both
      non-empty in PHP's sense: neither is "" nor "0". */
  lemma GroupsNotEmpty(v: string, r: string)
    requires IsVersion(v) && |r| > 0 && r[0] == '/'
    ensures !IsPhpEmpty(v) && !IsPhpEmpty(r)
  {
    var i: nat, j: nat :| DotsAt(v, i, j);
    assert |v| > 1;
    assert r != "0" by { assert r[0] != '0'; }
  }

  /** On a match the three groups concatenate back to the URI, and neither
      group 2 nor group 3 is ever empty in PHP's sense, so the `empty()`
      tests at lines 69, 74 and 91 succeed exactly when the match did. */
  lemma MatchedGroupsNotEmpty(uri: string)
    requires Parse(uri).Some?
    ensures Parse(uri).value.prefix + Parse(uri).value.version + Parse(uri).value.rest == uri
    ensures !IsPhpEmpty(Parse(uri).value.version) && !IsPhpEmpty(Parse(uri).value.rest)
  {
    var m := Parse(uri).value;
    GroupsNotEmpty(m.version, m.rest);
  }

  /** A URI in which the marker occurs nowhere never matches. */
  lemma NoMarkerNoMatch(uri: string)
    requires forall k | 0 <= k <= |uri| :: !MarkerAt(uri, k)
    ensures Parse(uri) == None
  {
    if Parse(uri).Some? {
      var m := Parse(uri).value;
      PiecesOfSplit(uri, m.prefix, m.version, m.rest);
    }
  }

  /** The last occurrence of `/redcap_vX.Y.Z/` wins: a split after whose
      version no further marker ends is the match, wherever else the marker
      occurs earlier in the URI. */
  lemma LastOccurrenceWins(uri: string, p: string, v: string, r: string)
    requires IsSplit(uri, p, v, r)
    requires forall k | |p| + |v| < k <= |uri| :: !MarkerAt(uri, k)
    ensures Parse(uri) == Some(UriParts(p, v, r))
  {
    forall p', v', r' | IsSplit(uri, p', v', r') ensures |p'| <= |p| {
      if |p'| > |p| {
        PiecesOfSplit(uri, p', v', r');
        MarkerClearOfVersion(uri, p, v, r, |p'|);
      }
    }
    ParseIsGreedyMatch(uri, UriParts(p, v, r));
  }
}
