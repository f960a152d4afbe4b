/** The second regular expression of the redirect script,
      ^(\/.*)(\?.*)$
    applied to group 3 of the first match, which separates the path that is
    looked up on disk from the query string that is carried over verbatim
    (redcap_redirect.php, lines 74-88). */
module QuerySplitter {
  import opened Wrappers

  /** `$uriMatches[3]` and `$uriMatches[4]` after the split. */
  datatype PathQuery = PathQuery(path: string, query: string)

  /** The remainder is matched by `^(\/.*)(\?.*)$`: it starts with a slash
      and holds a `?` somewhere after that slash. */
  ghost predicate HasQuery(rest: string) {
    |rest| > 0 && rest[0] == '/' && exists q :: 1 <= q < |rest| && rest[q] == '?'
  }

  /** `path` and `query` are the two groups of that match: the path starts
      with the slash, the query with a `?`, and because the first group is
      greedy, the query holds no further `?`. */
  ghost predicate IsQuerySplit(rest: string, path: string, query: string) {
    && path + query == rest
    && |path| > 0 && path[0] == '/'
    && |query| > 0 && query[0] == '?'
    && forall x | 1 <= x < |query| :: query[x] != '?'
  }

  /** Position of the last `?` in `s[..n]`. */
  function LastQuestionMark(s: string, n: nat): (q: Option<nat>)
    requires n <= |s|
    ensures q.Some? ==> q.value < n && s[q.value] == '?'
    ensures q.Some? ==> forall x | q.value < x < n :: s[x] != '?'
    ensures q.None? ==> forall x | 0 <= x < n :: s[x] != '?'
    decreases n
  {
    if n == 0 then None
    else if s[n - 1] == '?' then Some(n - 1)
    else LastQuestionMark(s, n - 1)
  }

  /** Splits the remainder at its last `?`; when the pattern does not
      match, the path is the whole remainder and the query is empty
      (line 86). */
  function SplitQuery(rest: string): (pq: PathQuery)
    ensures pq.path + pq.query == rest
    ensures HasQuery(rest) ==> IsQuerySplit(rest, pq.path, pq.query)
    ensures !HasQuery(rest) ==> pq == PathQuery(rest, "")
  {
    if |rest| > 0 && rest[0] == '/' then
      match LastQuestionMark(rest, |rest|)
      case Some(q) =>
        assert rest[..q] + rest[q..] == rest;
        PathQuery(rest[..q], rest[q..])
      case None => PathQuery(rest, "")
    else PathQuery(rest, "")
  }

  /** Any split of the shape the pattern describes is the one `SplitQuery`
      returns: the query begins at the last `?` and nowhere else. */
  lemma QuerySplitUnique(rest: string, path: string, query: string)
    requires IsQuerySplit(rest, path, query)
    ensures SplitQuery(rest) == PathQuery(path, query)
  {
    assert rest[|path|] == query[0];
    assert HasQuery(rest);
    var pq := SplitQuery(rest);
    assert |pq.path| == |path|;
    assert pq.path == rest[..|path|] == path;
  }

  /** The split keeps a leading slash on the path whenever the remainder has
      one, which group 3 of the first pattern always does. */
  lemma PathKeepsSlash(rest: string)
    requires |rest| > 0 && rest[0] == '/'
    ensures |SplitQuery(rest).path| > 0 && SplitQuery(rest).path[0] == '/'
  {
    var pq := SplitQuery(rest);
    if !HasQuery(rest) {
      assert pq.path == rest;
    }
  }
}
