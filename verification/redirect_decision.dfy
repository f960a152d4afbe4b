/** The whole request: parse the URI, split off the query, compare the
    version with the installed one, look the rewritten path up on disk, and
    either redirect or fall through to the 404 page
    (redcap_redirect.php, lines 49-130). */
module RedirectDecision {
  import opened Wrappers
  import opened Text
  import opened UriParser
  import opened QuerySplitter
  import opened NotFoundUrl

  /** Installation settings the script reads: `$redcap_version` and
      `$_SERVER['DOCUMENT_ROOT']`. */
  datatype Config = Config(installedVersion: string, documentRoot: string)

  /** The two ways a request ends: `redirect($newUri)` followed by `die()`,
      or the 404 page showing the full URL. */
  datatype Decision = Redirect(location: string) | NotFound(fullUrl: string)

  /** The rewritten URL without its query, `$newUrl` (line 95). */
  function NewUrl(m: UriParts, pq: PathQuery, cfg: Config): (url: string)
    ensures |url| == |m.prefix| + |cfg.installedVersion| + |pq.path|
    ensures url[..|m.prefix|] == m.prefix
    ensures url[|m.prefix|..|m.prefix| + |cfg.installedVersion|] == cfg.installedVersion
    ensures url[|m.prefix| + |cfg.installedVersion|..] == pq.path
  {
    m.prefix + cfg.installedVersion + pq.path
  }

  /** The script once the first pattern has matched with groups `m`
      (lines 69-117).  `existing` is the set of filesystem paths for which
      `file_exists` answers true. */
  function Respond(m: UriParts, uri: string, cfg: Config, server: ServerVars, existing: set<string>): (d: Decision)
    ensures d.NotFound? ==> d.fullUrl == FullUrl(server, uri)
    ensures d.Redirect? ==> m.version != cfg.installedVersion
  {
    // line 69
    var uriVersion := if IsPhpEmpty(m.version) then None else Some(m.version);
    // lines 74-88; when group 3 is empty `$uriMatches[4]` stays unset and reads as ""
    var pq := if IsPhpEmpty(m.rest) then PathQuery(m.rest, "") else SplitQuery(m.rest);
    // lines 91-113
    if uriVersion.Some? && uriVersion.value != cfg.installedVersion then
      var newUrl := NewUrl(m, pq, cfg);
      if cfg.documentRoot + newUrl in existing then Redirect(newUrl + pq.query)
      else NotFound(FullUrl(server, uri))
    else NotFound(FullUrl(server, uri))
  }

  /** The whole script: match the URI, then respond; no match falls
      through to the 404 page. */
  function Decide(uri: string, cfg: Config, server: ServerVars, existing: set<string>): (d: Decision)
    ensures d.NotFound? ==> d.fullUrl == FullUrl(server, uri)
    ensures d.Redirect? ==> Parse(uri).Some? && Parse(uri).value.version != cfg.installedVersion
  {
    match Parse(uri)
    case None => NotFound(FullUrl(server, uri))
    case Some(m) => Respond(m, uri, cfg, server, existing)
  }

  /** Once the URI has parsed, the script's answer is the response to
      that match. */
  lemma DecideOnMatch(uri: string, cfg: Config, server: ServerVars, existing: set<string>, m: UriParts)
    requires Parse(uri) == Some(m)
    ensures Decide(uri, cfg, server, existing) == Respond(m, uri, cfg, server, existing)
  {
  }

  /** For groups that match, the `empty()` tests always pass, so the
      response depends only on the version comparison and the lookup. */
  lemma RespondToSplit(m: UriParts, uri: string, cfg: Config, server: ServerVars, existing: set<string>)
    requires IsSplit(uri, m.prefix, m.version, m.rest)
    ensures var pq := SplitQuery(m.rest);
      Respond(m, uri, cfg, server, existing) ==
        if m.version != cfg.installedVersion && cfg.documentRoot + NewUrl(m, pq, cfg) in existing
        then Redirect(NewUrl(m, pq, cfg) + pq.query)
        else NotFound(FullUrl(server, uri))
  {
    GroupsNotEmpty(m.version, m.rest);
  }

  /** The three conditions under which the script redirects: the URI
      matches, its version differs from the installed one as a string, and
      the rewritten path without the query exists under the document root. */
  ghost predicate RedirectConditions(uri: string, cfg: Config, existing: set<string>, m: UriParts) {
    && IsGreedyMatch(uri, m)
    && m.version != cfg.installedVersion
    && cfg.documentRoot + NewUrl(m, SplitQuery(m.rest), cfg) in existing
  }

  /** The script redirects exactly when the three conditions hold, and
      otherwise answers 404; there is no third outcome. */
  lemma RedirectExactly(uri: string, cfg: Config, server: ServerVars, existing: set<string>)
    ensures Decide(uri, cfg, server, existing).Redirect? <==>
      exists m :: RedirectConditions(uri, cfg, existing, m)
    ensures !Decide(uri, cfg, server, existing).Redirect? ==>
      Decide(uri, cfg, server, existing) == NotFound(FullUrl(server, uri))
  {
    if Parse(uri).Some? {
      var m := Parse(uri).value;
      RespondToSplit(m, uri, cfg, server, existing);
      assert RedirectConditions(uri, cfg, existing, m) ==> Decide(uri, cfg, server, existing).Redirect?;
      forall m' | RedirectConditions(uri, cfg, existing, m')
        ensures Decide(uri, cfg, server, existing).Redirect?
      {
        ParseIsGreedyMatch(uri, m');
      }
    }
  }

  /** A URI without a `/redcap_vX.Y.Z/` split answers 404, whatever the
      installed version and the filesystem. */
  lemma NoMatchIsNotFound(uri: string, cfg: Config, server: ServerVars, existing: set<string>)
    requires forall p, v, r :: !IsSplit(uri, p, v, r)
    ensures Decide(uri, cfg, server, existing) == NotFound(FullUrl(server, uri))
  {
  }

  /** A URI that already names the installed version answers 404 whatever
      the filesystem holds, so a redirect can never point at itself. */
  lemma CurrentVersionIsNotFound(uri: string, cfg: Config, server: ServerVars, existing: set<string>, m: UriParts)
    requires IsGreedyMatch(uri, m) && m.version == cfg.installedVersion
    ensures Decide(uri, cfg, server, existing) == NotFound(FullUrl(server, uri))
  {
    ParseIsGreedyMatch(uri, m);
  }

  /** A stale version whose rewritten path does not exist answers 404. */
  lemma MissingTargetIsNotFound(uri: string, cfg: Config, server: ServerVars, existing: set<string>, m: UriParts)
    requires IsGreedyMatch(uri, m) && m.version != cfg.installedVersion
    requires cfg.documentRoot + NewUrl(m, SplitQuery(m.rest), cfg) !in existing
    ensures Decide(uri, cfg, server, existing) == NotFound(FullUrl(server, uri))
  {
    ParseIsGreedyMatch(uri, m);
    RespondToSplit(m, uri, cfg, server, existing);
  }

  /** On a redirect the target is the input URI with only the version token
      replaced: the prefix, the path and the query are carried over byte for
      byte, and the query is the one the existence check left out. */
  lemma RedirectTarget(uri: string, cfg: Config, server: ServerVars, existing: set<string>, m: UriParts)
    requires IsGreedyMatch(uri, m)
    requires Decide(uri, cfg, server, existing).Redirect?
    ensures uri == m.prefix + m.version + SplitQuery(m.rest).path + SplitQuery(m.rest).query
    ensures Decide(uri, cfg, server, existing).location ==
      m.prefix + cfg.installedVersion + SplitQuery(m.rest).path + SplitQuery(m.rest).query
    ensures Decide(uri, cfg, server, existing).location == m.prefix + cfg.installedVersion + m.rest
  {
    var pq := SplitQuery(m.rest);
    ParseIsGreedyMatch(uri, m);
    DecideOnMatch(uri, cfg, server, existing, m);
    RespondToSplit(m, uri, cfg, server, existing);
    assert Decide(uri, cfg, server, existing).location == NewUrl(m, pq, cfg) + pq.query;
    Regroup(m.prefix, m.version, pq.path, pq.query);
    Regroup(m.prefix, cfg.installedVersion, pq.path, pq.query);
  }

  /** Associativity of sequence concatenation, instantiated for the four
      pieces of a request; a proof step only, modelling nothing. */
  lemma Regroup(a: string, b: string, c: string, d: string)
    ensures a + b + (c + d) == a + b + c + d
  {
  }

  /** A stale version whose rewritten path exists is redirected to the
      rewritten path followed by the original query. */
  lemma StaleExistingRedirects(uri: string, cfg: Config, server: ServerVars, existing: set<string>,
                               m: UriParts, pq: PathQuery)
    requires Parse(uri) == Some(m) && SplitQuery(m.rest) == pq
    requires m.version != cfg.installedVersion
    requires cfg.documentRoot + NewUrl(m, pq, cfg) in existing
    ensures Decide(uri, cfg, server, existing) == Redirect(NewUrl(m, pq, cfg) + pq.query)
  {
    RespondToSplit(m, uri, cfg, server, existing);
  }

  /** Two URIs whose greedy matches agree on prefix, version and path get
      the same kind of answer, whatever queries are left in group 3.  (A
      query can still change the answer by moving the greedy match itself:
      see `Scenarios.VersionInQueryStopsRedirect`.) */
  lemma QueryDoesNotDecide(uri1: string, uri2: string, cfg: Config, server: ServerVars, existing: set<string>,
                           m1: UriParts, m2: UriParts)
    requires IsGreedyMatch(uri1, m1) && IsGreedyMatch(uri2, m2)
    requires m1.prefix == m2.prefix && m1.version == m2.version
    requires SplitQuery(m1.rest).path == SplitQuery(m2.rest).path
    ensures Decide(uri1, cfg, server, existing).Redirect? == Decide(uri2, cfg, server, existing).Redirect?
  {
    ParseIsGreedyMatch(uri1, m1);
    ParseIsGreedyMatch(uri2, m2);
    RespondToSplit(m1, uri1, cfg, server, existing);
    RespondToSplit(m2, uri2, cfg, server, existing);
  }

  /** A split of `p + w + r` whose prefix reaches into `r` carries over to
      `p + v + r`, with a prefix longer than `p`. */
  lemma ShiftSplit(p: string, v: string, w: string, r: string, p': string, v': string, r': string)
    requires IsSplit(p + w + r, p', v', r') && |p'| >= |p| + |w| + |Marker|
    ensures IsSplit(p + v + r, p + v + r[..|p'| - |p| - |w|], v', r')
  {
    var t := p + w + r;
    var x := |p'| - |p| - |w|;
    assert p' == p + w + r[..x] by {
      assert t == (p + w) + r;
      assert t[..|p'|] == (p + w) + r[..x];
    }
    assert r == r[..x] + v' + r' by {
      assert t[|p| + |w|..] == r;
      assert t == (p + w) + (r[..x] + v' + r');
      assert t[|p| + |w|..] == r[..x] + v' + r';
    }
    var p'' := p + v + r[..x];
    assert p + v + r == p'' + v' + r';
    assert p''[|p''| - |Marker|..] == r[x - |Marker|..x] == p'[|p'| - |Marker|..];
  }

  /** Replacing the version of the greedy match by another version leaves
      the greedy match in place: no later marker can straddle the new
      version, because a version holds only digits and dots. */
  lemma RewriteKeepsMatch(uri: string, m: UriParts, w: string)
    requires IsGreedyMatch(uri, m) && IsVersion(w)
    ensures IsGreedyMatch(m.prefix + w + m.rest, UriParts(m.prefix, w, m.rest))
  {
    var p, v, r := m.prefix, m.version, m.rest;
    var t := p + w + r;
    forall p', v', r' | IsSplit(t, p', v', r') ensures |p'| <= |p| {
      if |p'| > |p| {
        PiecesOfSplit(t, p', v', r');
        MarkerClearOfVersion(t, p, w, r, |p'|);
        ShiftSplit(p, v, w, r, p', v', r');
      }
    }
  }

  /** A redirect never leads to a second one: when the installed version
      is itself `\d+\.\d+\.\d+`, the target parses with the installed
      version and the same remainder, so the request it causes answers 404
      instead of looping. */
  lemma RedirectIsFinal(uri: string, cfg: Config, server: ServerVars, server': ServerVars, existing: set<string>)
    requires IsVersion(cfg.installedVersion)
    requires Decide(uri, cfg, server, existing).Redirect?
    ensures var m := Parse(uri).value;
      Parse(Decide(uri, cfg, server, existing).location) == Some(UriParts(m.prefix, cfg.installedVersion, m.rest))
    ensures var t := Decide(uri, cfg, server, existing).location;
      Decide(t, cfg, server', existing) == NotFound(FullUrl(server', t))
  {
    var m := Parse(uri).value;
    RedirectTarget(uri, cfg, server, existing, m);
    var t := Decide(uri, cfg, server, existing).location;
    var m' := UriParts(m.prefix, cfg.installedVersion, m.rest);
    RewriteKeepsMatch(uri, m, cfg.installedVersion);
    ParseIsGreedyMatch(t, m');
    CurrentVersionIsNotFound(t, cfg, server', existing, m');
  }
}
