/** Concrete requests worked through the model: the four example requests
    listed in the script's comment block (redcap_redirect.php, lines 53-56),
    a URI without a version, a query with two `?`, and a version token
    inside the query string, which is the one matched and can change the
    answer.

    Each request is taken in three steps, one lemma each: how the URI
    parses, the literal facts about its groups, and the response. */
module Scenarios {
  import opened Wrappers
  import opened Text
  import opened UriParser
  import opened QuerySplitter
  import opened NotFoundUrl
  import opened RedirectDecision

  // ---------------------------------------------------------------------
  // Steps shared by the scenarios

  /** `/redcap_v` + `v` + `r`, with no marker ending anywhere in `r`, is
      matched at that one version token. */
  lemma MatchesAt(uri: string, v: string, r: string, i: nat, j: nat)
    requires uri == Marker + v + r && DotsAt(v, i, j)
    requires |r| > 0 && r[0] == '/'
    requires forall x | 0 <= x <= |r| :: !MarkerAt(r, x)
    ensures Parse(uri) == Some(UriParts(Marker, v, r))
  {
    assert IsSplit(uri, Marker, v, r);
    forall k | |Marker| + |v| < k <= |uri| ensures !MarkerAt(uri, k) {
      if MarkerAt(uri, k) {
        MarkerClearOfVersion(uri, Marker, v, r, k);
        var x := k - |Marker| - |v|;
        assert uri[k - |Marker|..k] == r[x - |Marker|..x];
        assert MarkerAt(r, x);
      }
    }
    LastOccurrenceWins(uri, Marker, v, r);
  }

  /** The marker ends in `v`, so a string without that letter holds none. */
  lemma NoMarkerWithoutV(s: string)
    requires 'v' !in s
    ensures forall x | 0 <= x <= |s| :: !MarkerAt(s, x)
  {
    forall x | 0 <= x <= |s| ensures !MarkerAt(s, x) {
      if x >= |Marker| {
        assert s[x - |Marker|..x][|Marker| - 1] == s[x - 1];
      }
    }
  }

  /** A string whose only `v` follows a character other than `_` holds no
      marker, since the marker ends in `_v`. */
  lemma NoMarkerAroundV(a: string, c: char, b: string)
    requires 'v' !in a && 'v' !in b && c != '_' && c != 'v'
    ensures forall x | 0 <= x <= |a + [c, 'v'] + b| :: !MarkerAt(a + [c, 'v'] + b, x)
  {
    var s := a + [c, 'v'] + b;
    forall x | 0 <= x <= |s| ensures !MarkerAt(s, x) {
      if x >= |Marker| {
        assert s[x - |Marker|..x][|Marker| - 1] == s[x - 1];
        assert s[x - |Marker|..x][|Marker| - 2] == s[x - 2];
        if x - 1 < |a| {
          assert s[x - 1] == a[x - 1];
        } else if x - 1 == |a| {
          assert s[x - 1] == c;
        } else if x - 1 == |a| + 1 {
          assert s[x - 2] == c;
        } else {
          assert s[x - 1] == b[x - 3 - |a|];
        }
      }
    }
  }

  /** A remainder with a single `?` is split at it. */
  lemma SplitsAtOnlyQuestionMark(path: string, tail: string)
    requires |path| > 0 && path[0] == '/' && '?' !in tail
    ensures SplitQuery(path + "?" + tail) == PathQuery(path, "?" + tail)
  {
    var query := "?" + tail;
    forall x | 1 <= x < |query| ensures query[x] != '?' {
      assert query[x] == tail[x - 1];
    }
    assert path + "?" + tail == path + query;
    QuerySplitUnique(path + query, path, query);
  }

  /** A stale match whose rewritten path exists is redirected to
      `location`. */
  lemma RespondRedirects(m: UriParts, uri: string, cfg: Config, server: ServerVars, existing: set<string>,
                         path: string, query: string, location: string)
    requires !IsPhpEmpty(m.version) && !IsPhpEmpty(m.rest)
    requires SplitQuery(m.rest) == PathQuery(path, query) && m.version != cfg.installedVersion
    requires cfg.documentRoot + NewUrl(m, PathQuery(path, query), cfg) in existing
    requires NewUrl(m, PathQuery(path, query), cfg) + query == location
    ensures Respond(m, uri, cfg, server, existing) == Redirect(location)
  {
  }

  /** A match whose rewritten path does not exist is answered with 404. */
  lemma RespondMissing(m: UriParts, uri: string, cfg: Config, server: ServerVars, existing: set<string>,
                       path: string, query: string)
    requires !IsPhpEmpty(m.rest) && SplitQuery(m.rest) == PathQuery(path, query)
    requires cfg.documentRoot + NewUrl(m, PathQuery(path, query), cfg) !in existing
    ensures Respond(m, uri, cfg, server, existing) == NotFound(FullUrl(server, uri))
  {
  }

  /** The version 7.3.0 is a dotted triple, not PHP-empty, and differs from 7.5.0. */
  lemma Version730()
    ensures DotsAt("7.3.0", 1, 3) && "7.3.0" != "7.5.0" && !IsPhpEmpty("7.3.0")
  {
    assert "7.3.0"[2] != "7.5.0"[2];
  }

  // ---------------------------------------------------------------------
  // /redcap_v7.3.0/index.php?pid=22 (line 53)

  /** The URI parses into the groups the comment at line 53 lists. */
  lemma ParsesPid()
    ensures Parse("/redcap_v7.3.0/index.php?pid=22") == Some(UriParts(Marker, "7.3.0", "/index.php?pid=22"))
  {
    Version730();
    PidPieces();
    NoMarkerWithoutV("/index.php?pid=22");
    MatchesAt("/redcap_v7.3.0/index.php?pid=22", "7.3.0", "/index.php?pid=22", 1, 3);
  }

  /** The URI is the marker, the version and the remainder. */
  lemma PidPieces()
    ensures "/redcap_v7.3.0/index.php?pid=22" == Marker + "7.3.0" + "/index.php?pid=22"
    ensures "/index.php?pid=22"[0] == '/' && 'v' !in "/index.php?pid=22"
  {
  }

  /** The remainder splits at its `?`. */
  lemma PidQuery()
    ensures SplitQuery("/index.php?pid=22") == PathQuery("/index.php", "?pid=22")
    ensures !IsPhpEmpty("/index.php?pid=22")
  {
    QuerySplitUnique("/index.php?pid=22", "/index.php", "?pid=22");
  }

  /** The rewritten path and the redirect target. */
  lemma PidTarget(root: string)
    ensures var m := UriParts(Marker, "7.3.0", "/index.php?pid=22");
      && NewUrl(m, PathQuery("/index.php", "?pid=22"), Config("7.5.0", root)) == "/redcap_v7.5.0/index.php"
      && "/redcap_v7.5.0/index.php" + "?pid=22" == "/redcap_v7.5.0/index.php?pid=22"
  {
  }

  /** `/redcap_v7.3.0/index.php?pid=22` with 7.5.0 installed and
      `index.php` present in the new version is redirected to
      `/redcap_v7.5.0/index.php?pid=22`. */
  lemma StaleVersionRedirects(root: string, server: ServerVars, existing: set<string>)
    requires root + "/redcap_v7.5.0/index.php" in existing
    ensures Decide("/redcap_v7.3.0/index.php?pid=22", Config("7.5.0", root), server, existing)
         == Redirect("/redcap_v7.5.0/index.php?pid=22")
  {
    var m := UriParts(Marker, "7.3.0", "/index.php?pid=22");
    ParsesPid();
    DecideOnMatch("/redcap_v7.3.0/index.php?pid=22", Config("7.5.0", root), server, existing, m);
    Version730();
    PidQuery();
    PidTarget(root);
    RespondRedirects(m, "/redcap_v7.3.0/index.php?pid=22", Config("7.5.0", root), server, existing,
                     "/index.php", "?pid=22", "/redcap_v7.5.0/index.php?pid=22");
  }

  // ---------------------------------------------------------------------
  // /redcap_v7.3.0/ControlCenter (line 54)

  /** The URI parses into the groups the comment at line 54 lists. */
  lemma ParsesControlCenter()
    ensures Parse("/redcap_v7.3.0/ControlCenter") == Some(UriParts(Marker, "7.3.0", "/ControlCenter"))
  {
    Version730();
    ControlCenterPieces();
    NoMarkerWithoutV("/ControlCenter");
    MatchesAt("/redcap_v7.3.0/ControlCenter", "7.3.0", "/ControlCenter", 1, 3);
  }

  /** The URI is the marker, the version and the remainder. */
  lemma ControlCenterPieces()
    ensures "/redcap_v7.3.0/ControlCenter" == Marker + "7.3.0" + "/ControlCenter"
    ensures "/ControlCenter"[0] == '/' && 'v' !in "/ControlCenter"
  {
  }

  /** The remainder has no query, so the whole of it is looked up. */
  lemma ControlCenterFacts()
    ensures !IsPhpEmpty("/ControlCenter")
    ensures SplitQuery("/ControlCenter") == PathQuery("/ControlCenter", "")
  {
    assert !HasQuery("/ControlCenter");
  }

  /** The rewritten path. */
  lemma ControlCenterNewUrl(root: string)
    ensures NewUrl(UriParts(Marker, "7.3.0", "/ControlCenter"), PathQuery("/ControlCenter", ""), Config("7.5.0", root))
         == "/redcap_v7.5.0/ControlCenter"
  {
    assert NewUrl(UriParts(Marker, "7.3.0", "/ControlCenter"), PathQuery("/ControlCenter", ""), Config("7.5.0", root))
        == Marker + "7.5.0" + "/ControlCenter";
  }

  /** A stale `/redcap_v7.3.0/ControlCenter` whose counterpart under 7.5.0
      does not exist is answered with 404. */
  lemma MissingTargetAnswers404(root: string, server: ServerVars, existing: set<string>)
    requires root + "/redcap_v7.5.0/ControlCenter" !in existing
    ensures Decide("/redcap_v7.3.0/ControlCenter", Config("7.5.0", root), server, existing)
         == NotFound(FullUrl(server, "/redcap_v7.3.0/ControlCenter"))
  {
    var m := UriParts(Marker, "7.3.0", "/ControlCenter");
    ParsesControlCenter();
    DecideOnMatch("/redcap_v7.3.0/ControlCenter", Config("7.5.0", root), server, existing, m);
    ControlCenterFacts();
    ControlCenterNewUrl(root);
    RespondMissing(m, "/redcap_v7.3.0/ControlCenter", Config("7.5.0", root), server, existing,
                   "/ControlCenter", "");
  }

  // ---------------------------------------------------------------------
  // /redcap_v7.3.0/index.php (line 55)

  /** The URI parses into the groups the comment at line 55 lists. */
  lemma ParsesIndex()
    ensures Parse("/redcap_v7.3.0/index.php") == Some(UriParts(Marker, "7.3.0", "/index.php"))
  {
    Version730();
    IndexPieces();
    NoMarkerWithoutV("/index.php");
    MatchesAt("/redcap_v7.3.0/index.php", "7.3.0", "/index.php", 1, 3);
  }

  /** The URI is the marker, the version and the remainder. */
  lemma IndexPieces()
    ensures "/redcap_v7.3.0/index.php" == Marker + "7.3.0" + "/index.php"
    ensures "/index.php"[0] == '/' && 'v' !in "/index.php"
  {
  }

  /** With 7.3.0 itself installed, `/redcap_v7.3.0/index.php` is answered
      with 404, even when the file it names exists. */
  lemma CurrentVersionAnswers404(root: string, server: ServerVars, existing: set<string>)
    ensures Decide("/redcap_v7.3.0/index.php", Config("7.3.0", root), server, existing)
         == NotFound(FullUrl(server, "/redcap_v7.3.0/index.php"))
  {
    ParsesIndex();
    DecideOnMatch("/redcap_v7.3.0/index.php", Config("7.3.0", root), server, existing,
                  UriParts(Marker, "7.3.0", "/index.php"));
  }

  // ---------------------------------------------------------------------
  // /redcap_v7.3.0/index.php?pid=21&page=my_first_instrument&id=1&event_id=50&instance=1&msg=edit
  // (line 56)

  /** The query of the example at line 56,
      `?pid=21&page=my_first_instrument&id=1&event_id=50&instance=1&msg=edit`,
      written in pieces around the `ev` of `event_id`, which holds the only
      `v` of the request's remainder. */
  const ExampleQuery: string := "?" + ExampleArgs
  const ExampleArgs: string := ExampleArgsHead + "ev" + ExampleArgsTail
  const ExampleArgsHead: string := "pid=21&page=my_first_instrument&id=1&"
  const ExampleArgsTail: string := "ent_id=50&instance=1&msg=edit"

  /** The URI parses into the groups the comment at line 56 lists, although
      its query holds a `v`. */
  lemma ParsesLongQuery()
    ensures Parse("/redcap_v7.3.0/index.php" + ExampleQuery)
         == Some(UriParts(Marker, "7.3.0", "/index.php" + ExampleQuery))
  {
    Version730();
    LongQueryPieces();
    LongQueryLetters();
    LongQueryNoOtherV();
    NoMarkerAroundV("/index.php?" + ExampleArgsHead, 'e', ExampleArgsTail);
    MatchesAt("/redcap_v7.3.0/index.php" + ExampleQuery, "7.3.0", "/index.php" + ExampleQuery, 1, 3);
  }

  /** The URI is the marker, the version and the remainder. */
  lemma LongQueryPieces()
    ensures "/redcap_v7.3.0/index.php" + ExampleQuery == Marker + "7.3.0" + ("/index.php" + ExampleQuery)
    ensures ("/index.php" + ExampleQuery)[0] == '/'
  {
  }

  /** The remainder's only `v` follows an `e`. */
  lemma LongQueryLetters()
    ensures "/index.php" + ExampleQuery == ("/index.php?" + ExampleArgsHead) + ['e', 'v'] + ExampleArgsTail
  {
    assert ExampleQuery == "?" + ExampleArgsHead + ['e', 'v'] + ExampleArgsTail;
  }

  /** Neither side of that `v` holds another. */
  lemma LongQueryNoOtherV()
    ensures 'v' !in "/index.php?" + ExampleArgsHead && 'v' !in ExampleArgsTail
  {
  }

  /** The query holds no `?` after its first character. */
  lemma LongQueryOneQuestionMark()
    ensures '?' !in ExampleArgs
  {
  }

  /** The remainder splits at its only `?`. */
  lemma LongQuerySplit()
    ensures SplitQuery("/index.php" + ExampleQuery) == PathQuery("/index.php", ExampleQuery)
  {
    LongQueryOneQuestionMark();
    SplitsAtOnlyQuestionMark("/index.php", ExampleArgs);
    assert "/index.php" + "?" + ExampleArgs == "/index.php" + ExampleQuery;
  }

  /** The remainder is not PHP-empty. */
  lemma LongQueryNotEmpty()
    ensures !IsPhpEmpty("/index.php" + ExampleQuery)
  {
  }

  /** The rewritten path is `/redcap_v7.5.0/index.php`. */
  lemma LongQueryNewUrl(root: string)
    ensures var m := UriParts(Marker, "7.3.0", "/index.php" + ExampleQuery);
      NewUrl(m, PathQuery("/index.php", ExampleQuery), Config("7.5.0", root)) == "/redcap_v7.5.0/index.php"
  {
    var m := UriParts(Marker, "7.3.0", "/index.php" + ExampleQuery);
    assert NewUrl(m, PathQuery("/index.php", ExampleQuery), Config("7.5.0", root)) == Marker + "7.5.0" + "/index.php";
  }

  /** With 7.5.0 installed and `index.php` present in it, the request of
      line 56 is redirected with its whole query carried over. */
  lemma LongQueryRedirects(root: string, server: ServerVars, existing: set<string>)
    requires root + "/redcap_v7.5.0/index.php" in existing
    ensures Decide("/redcap_v7.3.0/index.php" + ExampleQuery, Config("7.5.0", root), server, existing)
         == Redirect("/redcap_v7.5.0/index.php" + ExampleQuery)
  {
    var m := UriParts(Marker, "7.3.0", "/index.php" + ExampleQuery);
    ParsesLongQuery();
    DecideOnMatch("/redcap_v7.3.0/index.php" + ExampleQuery, Config("7.5.0", root), server, existing, m);
    Version730();
    LongQuerySplit();
    LongQueryNotEmpty();
    LongQueryNewUrl(root);
    RespondRedirects(m, "/redcap_v7.3.0/index.php" + ExampleQuery, Config("7.5.0", root), server, existing,
                     "/index.php", ExampleQuery, "/redcap_v7.5.0/index.php" + ExampleQuery);
  }

  // ---------------------------------------------------------------------
  // /about.html

  /** A URI without the letter `v` holds no marker, so it never matches. */
  lemma NoLetterVNoMatch(uri: string)
    requires 'v' !in uri
    ensures Parse(uri) == None
  {
    NoMarkerWithoutV(uri);
    NoMarkerNoMatch(uri);
  }

  /** The URI holds no `v`, so it does not parse. */
  lemma ParsesNothing()
    ensures Parse("/about.html") == None
  {
    NoLetterVNoMatch("/about.html");
  }

  /** A URI without a version token is answered with 404. */
  lemma UnversionedAnswers404(cfg: Config, server: ServerVars, existing: set<string>)
    ensures Decide("/about.html", cfg, server, existing) == NotFound(FullUrl(server, "/about.html"))
  {
    ParsesNothing();
  }

  // ---------------------------------------------------------------------
  // /redcap_v7.3.0/index.php?a=1?b=2

  /** The URI parses at its only version token. */
  lemma ParsesTwoQuestionMarks()
    ensures Parse("/redcap_v7.3.0/index.php?a=1?b=2") == Some(UriParts(Marker, "7.3.0", "/index.php?a=1?b=2"))
  {
    Version730();
    TwoQuestionMarksPieces();
    NoMarkerWithoutV("/index.php?a=1?b=2");
    MatchesAt("/redcap_v7.3.0/index.php?a=1?b=2", "7.3.0", "/index.php?a=1?b=2", 1, 3);
  }

  /** The URI is the marker, the version and the remainder. */
  lemma TwoQuestionMarksPieces()
    ensures "/redcap_v7.3.0/index.php?a=1?b=2" == Marker + "7.3.0" + "/index.php?a=1?b=2"
    ensures "/index.php?a=1?b=2"[0] == '/' && 'v' !in "/index.php?a=1?b=2"
  {
  }

  /** The query begins at the LAST `?`: with two of them the first stays in
      the path. */
  lemma SecondQuestionMarkStaysInQuery()
    ensures SplitQuery("/index.php?a=1?b=2") == PathQuery("/index.php?a=1", "?b=2")
  {
    QuerySplitUnique("/index.php?a=1?b=2", "/index.php?a=1", "?b=2");
  }

  /** The rewritten path keeps the first query part. */
  lemma TwoQuestionMarksFacts(root: string)
    ensures var m, cfg := UriParts(Marker, "7.3.0", "/index.php?a=1?b=2"), Config("7.5.0", root);
      && !IsPhpEmpty(m.rest)
      && NewUrl(m, PathQuery("/index.php?a=1", "?b=2"), cfg) == "/redcap_v7.5.0/index.php?a=1"
  {
  }

  /** So the path looked up on disk still holds `?a=1`: even when
      `index.php` exists under 7.5.0 the lookup fails and the request is
      answered with 404. */
  lemma TwoQuestionMarksAnswer404(root: string, server: ServerVars, existing: set<string>)
    requires root + "/redcap_v7.5.0/index.php?a=1" !in existing
    ensures Decide("/redcap_v7.3.0/index.php?a=1?b=2", Config("7.5.0", root), server, existing)
         == NotFound(FullUrl(server, "/redcap_v7.3.0/index.php?a=1?b=2"))
  {
    var m := UriParts(Marker, "7.3.0", "/index.php?a=1?b=2");
    ParsesTwoQuestionMarks();
    DecideOnMatch("/redcap_v7.3.0/index.php?a=1?b=2", Config("7.5.0", root), server, existing, m);
    SecondQuestionMarkStaysInQuery();
    TwoQuestionMarksFacts(root);
    RespondMissing(m, "/redcap_v7.3.0/index.php?a=1?b=2", Config("7.5.0", root), server, existing,
                   "/index.php?a=1", "?b=2");
  }

  // ---------------------------------------------------------------------
  // /redcap_v7.3.0/index.php?pid=/redcap_v7.5.0/x

  /** The greedy prefix picks the last version token, even one inside the
      query string: here the token that is compared and replaced is the
      7.5.0 of the query, not the 7.3.0 of the path. */
  lemma VersionInQueryIsTheOneMatched()
    ensures Parse("/redcap_v7.3.0/index.php?pid=/redcap_v7.5.0/x")
         == Some(UriParts("/redcap_v7.3.0/index.php?pid=/redcap_v", "7.5.0", "/x"))
  {
    var uri := "/redcap_v7.3.0/index.php?pid=/redcap_v7.5.0/x";
    var p := "/redcap_v7.3.0/index.php?pid=/redcap_v";
    assert uri == p + "7.5.0" + "/x";
    assert p[|p| - |Marker|..] == Marker;
    assert DotsAt("7.5.0", 1, 3);
    assert forall k | |p| + 5 < k <= |uri| :: !MarkerAt(uri, k) by {
      forall k | |p| + 5 < k <= |uri| ensures !MarkerAt(uri, k) {
        assert uri[k - |Marker|..k][|Marker| - 1] == uri[k - 1];
      }
    }
    LastOccurrenceWins(uri, p, "7.5.0", "/x");
  }

  /** The limit of `QueryDoesNotDecide`: a query can change the answer by
      moving the greedy match.  With 7.5.0 installed and `index.php`
      present under it, `/redcap_v7.3.0/index.php?pid=22` is redirected, but
      `/redcap_v7.3.0/index.php?pid=/redcap_v7.5.0/x`, which differs only in
      its query, is matched at the installed version and answered with 404. */
  lemma VersionInQueryStopsRedirect(root: string, server: ServerVars, existing: set<string>)
    requires root + "/redcap_v7.5.0/index.php" in existing
    ensures Decide("/redcap_v7.3.0/index.php?pid=22", Config("7.5.0", root), server, existing).Redirect?
    ensures Decide("/redcap_v7.3.0/index.php?pid=/redcap_v7.5.0/x", Config("7.5.0", root), server, existing)
         == NotFound(FullUrl(server, "/redcap_v7.3.0/index.php?pid=/redcap_v7.5.0/x"))
  {
    StaleVersionRedirects(root, server, existing);
    VersionInQueryIsTheOneMatched();
    DecideOnMatch("/redcap_v7.3.0/index.php?pid=/redcap_v7.5.0/x", Config("7.5.0", root), server, existing,
                  UriParts("/redcap_v7.3.0/index.php?pid=/redcap_v", "7.5.0", "/x"));
  }
}
