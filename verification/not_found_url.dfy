/** The full URL shown on the 404 page: the scheme detected from the
    server variables, the server name and the sanitized request URI
    (redcap_redirect.php, lines 121-130). */
module NotFoundUrl {
  import opened Wrappers
  import opened Text

  /** The `$_SERVER` entries the 404 page reads; `None` when unset. */
  datatype ServerVars = ServerVars(
    requestScheme: Option<string>,
    https: Option<string>,
    serverPort: Option<string>,
    serverName: Option<string>)

  /** `! empty($x) && $x == value`, with `==` taken as string equality.
      The `empty()` guard only matters for the values "" and "0": for any
      other value the test is plain equality. */
  predicate IsSetTo(x: Option<string>, value: string): (b: bool)
    ensures !IsPhpEmpty(value) ==> (b <==> x == Some(value))
    ensures IsPhpEmpty(value) ==> !b
  {
    x.Some? && !IsPhpEmpty(x.value) && x.value == value
  }

  /** The request came in over TLS by any of the three signs the script
      accepts. */
  predicate IsSecure(server: ServerVars) {
    || server.requestScheme == Some("https")
    || server.https == Some("on")
    || server.serverPort == Some("443")
  }

  /** `$server_request_scheme` (lines 122-128).  The `empty()` guards never
      reject a value equal to "https", "on" or "443", so the scheme is
      "https" exactly when one of the three variables holds its value. */
  function Scheme(server: ServerVars): (scheme: string)
    ensures scheme == "https" || scheme == "http"
    ensures scheme == "https" <==> IsSecure(server)
  {
    if IsSetTo(server.requestScheme, "https") || IsSetTo(server.https, "on") || IsSetTo(server.serverPort, "443")
    then "https"
    else "http"
  }

  /** `$_SERVER['SERVER_NAME']` as PHP concatenates it: unset reads as "". */
  function HostName(server: ServerVars): string {
    match server.serverName
    case Some(name) => name
    case None => ""
  }

  /** `$fullUrl` (line 130): scheme, `://`, host, then the request URI. */
  function FullUrl(server: ServerVars, requestUri: string): (url: string)
    ensures |url| >= |requestUri| && url[|url| - |requestUri|..] == requestUri
    ensures (|url| >= 8 && url[..8] == "https://") <==> IsSecure(server)
    ensures !IsSecure(server) ==> |url| >= 7 && url[..7] == "http://"
    ensures url == (if IsSecure(server) then "https" else "http") + "://" + HostName(server) + requestUri
  {
    var url := Scheme(server) + "://" + HostName(server) + requestUri;
    assert url[|url| - |requestUri|..] == requestUri;
    assert IsSecure(server) ==> url[..8] == "https://";
    assert !IsSecure(server) ==> url[..7] == "http://" && url[4] == ':';
    url
  }
}
