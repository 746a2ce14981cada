/** The URL handling of the link command: a URL without an `http://` or
    `https://` scheme gets `http://` in front. */
module LinkUrl {
  import opened Dom

  /** The test `/^https?:\/\//i`: the URL begins with `http://` or `https://`
      in any mix of letter cases. Without the `u` flag the case-insensitive
      match folds ASCII letters only, which is what `Lower` does. */
  predicate HasHttpScheme(url: string) {
    (|url| >= 7 && Lower(url[..7]) == "http://") ||
    (|url| >= 8 && Lower(url[..8]) == "https://")
  }

  /** The URL passed to `createLink`: a URL that already has an http(s)
      scheme is kept as it is, any other gets the prefix `http://`; either way
      the result has an http(s) scheme and ends with what the user typed. */
  function NormalizeUrl(url: string): (r: string)
    ensures HasHttpScheme(r)
    ensures HasHttpScheme(url) ==> r == url
    ensures !HasHttpScheme(url) ==> r == "http://" + url
    ensures |r| >= |url| && r[|r| - |url|..] == url
  {
    if HasHttpScheme(url) then url
    else
      var r := "http://" + url;
      assert r[..7] == "http://";
      assert Lower("http://") == "http://";
      r
  }

  /** Normalising twice is normalising once. */
  lemma NormalizeUrlIdempotent(url: string)
    ensures NormalizeUrl(NormalizeUrl(url)) == NormalizeUrl(url)
  {
  }

  /** A bare host name gains `http://`. */
  lemma BareHostGetsHttp()
    ensures NormalizeUrl("example.com") == "http://example.com"
  {
    var u := "example.com";
    assert Lower(u[..7])[0] == 'e' != "http://"[0];
    assert Lower(u[..8])[0] == 'e' != "https://"[0];
  }

  /** A URL with a scheme, in any letter case, is left alone. */
  lemma SchemeIsKept()
    ensures NormalizeUrl("https://example.com") == "https://example.com"
    ensures NormalizeUrl("HTTP://example.com") == "HTTP://example.com"
  {
    assert "https://example.com"[..8] == "https://";
    assert Lower("https://") == "https://";
    assert "HTTP://example.com"[..7] == "HTTP://";
    assert Lower("HTTP://") == "http://";
  }
}
