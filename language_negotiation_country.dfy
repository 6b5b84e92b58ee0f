/**
 The country-and-language negotiation plugin: a URL path whose first segment
 reads `cc-ll` names a country `cc` and a language `ll`. `GetLangcode`
 resolves the language from that prefix (or fails with not-found), and
 `ProcessInbound` strips the prefix before routing.

 The host's services are inputs here: the request is present or absent and
 carries its path, the language manager is present or absent and lists the
 registered language ids in order, the taxonomy storage is the set of
 country codes some term carries, and `urlDecode` stands for PHP's
 `urldecode`.
 */
module LanguageNegotiationCountry {
  import opened PhpString

  datatype Option<T> = None | Some(value: T)

  /** What `getLangcode` ends in: it returns NULL, returns a language id, or throws NotFoundHttpException. */
  datatype Outcome = NoMatch | Lang(id: string) | NotFound

  /**
   `array_shift(explode('/', $s))`: the first `/`-segment of `s`, which is
   the longest slash-free prefix of `s`.
   */
  function FirstSegment(s: string): (r: string)
    ensures r <= s && '/' !in r
    ensures |r| < |s| ==> s[|r|] == '/'
  {
    ExplodePiecesSepFree('/', s);
    assert Explode('/', s)[0] == s[..IndexOf('/', s)];
    Explode('/', s)[0]
  }

  /** `count(explode('-', $prefix)) == 2`. */
  predicate IsTwoPart(prefix: string)
  {
    |Explode('-', prefix)| == 2
  }

  /** The prefix segment `processInbound` looks at: the first segment of the `/`-trimmed path. */
  function PathPrefix(path: string): (r: string)
    ensures r <= Trim(path, '/') && '/' !in r
    ensures |r| < |Trim(path, '/')| ==> Trim(path, '/')[|r|] == '/'
  {
    FirstSegment(Trim(path, '/'))
  }

  // ---------------------------------------------------------------------------
  // processInbound
  // ---------------------------------------------------------------------------

  /**
   `processInbound`: when the first segment of the trimmed path splits on `-`
   into exactly two pieces, the path becomes `/` followed by the remaining
   segments joined with `/`; any other path is returned unchanged.
   */
  function ProcessInbound(path: string): (r: string)
    ensures !IsTwoPart(PathPrefix(path)) ==> r == path
    ensures IsTwoPart(PathPrefix(path)) ==> |r| >= 1 && r[0] == '/'
  {
    var parts := Explode('/', Trim(path, '/'));
    var prefix := parts[0];
    var tail := parts[1..];
    if |Explode('-', prefix)| == 2 then "/" + Implode('/', tail) else path
  }

  /** Only the number of hyphens decides a rewrite: the prefix must hold exactly one `-`, empty pieces included. */
  lemma TwoPartIffOneHyphen(prefix: string)
    ensures IsTwoPart(prefix) <==> multiset(prefix)['-'] == 1
  {
    ExplodeCount('-', prefix);
  }

  /**
   A rewritten path is the trimmed path with its first segment cut off: it is
   exactly `/` when the prefix was the only segment, and otherwise the rest of
   the trimmed path, starting at the `/` after the prefix.
   */
  lemma RewriteDropsPrefix(path: string)
    requires IsTwoPart(PathPrefix(path))
    ensures var t := Trim(path, '/');
      ('/' !in t ==> ProcessInbound(path) == "/") &&
      ('/' in t ==> t == PathPrefix(path) + ProcessInbound(path) && ProcessInbound(path) != "/")
  {
    var t := Trim(path, '/');
    DropFirstPiece('/', t);
  }

  /** A rewritten path starts with `/`, is never longer than the input, and differs from it. */
  lemma RewriteShape(path: string)
    requires IsTwoPart(PathPrefix(path))
    ensures var r := ProcessInbound(path);
      |r| >= 1 && r[0] == '/' && |r| <= |path| && r != path
  {
    var t := Trim(path, '/');
    var prefix := PathPrefix(path);
    var r := ProcessInbound(path);
    RewriteDropsPrefix(path);
    TwoPartIffOneHyphen(prefix);
    assert '-' in multiset(prefix);
    assert |prefix| >= 1;
    TrimWindow(path, '/');
    var k: nat :| StripsTo(path, '/', k, t);
    if '/' in t {
      assert |r| < |t|;
    } else {
      assert t == prefix by {
        ExplodeNoSep('/', t);
      }
      assert t[0] != '/' && path[k] == t[0];
      assert path != "/";
    }
  }

  /** `processInbound` changes the path exactly when its prefix splits into two `-` pieces. */
  lemma RewriteChangesIff(path: string)
    ensures ProcessInbound(path) != path <==> IsTwoPart(PathPrefix(path))
  {
    if IsTwoPart(PathPrefix(path)) {
      RewriteShape(path);
    }
  }

  /**
   Rewriting twice: a path that is not rewritten stays as it is, and a
   rewritten path is left alone by a second rewrite exactly when the segment
   after the prefix in the trimmed input (skipping any run of `/`) is not
   itself two `-` pieces.
   */
  lemma RewriteTwice(path: string)
    ensures !IsTwoPart(PathPrefix(path)) ==> ProcessInbound(ProcessInbound(path)) == ProcessInbound(path)
    ensures IsTwoPart(PathPrefix(path)) ==>
      var t := Trim(path, '/');
      var next := PathPrefix(t[|PathPrefix(path)|..]);
      (ProcessInbound(ProcessInbound(path)) == ProcessInbound(path) <==> !IsTwoPart(next))
  {
    var r := ProcessInbound(path);
    RewriteChangesIff(r);
    if IsTwoPart(PathPrefix(path)) {
      var t := Trim(path, '/');
      var prefix := PathPrefix(path);
      RewriteDropsPrefix(path);
      if '/' in t {
        assert t[|prefix|..] == r;
      } else {
        assert t == prefix by {
          ExplodeNoSep('/', t);
        }
        assert t[|prefix|..] == "";
        assert Trim(r, '/') == "" by {
          TrimWindow(r, '/');
        }
      }
    }
  }

  /** The empty path has the empty prefix, which is one piece, so it comes back as `""` and not `/`. */
  lemma RewriteEmptyPath()
    ensures ProcessInbound("") == ""
  {
  }

  // ---------------------------------------------------------------------------
  // getLangcode
  // ---------------------------------------------------------------------------

  /**
   The index the `foreach` over the registered languages leaves behind: the
   last position whose id strictly equals `code`, or None when there is none.
   */
  function LastMatch(languages: seq<string>, code: string): (r: Option<nat>)
    ensures r.None? <==> code !in languages
    ensures r.Some? ==> r.value < |languages| && languages[r.value] == code
    ensures r.Some? ==> forall j :: r.value < j < |languages| ==> languages[j] != code
  {
    if |languages| == 0 then None
    else if languages[|languages| - 1] == code then Some(|languages| - 1)
    else
      assert languages == languages[..|languages| - 1] + [languages[|languages| - 1]];
      LastMatch(languages[..|languages| - 1], code)
  }

  /** The prefix `getLangcode` looks at: the first segment of the decoded, `/`-trimmed path. */
  function RequestPrefix(pathInfo: string, urlDecode: string -> string): (r: string)
    ensures r <= urlDecode(Trim(pathInfo, '/')) && '/' !in r
    ensures |r| < |urlDecode(Trim(pathInfo, '/'))| ==> urlDecode(Trim(pathInfo, '/'))[|r|] == '/'
  {
    FirstSegment(urlDecode(Trim(pathInfo, '/')))
  }

  /** The decision `getLangcode` takes, over the inputs its services would supply. */
  function Resolve(request: Option<string>, languageManager: Option<seq<string>>,
                   countryCodes: set<string>, urlDecode: string -> string): (r: Outcome)
    ensures r != NoMatch ==>
      request.Some? && languageManager.Some? && IsTwoPart(RequestPrefix(request.value, urlDecode))
    ensures r.Lang? ==> languageManager.Some? && r.id in languageManager.value
  {
    if request.None? || languageManager.None? then NoMatch
    else
      var items := Explode('-', RequestPrefix(request.value, urlDecode));
      if |items| != 2 then NoMatch
      else
        var negotiated := LastMatch(languageManager.value, items[1]);
        if items[0] in countryCodes && negotiated.Some? then Lang(languageManager.value[negotiated.value])
        else NotFound
  }

  /**
   `getLangcode`: split the decoded prefix into country and language code,
   scan the registered languages keeping the last one whose id matches, ask
   the storage for the country, and answer with the language id, not-found,
   or NULL.
   */
  method GetLangcode(request: Option<string>, languageManager: Option<seq<string>>,
                     countryCodes: set<string>, urlDecode: string -> string)
    returns (langcode: Outcome)
    ensures langcode == Resolve(request, languageManager, countryCodes, urlDecode)
  {
    langcode := NoMatch;
    if request.Some? && languageManager.Some? {
      var languages := languageManager.value;
      var requestPath := urlDecode(Trim(request.value, '/'));
      var pathArgs := Explode('/', requestPath);
      var prefix := Explode('-', pathArgs[0]);
      if |prefix| == 2 {
        var countryCodeRaw := prefix[0];
        var langCodeRaw := prefix[1];
        var negotiatedLanguage: Option<nat> := None;
        var i := 0;
        while i < |languages|
          invariant 0 <= i <= |languages|
          invariant negotiatedLanguage == LastMatch(languages[..i], langCodeRaw)
        {
          assert languages[..i + 1][..i] == languages[..i];
          if languages[i] == langCodeRaw {
            negotiatedLanguage := Some(i);
          }
          i := i + 1;
        }
        assert languages[..i] == languages;
        var negotiatedCountry := countryCodeRaw in countryCodes;
        if negotiatedCountry && negotiatedLanguage.Some? {
          langcode := Lang(languages[negotiatedLanguage.value]);
        } else {
          langcode := NotFound;
        }
      }
    }
  }

  /**
   NULL, never an exception, when the request or the language manager is
   absent or the prefix is not two `-` pieces; in every other case the
   outcome is a language or not-found.
   */
  lemma ResolveNullIff(request: Option<string>, languageManager: Option<seq<string>>,
                       countryCodes: set<string>, urlDecode: string -> string)
    ensures Resolve(request, languageManager, countryCodes, urlDecode) == NoMatch <==>
      request.None? || languageManager.None? || !IsTwoPart(RequestPrefix(request.value, urlDecode))
  {
  }

  /**
   With a two-piece prefix `cc-ll`, the outcome is the language `ll` exactly
   when some registered id equals `ll` and some term carries country code
   `cc`, and not-found exactly when either lookup misses.
   */
  lemma ResolveTwoPart(pathInfo: string, languages: seq<string>,
                       countryCodes: set<string>, urlDecode: string -> string)
    requires IsTwoPart(RequestPrefix(pathInfo, urlDecode))
    ensures var items := Explode('-', RequestPrefix(pathInfo, urlDecode));
      var r := Resolve(Some(pathInfo), Some(languages), countryCodes, urlDecode);
      (r == Lang(items[1]) <==> items[1] in languages && items[0] in countryCodes) &&
      (r == NotFound <==> items[1] !in languages || items[0] !in countryCodes)
  {
  }

  /** A resolved language id is the prefix's second `-` piece and is registered. */
  lemma ResolveMembership(request: Option<string>, languageManager: Option<seq<string>>,
                          countryCodes: set<string>, urlDecode: string -> string, id: string)
    requires Resolve(request, languageManager, countryCodes, urlDecode) == Lang(id)
    ensures request.Some? && languageManager.Some?
    ensures id in languageManager.value
    ensures var items := Explode('-', RequestPrefix(request.value, urlDecode));
      |items| == 2 && id == items[1] && items[0] in countryCodes
  {
  }

  /**
   An empty language piece negotiates nothing only through the scan: with a
   two-piece prefix `cc-` and no registered language whose id is the empty
   string, the request is not found, not NULL.
   */
  lemma ResolveEmptyLanguagePiece(pathInfo: string, languages: seq<string>,
                                  countryCodes: set<string>, urlDecode: string -> string)
    requires IsTwoPart(RequestPrefix(pathInfo, urlDecode))
    requires Explode('-', RequestPrefix(pathInfo, urlDecode))[1] == ""
    requires "" !in languages
    ensures Resolve(Some(pathInfo), Some(languages), countryCodes, urlDecode) == NotFound
  {
  }

  /** Segments after the first are never read: appending `/` and anything to a slash-free path keeps its prefix. */
  lemma PrefixIgnoresLaterSegments(first: string, rest: string)
    requires '/' !in first
    ensures FirstSegment(first + "/" + rest) == first
  {
    ExplodeConcat('/', first, rest);
  }

  /**
   On a path that decoding leaves as it is, the two operations split the same
   prefix: the resolver negotiates (a language or not-found) exactly when the
   rewriter changes the path. The rewriter does not look at the registries, so
   it strips a prefix the resolver rejects as not-found.
   */
  lemma ResolveAgreesWithRewrite(path: string, languages: seq<string>,
                                 countryCodes: set<string>, urlDecode: string -> string)
    requires urlDecode(Trim(path, '/')) == Trim(path, '/')
    ensures Resolve(Some(path), Some(languages), countryCodes, urlDecode) != NoMatch <==>
      ProcessInbound(path) != path
  {
    RewriteChangesIff(path);
  }
}
