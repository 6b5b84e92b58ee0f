/**
 What both operations give on paths of the everyday shapes `cc-ll/rest`
 and `segment/rest`, and on concrete request paths the plugin is meant for.

 The concrete examples take the pieces of their path as parameters fixed by
 `requires` (`country == "en"` and so on) instead of writing the whole path
 as one literal: on a literal the verifier unfolds `trim` and `explode`
 character by character, which costs far more than instantiating the
 general lemmas of this module with the pieces.
 */
module NegotiationScenarios {
  import opened PhpString
  import opened LanguageNegotiationCountry

  /** A path `x/y` with a slash-free first segment `x`, and no slash at either end, has `x` as its prefix. */
  lemma SegmentedPath(x: string, y: string)
    requires '/' !in x && |x| > 0
    requires |y| > 0 && y[|y| - 1] != '/'
    ensures Trim(x + "/" + y, '/') == x + "/" + y
    ensures PathPrefix(x + "/" + y) == x
    ensures Explode('/', x + "/" + y) == [x] + Explode('/', y)
  {
    var p := x + "/" + y;
    assert x[0] in x;
    assert p[0] == x[0] && p[|p| - 1] == y[|y| - 1];
    TrimUntouched(p, '/');
    assert p == x + ['/'] + y;
    ExplodeConcat('/', x, y);
  }

  /** `a-b` with hyphen-free `a` and `b` splits into exactly `[a, b]`. */
  lemma HyphenPair(a: string, b: string)
    requires '-' !in a && '-' !in b
    ensures Explode('-', a + "-" + b) == [a, b]
  {
    assert a + "-" + b == a + ['-'] + b;
    ExplodeConcat('-', a, b);
    ExplodeNoSep('-', b);
  }

  /** Rewriting `x/y` with a two-piece prefix `x` gives `/y`. */
  lemma RewriteSegmentedPath(x: string, y: string)
    requires '/' !in x && |x| > 0
    requires |y| > 0 && y[|y| - 1] != '/'
    requires IsTwoPart(x)
    ensures ProcessInbound(x + "/" + y) == "/" + y
  {
    SegmentedPath(x, y);
    ImplodeExplode('/', y);
    assert ([x] + Explode('/', y))[1..] == Explode('/', y);
  }

  /**
   A path `x/y` whose first segment has no hyphen (`products/en-us`,
   `en/products`) negotiates nothing and is routed as it is, whatever
   follows.
   */
  lemma PlainSegmentPath(x: string, y: string, languages: seq<string>,
                         countryCodes: set<string>, urlDecode: string -> string)
    requires '/' !in x && '-' !in x && |x| > 0
    requires |y| > 0 && y[|y| - 1] != '/'
    requires urlDecode(x + "/" + y) == x + "/" + y
    ensures Resolve(Some(x + "/" + y), Some(languages), countryCodes, urlDecode) == NoMatch
    ensures ProcessInbound(x + "/" + y) == x + "/" + y
  {
    SegmentedPath(x, y);
    ExplodeNoSep('-', x);
  }

  /**
   A request for `cc-ll/rest` (hyphen- and slash-free codes, a path that
   decoding leaves alone) resolves to `ll` when `ll` is registered and some
   term carries `cc`, and is not found otherwise; the rewriter turns it into
   `/rest` either way.
   */
  lemma CountryLanguagePath(country: string, language: string, rest: string,
                            languages: seq<string>, countryCodes: set<string>,
                            urlDecode: string -> string)
    requires '-' !in country && '-' !in language && '/' !in country && '/' !in language
    requires |rest| > 0 && rest[|rest| - 1] != '/'
    requires urlDecode(country + "-" + language + "/" + rest) == country + "-" + language + "/" + rest
    ensures Resolve(Some(country + "-" + language + "/" + rest), Some(languages), countryCodes, urlDecode) ==
      if language in languages && country in countryCodes then Lang(language) else NotFound
    ensures ProcessInbound(country + "-" + language + "/" + rest) == "/" + rest
  {
    var prefix := country + "-" + language;
    var path := prefix + "/" + rest;
    assert '/' !in prefix;
    assert RequestPrefix(path, urlDecode) == prefix by {
      SegmentedPath(prefix, rest);
    }
    assert Explode('-', prefix) == [country, language] by {
      HyphenPair(country, language);
    }
    assert ProcessInbound(path) == "/" + rest by {
      RewriteSegmentedPath(prefix, rest);
    }
  }

  /** A second rewrite leaves `/a/b` as it is, since `a` has no hyphen. */
  lemma RewriteStableExample()
    ensures ProcessInbound("/a/b") == "/a/b"
  {
  }

  // The rewrite examples below (`RewriteEmptyPieces`, `RewriteEmptyLanguage`,
  // `RewriteExample`) are each the rewrite half of `CountryLanguagePath` at
  // fixed pieces; they are kept to document those particular paths.

  /** Empty pieces count: `-/x` loses its prefix. */
  lemma RewriteEmptyPieces(country: string, language: string, rest: string)
    requires country == "" && language == "" && rest == "x"
    ensures ProcessInbound(country + "-" + language + "/" + rest) == "/" + rest
  {
    CountryLanguagePath(country, language, rest, [], {}, s => s);
  }

  /**
   The resolver treats `-/x` as a country/language pair too: it is not found
   unless the empty string is both a registered language id and a country
   code, in which case it resolves to the empty language id.
   */
  lemma ResolveEmptyPieces(country: string, language: string, rest: string)
    requires country == "" && language == "" && rest == "x"
    ensures Resolve(Some(country + "-" + language + "/" + rest), Some(["en"]), {"us"}, s => s) == NotFound
    ensures Resolve(Some(country + "-" + language + "/" + rest), Some([""]), {""}, s => s) == Lang("")
  {
    CountryLanguagePath(country, language, rest, ["en"], {"us"}, s => s);
    CountryLanguagePath(country, language, rest, [""], {""}, s => s);
  }

  /** Nor is the language piece checked for being empty: `en-/x` loses its prefix too. */
  lemma RewriteEmptyLanguage(country: string, language: string, rest: string)
    requires country == "en" && language == "" && rest == "x"
    ensures ProcessInbound(country + "-" + language + "/" + rest) == "/" + rest
  {
    CountryLanguagePath(country, language, rest, [], {}, s => s);
  }

  /** `en-us/a/b` is rewritten to `/a/b`, whatever the registries hold. */
  lemma RewriteExample(country: string, language: string, rest: string)
    requires country == "en" && language == "us" && rest == "a/b"
    ensures ProcessInbound(country + "-" + language + "/" + rest) == "/" + rest
  {
    CountryLanguagePath(country, language, rest, [], {}, s => s);
  }

  /**
   `us-en/products` (country `us`, language `en`) with `fr` and `en`
   registered and a term for `us` resolves to `en` and is routed as `/products`.
   */
  lemma ResolveExample(country: string, language: string, rest: string)
    requires country == "us" && language == "en" && rest == "products"
    ensures Resolve(Some(country + "-" + language + "/" + rest), Some(["fr", "en"]), {"us"}, s => s) == Lang(language)
    ensures ProcessInbound(country + "-" + language + "/" + rest) == "/" + rest
  {
    CountryLanguagePath(country, language, rest, ["fr", "en"], {"us"}, s => s);
  }

  /** `us-zz/products` is not found when `zz` is not registered, yet the rewriter still routes it as `/products`. */
  lemma ResolveNotFoundExample(country: string, language: string, rest: string)
    requires country == "us" && language == "zz" && rest == "products"
    ensures Resolve(Some(country + "-" + language + "/" + rest), Some(["fr", "en"]), {"us"}, s => s) == NotFound
    ensures ProcessInbound(country + "-" + language + "/" + rest) == "/" + rest
  {
    CountryLanguagePath(country, language, rest, ["fr", "en"], {"us"}, s => s);
    assert language != "fr" && language != "en" by {
      assert language[0] != "fr"[0] && language[0] != "en"[0];
    }
  }

  /**
   The first piece is the country: `en-us/products` asks for language `us`
   in country `en`, so with only `en` registered and a term for `us` it is
   not found, while the rewriter still routes it as `/products`.
   */
  lemma CountryFirstExample(country: string, language: string, rest: string)
    requires country == "en" && language == "us" && rest == "products"
    ensures Resolve(Some(country + "-" + language + "/" + rest), Some(["en"]), {"us"}, s => s) == NotFound
    ensures ProcessInbound(country + "-" + language + "/" + rest) == "/" + rest
  {
    CountryLanguagePath(country, language, rest, ["en"], {"us"}, s => s);
    assert language != "en" by {
      assert language[0] != "en"[0];
    }
  }

  /** `products/en-us` negotiates nothing and is routed unchanged: the hyphen is in a later segment. */
  lemma NoMatchExample(first: string, rest: string)
    requires first == "products" && rest == "en-us"
    ensures Resolve(Some(first + "/" + rest), Some(["en"]), {"us"}, s => s) == NoMatch
    ensures ProcessInbound(first + "/" + rest) == first + "/" + rest
  {
    PlainSegmentPath(first, rest, ["en"], {"us"}, s => s);
  }
}
