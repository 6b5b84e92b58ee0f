# Country language negotiation, modelled in Dafny

This project models the `LanguageNegotiationCountry` plugin of the Drupal module
`country_lang_negotiation`. The plugin reads a URL path whose first segment has
the form `cc-ll`: a country code, a hyphen, and a language code. It does two
things with it.

- `getLangcode` negotiates the language. It trims `/` from the request path,
  URL-decodes it and splits it on `/`. It then splits the first segment on `-`.
  If there are exactly two pieces, the first is the country code and the second
  the language code. It scans the registered languages for that id and asks
  taxonomy storage for terms with that country code. When both lookups hit, it
  returns the language id. When either misses, it throws `NotFoundHttpException`.
  In every other case it returns `NULL`.
- `processInbound` rewrites the inbound path. When the first segment of the
  `/`-trimmed path splits on `-` into exactly two pieces, the segment is dropped
  and the result is `/` followed by the remaining segments. Any other path is
  returned unchanged.

Files:

- `php_string.dfy` (module `PhpString`) models the PHP built-ins the plugin uses:
  `trim($s, '/')`, `explode` and `implode` with a one-character separator. It
  proves their round trips.
- `language_negotiation_country.dfy` (module `LanguageNegotiationCountry`) holds
  the two operations and their properties.
  - `ProcessInbound` is a function, because the PHP method is a single
    expression pipeline.
  - `GetLangcode` is a method. Its `while` loop is the `foreach` over the
    languages, which keeps the last match. It is proved equal to the decision
    function `Resolve`.
- `scenarios.dfy` (module `NegotiationScenarios`) states what both operations
  give on paths of the usual shapes (`cc-ll/rest`, `segment/rest`) and on a few
  concrete paths. The concrete examples fix the pieces of a path through
  `requires` clauses rather than writing it as one literal, because unfolding
  `trim` and `explode` over a whole literal is far costlier for the verifier.

The host services are inputs:

- The request is `Option<string>`, holding its path info.
- The language manager is `Option<seq<string>>`, holding the registered
  language ids in registry order.
- Taxonomy storage is the `set<string>` of country codes that some term carries.
  `loadByProperties` returns a non-empty result exactly when the code is in that
  set.
- `urldecode` is a function parameter `urlDecode`.

The model follows the code on these points, even where a reading of the
plugin's purpose would suggest otherwise:

- A prefix counts as two-part when `explode('-', …)` gives exactly two pieces.
  The pieces may be empty. So `-/x` and `en-/x` are rewritten to `/x`, and the
  resolver treats them as a country/language pair: they end in not-found, not
  `NULL`, unless the empty string is a registered language id and the country
  piece (`""` for `-/x`, `en` for `en-/x`) is a known country code, in which
  case they resolve to the empty id.
- The empty path `""` trims to `""`, and `explode` gives `[""]`. That is one
  piece, so `processInbound` returns `""` and not `/`.
- The first piece is the country and the second the language. `us-en/products`
  asks for language `en` in country `us`, while `en-us/…` asks for language `us`.
  So `en-us/products`, with `en` registered and a term for `us`, is not found.
- The scan keeps the last registered language whose id equals the code, not the
  first. The comparison is strict, so the resulting id is the same either way.
- `urldecode` is applied only in `getLangcode`, after trimming. `processInbound`
  does not decode.

## Model

| member | source | states |
|---|---|---|
| PhpString.Trim | src/Plugin/LanguageNegotiation/LanguageNegotiationCountry.php:109 | `trim($path, '/')` never lengthens the path, and what it keeps neither starts nor ends with `/` |
| PhpString.TrimWindow | src/Plugin/LanguageNegotiation/LanguageNegotiationCountry.php:109 | what the trim keeps is a window of the input with only `/` outside it, and it is empty exactly when the input is all `/` |
| PhpString.TrimUntouched | src/Plugin/LanguageNegotiation/LanguageNegotiationCountry.php:109 | a path that neither starts nor ends with `/` is left as it is by the trim |
| PhpString.Explode | src/Plugin/LanguageNegotiation/LanguageNegotiationCountry.php:109-110 | `explode` always gives at least one piece, so `array_shift` always yields a prefix (for `""` it is `""`) |
| PhpString.ExplodePiecesSepFree | src/Plugin/LanguageNegotiation/LanguageNegotiationCountry.php:109 | no piece of `explode` contains the separator |
| PhpString.ExplodeCount | src/Plugin/LanguageNegotiation/LanguageNegotiationCountry.php:111-112 | `explode` gives one piece more than there are separators, empty pieces included |
| PhpString.ImplodeExplode | src/Plugin/LanguageNegotiation/LanguageNegotiationCountry.php:109-113 | `implode` of `explode` of a string gives back the string |
| PhpString.ExplodeImplode | src/Plugin/LanguageNegotiation/LanguageNegotiationCountry.php:109-113 | `explode` of `implode` gives back a non-empty list whose parts are separator-free |
| PhpString.ExplodeNoSep | src/Plugin/LanguageNegotiation/LanguageNegotiationCountry.php:111 | a string without the separator explodes to itself alone |
| PhpString.ExplodeConcat | src/Plugin/LanguageNegotiation/LanguageNegotiationCountry.php:109-110 | the first separator ends the first piece, and the rest is exploded on its own |
| PhpString.Implode | src/Plugin/LanguageNegotiation/LanguageNegotiationCountry.php:113 | `implode('/', $path_args)`: the parts joined with the separator between neighbours, and the first part opens the result; `ImplodeExplode` and `ExplodeImplode` show it undoes `explode` |
| PhpString.ExplodeAt | src/Plugin/LanguageNegotiation/LanguageNegotiationCountry.php:109-110 | where the separator occurs, the first piece ends at its first occurrence and the rest is exploded on its own |
| PhpString.ImplodeLaterPieces | src/Plugin/LanguageNegotiation/LanguageNegotiationCountry.php:109-113 | joining every piece but the first gives exactly what follows the first separator |
| PhpString.DropFirstOfSeveral | src/Plugin/LanguageNegotiation/LanguageNegotiationCountry.php:109-113 | a string that holds the separator and does not end in it is its first piece, the separator, and the non-empty join of the other pieces |
| PhpString.DropFirstPiece | src/Plugin/LanguageNegotiation/LanguageNegotiationCountry.php:109-113 | for a string not ending in the separator, `/` plus the join of the pieces after the first is `/` alone when there is one piece, and otherwise exactly what follows the first piece |
| LanguageNegotiationCountry.FirstSegment | src/Plugin/LanguageNegotiation/LanguageNegotiationCountry.php:75-76 | the segment `array_shift` takes is the longest slash-free prefix of its input: a prefix, holding no `/`, and followed by `/` when it is not the whole input |
| LanguageNegotiationCountry.PathPrefix | src/Plugin/LanguageNegotiation/LanguageNegotiationCountry.php:109-110 | the prefix `processInbound` checks is the longest slash-free prefix of the `/`-trimmed path |
| LanguageNegotiationCountry.RequestPrefix | src/Plugin/LanguageNegotiation/LanguageNegotiationCountry.php:74-76 | the prefix `getLangcode` checks is the longest slash-free prefix of the decoded, `/`-trimmed path |
| LanguageNegotiationCountry.ProcessInbound | src/Plugin/LanguageNegotiation/LanguageNegotiationCountry.php:108-117 | a path whose prefix is not two `-` pieces comes back unchanged; a rewritten path starts with `/` |
| LanguageNegotiationCountry.TwoPartIffOneHyphen | src/Plugin/LanguageNegotiation/LanguageNegotiationCountry.php:111-112 | the rewrite condition is exactly "the prefix holds one `-`": only the arity is checked, and no code is validated |
| LanguageNegotiationCountry.RewriteDropsPrefix | src/Plugin/LanguageNegotiation/LanguageNegotiationCountry.php:109-113 | a rewritten path is exactly `/` when the prefix was the only segment. Otherwise the trimmed path is the prefix followed by the result, and the result is not `/` |
| LanguageNegotiationCountry.RewriteShape | src/Plugin/LanguageNegotiation/LanguageNegotiationCountry.php:109-113 | a rewritten path starts with `/`, is never longer than the input, and differs from it |
| LanguageNegotiationCountry.RewriteChangesIff | src/Plugin/LanguageNegotiation/LanguageNegotiationCountry.php:109-116 | `processInbound` changes the path if and only if its prefix splits into two `-` pieces |
| LanguageNegotiationCountry.RewriteTwice | src/Plugin/LanguageNegotiation/LanguageNegotiationCountry.php:108-117 | a path that is not rewritten stays so under a second rewrite; a rewritten path is left alone by a second rewrite if and only if the segment after the prefix in the trimmed input is not two `-` pieces |
| LanguageNegotiationCountry.RewriteEmptyPath | src/Plugin/LanguageNegotiation/LanguageNegotiationCountry.php:109-116 | the empty path is returned as `""`, not `/` |
| LanguageNegotiationCountry.LastMatch | src/Plugin/LanguageNegotiation/LanguageNegotiationCountry.php:82-87 | the scan finds a language if and only if some registered id strictly equals the code. The one it keeps has that id and is the last such |
| LanguageNegotiationCountry.Resolve | src/Plugin/LanguageNegotiation/LanguageNegotiationCountry.php:70-102 | the decision `getLangcode` takes: anything but `NULL` needs a request, a language manager and a two-part prefix, and a returned id is always a registered one |
| LanguageNegotiationCountry.GetLangcode | src/Plugin/LanguageNegotiation/LanguageNegotiationCountry.php:69-103 | the method (its loop is the `foreach` keeping the last match) computes exactly the decision `Resolve` |
| LanguageNegotiationCountry.ResolveNullIff | src/Plugin/LanguageNegotiation/LanguageNegotiationCountry.php:70-78 | the result is `NULL` (and nothing is thrown) if and only if the request or the language manager is absent, or the decoded prefix is not two `-` pieces |
| LanguageNegotiationCountry.ResolveTwoPart | src/Plugin/LanguageNegotiation/LanguageNegotiationCountry.php:79-98 | for a two-part prefix `cc-ll`: the result is language `ll` if and only if `ll` is registered and a term carries `cc`. It is not-found if and only if either lookup misses |
| LanguageNegotiationCountry.ResolveMembership | src/Plugin/LanguageNegotiation/LanguageNegotiationCountry.php:83-94 | a returned id is registered, equals the second `-` piece of the prefix, and its country piece is a known code |
| LanguageNegotiationCountry.ResolveEmptyLanguagePiece | src/Plugin/LanguageNegotiation/LanguageNegotiationCountry.php:79-98 | a two-part prefix with an empty language piece (`cc-`) is not found, not `NULL`, when no registered id is empty |
| LanguageNegotiationCountry.PrefixIgnoresLaterSegments | src/Plugin/LanguageNegotiation/LanguageNegotiationCountry.php:75-76 | appending `/` and anything to a slash-free first segment does not change the prefix, so later segments are never inspected |
| LanguageNegotiationCountry.ResolveAgreesWithRewrite | src/Plugin/LanguageNegotiation/LanguageNegotiationCountry.php:109-112 | on a path that decoding leaves alone, the resolver negotiates (a language or not-found) if and only if the rewriter changes the path |
| NegotiationScenarios.SegmentedPath | src/Plugin/LanguageNegotiation/LanguageNegotiationCountry.php:109-110 | for `x/y` with no slash at either end, the trim is a no-op and the prefix is `x` |
| NegotiationScenarios.HyphenPair | src/Plugin/LanguageNegotiation/LanguageNegotiationCountry.php:77-80 | `a-b` with hyphen-free pieces splits into exactly country `a` and language `b` |
| NegotiationScenarios.RewriteSegmentedPath | src/Plugin/LanguageNegotiation/LanguageNegotiationCountry.php:109-113 | `x/y` with a two-part prefix `x` is rewritten to `/y` |
| NegotiationScenarios.PlainSegmentPath | src/Plugin/LanguageNegotiation/LanguageNegotiationCountry.php:77-78 | `x/y` with a hyphen-free prefix (`products/en-us`, `en/products`) negotiates nothing and is routed unchanged |
| NegotiationScenarios.CountryLanguagePath | src/Plugin/LanguageNegotiation/LanguageNegotiationCountry.php:79-98 | a request for `cc-ll/rest` resolves to `ll` when `ll` is registered and `cc` is known, and is not-found otherwise. The rewriter turns it into `/rest` either way, so it strips a prefix the resolver rejects |
| NegotiationScenarios.RewriteExample | src/Plugin/LanguageNegotiation/LanguageNegotiationCountry.php:109-113 | `en-us/a/b` is rewritten to `/a/b` |
| NegotiationScenarios.RewriteStableExample | src/Plugin/LanguageNegotiation/LanguageNegotiationCountry.php:109-116 | `/a/b`, which is what `en-us/a/b` rewrites to, is left unchanged by a second rewrite |
| NegotiationScenarios.ResolveExample | src/Plugin/LanguageNegotiation/LanguageNegotiationCountry.php:79-94 | `us-en/products` with `en` registered and a term for `us` resolves to `en` and is routed as `/products` |
| NegotiationScenarios.ResolveNotFoundExample | src/Plugin/LanguageNegotiation/LanguageNegotiationCountry.php:93-98 | `us-zz/products` with `zz` unregistered is not-found, while the rewriter still routes it as `/products` |
| NegotiationScenarios.CountryFirstExample | src/Plugin/LanguageNegotiation/LanguageNegotiationCountry.php:79-98 | `en-us/products` with only `en` registered and a term for `us` is not found, since it asks for language `us`, and is still routed as `/products` |
| NegotiationScenarios.NoMatchExample | src/Plugin/LanguageNegotiation/LanguageNegotiationCountry.php:77-78 | `products/en-us` negotiates nothing and is routed unchanged |
| NegotiationScenarios.RewriteEmptyPieces | src/Plugin/LanguageNegotiation/LanguageNegotiationCountry.php:111-113 | `-/x` is rewritten to `/x`: empty pieces count |
| NegotiationScenarios.ResolveEmptyPieces | src/Plugin/LanguageNegotiation/LanguageNegotiationCountry.php:79-94 | `-/x` is not found with `en` registered and `us` known, but resolves to the empty id when `""` is both a registered id and a country code |
| NegotiationScenarios.RewriteEmptyLanguage | src/Plugin/LanguageNegotiation/LanguageNegotiationCountry.php:111-113 | `en-/x` is rewritten to `/x`: the language piece is not checked |

## Left out

- The constructor and the `create` factory (lines 50-64) are dependency-injection plumbing with no logic. The entity type manager they store appears only as the set of country codes.
- `urldecode` (line 74) is a function parameter. The model does not define percent or `+` decoding. Properties that relate the resolver to the rewriter assume that decoding leaves the trimmed path unchanged.
- `languageManager->getLanguages()` (line 73) and `loadByProperties` on taxonomy storage (lines 89-91) are abstracted. They become a sequence of language ids and a set of country codes. The model does not capture which term matched, or how many.
- The `Request` object and `getPathInfo`, the `@LanguageNegotiation` annotation, the `METHOD_ID` constant, and the turning of `NotFoundHttpException` into an HTTP 404 belong to the host runtime. The exception is the `NotFound` outcome.
- PHP's loose typing is not modelled. Paths are strings, and request and language-manager truthiness is presence.
- `trim` and `explode` are modelled only for the one-character `/` and `-` the plugin passes. `explode` with an empty separator, and `trim` with a multi-character list, are not part of this model.
