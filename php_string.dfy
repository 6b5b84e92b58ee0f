/**
 Models of the PHP string built-ins the negotiation plugin is written with:
 `trim($s, $c)` with a one-character list, `explode($sep, $s)` and
 `implode($sep, $parts)` with a one-character separator. Only the behaviour
 for a single-character separator and character list is modelled, since
 that is the only way the plugin calls them.
 */
module PhpString {

  /** How many copies of `c` open `s`. */
  function LeadingCount(s: string, c: char): (n: nat)
    ensures n <= |s|
    ensures forall i :: 0 <= i < n ==> s[i] == c
    ensures n < |s| ==> s[n] != c
  {
    if |s| > 0 && s[0] == c then 1 + LeadingCount(s[1..], c) else 0
  }

  /** How many copies of `c` close `s`. */
  function TrailingCount(s: string, c: char): (n: nat)
    ensures n <= |s|
    ensures forall i :: |s| - n <= i < |s| ==> s[i] == c
    ensures n < |s| ==> s[|s| - 1 - n] != c
  {
    if |s| > 0 && s[|s| - 1] == c then 1 + TrailingCount(s[..|s| - 1], c) else 0
  }

  /** `r` is `s[k..k + |r|]`, and every character of `s` outside that window is `c`. */
  predicate StripsTo(s: string, c: char, k: nat, r: string)
  {
    k + |r| <= |s| && s[k..k + |r|] == r &&
    (forall i :: 0 <= i < k ==> s[i] == c) &&
    (forall i :: k + |r| <= i < |s| ==> s[i] == c)
  }

  /** PHP `trim($s, $c)`: drop every leading and trailing `c`. */
  function Trim(s: string, c: char): (r: string)
    ensures |r| <= |s|
    ensures |r| > 0 ==> r[0] != c && r[|r| - 1] != c
  {
    var lead := LeadingCount(s, c);
    var rest := s[lead..];
    var trail := TrailingCount(rest, c);
    var r := rest[..|rest| - trail];
    assert |r| > 0 ==> r[0] != c && r[|r| - 1] != c by {
      if |r| > 0 {
        assert r[0] == s[lead];
        assert r[|r| - 1] == rest[|rest| - 1 - trail];
      }
    }
    r
  }

  /**
   What `trim` keeps is a window of the input with only `c` outside it, and
   it keeps nothing exactly when the input is all `c`.
   */
  lemma TrimWindow(s: string, c: char)
    ensures exists k: nat :: StripsTo(s, c, k, Trim(s, c))
    ensures |Trim(s, c)| == 0 <==> forall i :: 0 <= i < |s| ==> s[i] == c
  {
    var lead := LeadingCount(s, c);
    var rest := s[lead..];
    var r := rest[..|rest| - TrailingCount(rest, c)];
    assert Trim(s, c) == r;
    assert s[lead..lead + |r|] == r;
    assert forall i :: lead + |r| <= i < |s| ==> s[i] == rest[i - lead];
    assert StripsTo(s, c, lead, r);
  }

  /** A string that neither starts nor ends with `c` is left as it is. */
  lemma TrimUntouched(s: string, c: char)
    requires |s| > 0 && s[0] != c && s[|s| - 1] != c
    ensures Trim(s, c) == s
  {
    assert LeadingCount(s, c) == 0;
    assert s[0..] == s;
    assert TrailingCount(s, c) == 0;
  }

  /** Position of the first `sep` in `s`, or `|s|` when there is none. */
  function IndexOf(sep: char, s: string): (k: nat)
    ensures k <= |s|
    ensures sep !in s[..k]
    ensures k < |s| ==> s[k] == sep
  {
    if |s| == 0 || s[0] == sep then 0
    else
      assert s[..1 + IndexOf(sep, s[1..])] == [s[0]] + s[1..][..IndexOf(sep, s[1..])];
      1 + IndexOf(sep, s[1..])
  }

  /**
   PHP `explode($sep, $s)`: the pieces of `s` between occurrences of `sep`.
   The empty string gives `[""]` and empty pieces are kept.
   */
  function Explode(sep: char, s: string): (r: seq<string>)
    ensures |r| >= 1
    decreases |s|
  {
    var k := IndexOf(sep, s);
    if k == |s| then [s] else [s[..k]] + Explode(sep, s[k + 1..])
  }

  /**
   Where the separator occurs, the string is its first piece, the first
   separator, and a rest that is exploded on its own.
   */
  lemma ExplodeAt(sep: char, s: string)
    requires sep in s
    ensures IndexOf(sep, s) < |s|
    ensures s == s[..IndexOf(sep, s)] + [sep] + s[IndexOf(sep, s) + 1..]
    ensures Explode(sep, s) == [s[..IndexOf(sep, s)]] + Explode(sep, s[IndexOf(sep, s) + 1..])
  {
    var k := IndexOf(sep, s);
    assert s == s[..k] + [sep] + s[k + 1..];
  }

  /** Proof step: the head and the tail of `[x] + tail`. */
  lemma ConsParts<T>(x: T, tail: seq<T>)
    ensures ([x] + tail)[0] == x && ([x] + tail)[1..] == tail
  {
  }

  /** No piece contains the separator. */
  lemma {:induction false} ExplodePiecesSepFree(sep: char, s: string)
    ensures forall k :: 0 <= k < |Explode(sep, s)| ==> sep !in Explode(sep, s)[k]
    decreases |s|
  {
    if sep in s {
      ExplodeAt(sep, s);
      ExplodePiecesSepFree(sep, s[IndexOf(sep, s) + 1..]);
    } else {
      assert s[..IndexOf(sep, s)] == s;
    }
  }

  /** There is always one piece more than there are separators. */
  lemma {:induction false} ExplodeCount(sep: char, s: string)
    ensures |Explode(sep, s)| == multiset(s)[sep] + 1
    decreases |s|
  {
    if sep in s {
      var k := IndexOf(sep, s);
      ExplodeAt(sep, s);
      ExplodeCount(sep, s[k + 1..]);
      assert multiset(s) == multiset(s[..k]) + multiset{sep} + multiset(s[k + 1..]);
    } else {
      assert s[..IndexOf(sep, s)] == s;
    }
  }

  /**
   PHP `implode($sep, $parts)`: the parts joined with `sep` between
   neighbours. The first part opens the result.
   */
  function Implode(sep: char, parts: seq<string>): (r: string)
    ensures |parts| > 0 ==> parts[0] <= r
  {
    if |parts| == 0 then ""
    else if |parts| == 1 then parts[0]
    else parts[0] + [sep] + Implode(sep, parts[1..])
  }

  /** Proof step: joining a list is its head, then (when there is a tail) the separator and the joined tail. */
  lemma ImplodeCons(sep: char, x: string, tail: seq<string>)
    ensures Implode(sep, [x] + tail) == x + (if tail == [] then "" else [sep] + Implode(sep, tail))
  {
    ConsParts(x, tail);
  }

  /** Joining the pieces of `s` gives back `s`. */
  lemma {:induction false} ImplodeExplode(sep: char, s: string)
    ensures Implode(sep, Explode(sep, s)) == s
    decreases |s|
  {
    if sep in s {
      var k := IndexOf(sep, s);
      var rest := s[k + 1..];
      ExplodeAt(sep, s);
      ImplodeExplode(sep, rest);
      ImplodeCons(sep, s[..k], Explode(sep, rest));
    } else {
      assert s[..IndexOf(sep, s)] == s;
    }
  }

  /** A string with no separator in it is a single piece. */
  lemma ExplodeNoSep(sep: char, x: string)
    requires sep !in x
    ensures Explode(sep, x) == [x]
  {
    assert x[..IndexOf(sep, x)] == x;
  }

  /** The first occurrence of the separator ends the first piece; what follows it is split on its own. */
  lemma ExplodeConcat(sep: char, x: string, y: string)
    requires sep !in x
    ensures Explode(sep, x + [sep] + y) == [x] + Explode(sep, y)
  {
    var s := x + [sep] + y;
    assert s[..|x|] == x;
    assert sep in s by {
      assert s[|x|] == sep;
    }
    ExplodeAt(sep, s);
    var k := IndexOf(sep, s);
    assert k == |x|;
    assert s[|x| + 1..] == y;
  }

  /** Joining all pieces but the first gives what follows the first separator. */
  lemma ImplodeLaterPieces(sep: char, s: string)
    requires sep in s
    ensures Implode(sep, Explode(sep, s)[1..]) == s[IndexOf(sep, s) + 1..]
  {
    var rest := s[IndexOf(sep, s) + 1..];
    ExplodeAt(sep, s);
    ConsParts(s[..IndexOf(sep, s)], Explode(sep, rest));
    ImplodeExplode(sep, rest);
  }

  /** Proof step: regrouping a string cut around one separator character. */
  lemma Regroup(s: string, head: string, sep: char, rest: string)
    requires s == head + [sep] + rest && |rest| > 0
    ensures s == head + ([sep] + rest) && [sep] + rest != [sep]
  {
    assert |[sep] + rest| > 1;
  }

  /**
   A string that holds the separator and does not end in it is its first
   piece followed by the separator and the joined remaining pieces, and
   that remainder is more than the separator alone.
   */
  lemma DropFirstOfSeveral(sep: char, s: string)
    requires sep in s && s[|s| - 1] != sep
    ensures var parts := Explode(sep, s);
      s == parts[0] + ([sep] + Implode(sep, parts[1..])) && [sep] + Implode(sep, parts[1..]) != [sep]
  {
    var k := IndexOf(sep, s);
    var rest := s[k + 1..];
    assert Explode(sep, s)[0] == s[..k] && s == s[..k] + [sep] + rest by {
      ExplodeAt(sep, s);
    }
    assert Implode(sep, Explode(sep, s)[1..]) == rest by {
      ImplodeLaterPieces(sep, s);
    }
    Regroup(s, s[..k], sep, rest);
  }

  /**
   Dropping the first piece of a string that does not end in the separator:
   the separator followed by the joined remaining pieces is the separator
   alone when there was one piece, and otherwise exactly what follows the
   first piece, which is then longer than the separator.
   */
  lemma DropFirstPiece(sep: char, s: string)
    requires s == [] || s[|s| - 1] != sep
    ensures var parts := Explode(sep, s);
      var r := [sep] + Implode(sep, parts[1..]);
      (sep !in s ==> r == [sep]) && (sep in s ==> s == parts[0] + r && r != [sep])
  {
    if sep in s {
      DropFirstOfSeveral(sep, s);
    } else {
      ExplodeNoSep(sep, s);
      ConsParts(s, []);
    }
  }

  /**
   Splitting the joined list gives back the list, when the list is not empty
   and no part contains the separator.
   */
  lemma {:induction false} ExplodeImplode(sep: char, parts: seq<string>)
    requires |parts| >= 1
    requires forall k :: 0 <= k < |parts| ==> sep !in parts[k]
    ensures Explode(sep, Implode(sep, parts)) == parts
  {
    if |parts| == 1 {
      ExplodeNoSep(sep, parts[0]);
    } else {
      ExplodeImplode(sep, parts[1..]);
      ExplodeConcat(sep, parts[0], Implode(sep, parts[1..]));
      assert [parts[0]] + parts[1..] == parts;
    }
  }
}
