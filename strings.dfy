/** The built-in Python string operations the text utilities are made of:
    `str.split()` with no separator, `sep.join(parts)`, ASCII case mapping,
    and the order-keeping filter that both a conditional list comprehension
    and a character-class deletion perform. */
module Strings {

  /** Python's `str.isspace()` set, which is also what `\s` matches in a
      `str` regular expression. */
  predicate IsSpace(c: char)
  {
    || ('\t' <= c <= '\r')             // tab, line feed, vertical tab, form feed, carriage return
    || ('\U{1C}' <= c <= '\U{1F}')     // file, group, record and unit separators
    || c == ' ' || c == '\U{85}' || c == '\U{A0}' || c == '\U{1680}'
    || ('\U{2000}' <= c <= '\U{200A}')
    || c == '\U{2028}' || c == '\U{2029}' || c == '\U{202F}' || c == '\U{205F}' || c == '\U{3000}'
  }

  predicate NoSpace(s: string)
  {
    forall i :: 0 <= i < |s| ==> !IsSpace(s[i])
  }

  /** A token of `str.split()`: non-empty and free of whitespace. */
  predicate IsWord(w: string)
  {
    |w| > 0 && NoSpace(w)
  }

  predicate AllSpace(s: string)
  {
    forall i :: 0 <= i < |s| ==> IsSpace(s[i])
  }

  /** The longest prefix of `s` that holds no whitespace. */
  function WordPrefix(s: string): (w: string)
    ensures |w| <= |s| && w == s[..|w|]
    ensures NoSpace(w)
    ensures |w| < |s| ==> IsSpace(s[|w|])
    ensures |s| > 0 && !IsSpace(s[0]) ==> |w| > 0
  {
    if s == [] || IsSpace(s[0]) then [] else [s[0]] + WordPrefix(s[1..])
  }

  /** `s.split()`: the maximal runs of non-whitespace characters, in order. */
  function Split(s: string): (r: seq<string>)
    ensures forall k :: 0 <= k < |r| ==> IsWord(r[k])
    ensures forall w | w in r :: IsWord(w)
    decreases |s|
  {
    if s == [] then []
    else if IsSpace(s[0]) then Split(s[1..])
    else
      var w := WordPrefix(s);
      [w] + Split(s[|w|..])
  }

  /** `sep.join(parts)`. */
  function Join(sep: string, parts: seq<string>): string
  {
    if |parts| == 0 then []
    else if |parts| == 1 then parts[0]
    else parts[0] + sep + Join(sep, parts[1..])
  }

  /** `s.split(sep)` for a one-character separator: the pieces between
      separators, empty ones included, so there is always at least one. */
  function SplitOn(s: string, sep: char): (r: seq<string>)
    ensures |r| >= 1
    ensures forall i :: 0 <= i < |r| ==> sep !in r[i]
  {
    if s == [] then [[]]
    else
      var rest := SplitOn(s[1..], sep);
      if s[0] == sep then [[]] + rest
      else [[s[0]] + rest[0]] + rest[1..]
  }

  lemma JoinPrependFirst(sep: string, x: string, parts: seq<string>)
    requires |parts| >= 1
    ensures Join(sep, [x + parts[0]] + parts[1..]) == x + Join(sep, parts)
  {
  }

  /** Joining the pieces with the separator gives back the string. */
  lemma {:induction false} JoinSplitOn(s: string, sep: char)
    ensures Join([sep], SplitOn(s, sep)) == s
  {
    if s != [] {
      JoinSplitOn(s[1..], sep);
      var rest := SplitOn(s[1..], sep);
      if s[0] == sep {
        assert ([[]] + rest)[1..] == rest;
        assert s == [sep] + s[1..];
      } else {
        JoinPrependFirst([sep], [s[0]], rest);
        assert s == [s[0]] + s[1..];
      }
    }
  }

  lemma {:induction false} SplitOnAfter(w: string, t: string, sep: char)
    requires sep !in w
    ensures SplitOn(w + t, sep) == [w + SplitOn(t, sep)[0]] + SplitOn(t, sep)[1..]
  {
    var r := SplitOn(t, sep);
    if w == [] {
      assert w + t == t;
      assert w + r[0] == r[0];
      assert [r[0]] + r[1..] == r;
    } else {
      assert (w + t)[1..] == w[1..] + t;
      assert (w + t)[0] == w[0];
      SplitOnAfter(w[1..], t, sep);
      assert [w[0]] + (w[1..] + r[0]) == w + r[0];
    }
  }

  /** Splitting separator-free pieces joined by the separator gives back the
      pieces. */
  lemma {:induction false} SplitOnJoin(parts: seq<string>, sep: char)
    requires |parts| >= 1
    requires forall i :: 0 <= i < |parts| ==> sep !in parts[i]
    ensures SplitOn(Join([sep], parts), sep) == parts
  {
    if |parts| == 1 {
      SplitOnAfter(parts[0], [], sep);
      assert parts[0] + [] == parts[0];
    } else {
      var t := Join([sep], parts[1..]);
      SplitOnJoin(parts[1..], sep);
      assert parts[0] + [sep] + t == parts[0] + ([sep] + t);
      var u := [sep] + t;
      assert u[0] == sep && u[1..] == t;
      assert SplitOn(u, sep) == [[]] + parts[1..];
      SplitOnAfter(parts[0], u, sep);
      assert parts[0] + [] == parts[0];
      assert parts == [parts[0]] + parts[1..];
    }
  }

  // ---------------------------------------------------------------------
  // ASCII case mapping

  predicate IsUpper(c: char) { 'A' <= c <= 'Z' }

  predicate IsLower(c: char) { 'a' <= c <= 'z' }

  function LowerChar(c: char): char
  {
    if IsUpper(c) then (c as int + 32) as char else c
  }

  function UpperChar(c: char): char
  {
    if IsLower(c) then (c as int - 32) as char else c
  }

  function ToLower(s: string): string
  {
    seq(|s|, i requires 0 <= i < |s| => LowerChar(s[i]))
  }

  predicate NoUpper(s: string)
  {
    forall i :: 0 <= i < |s| ==> !IsUpper(s[i])
  }

  lemma ToLowerNoUpper(s: string)
    ensures NoUpper(ToLower(s))
  {
  }

  /** Lower-casing leaves a string without upper-case letters unchanged. */
  lemma ToLowerIdentity(s: string)
    requires NoUpper(s)
    ensures ToLower(s) == s
  {
  }

  // ---------------------------------------------------------------------
  // Order-keeping filters

  /** `r` is `s` with some elements deleted and the rest kept in order. */
  ghost predicate IsSubsequence<T>(r: seq<T>, s: seq<T>)
    decreases |s|
  {
    || r == []
    || (s != [] && ((r[0] == s[0] && IsSubsequence(r[1..], s[1..])) || IsSubsequence(r, s[1..])))
  }

  /** How many elements of `s` satisfy `keep`. */
  function Count<T>(s: seq<T>, keep: T -> bool): nat
  {
    if s == [] then 0 else (if keep(s[0]) then 1 else 0) + Count(s[1..], keep)
  }

  /** `[x for x in s if keep(x)]`. */
  function Filter<T>(s: seq<T>, keep: T -> bool): seq<T>
  {
    if s == [] then []
    else (if keep(s[0]) then [s[0]] else []) + Filter(s[1..], keep)
  }

  /** The filter keeps, in order, exactly the elements `keep` accepts. */
  lemma {:induction false} FilterSpec<T>(s: seq<T>, keep: T -> bool)
    ensures forall i :: 0 <= i < |Filter(s, keep)| ==> keep(Filter(s, keep)[i])
    ensures forall x | x in Filter(s, keep) :: x in s
    ensures IsSubsequence(Filter(s, keep), s)
    ensures |Filter(s, keep)| == Count(s, keep)
  {
    if s != [] {
      var rest := Filter(s[1..], keep);
      FilterSpec(s[1..], keep);
      if keep(s[0]) {
        assert Filter(s, keep) == [s[0]] + rest;
        assert ([s[0]] + rest)[1..] == rest;
      } else {
        assert Filter(s, keep) == rest;
      }
    }
  }

  lemma {:induction false} CountSnoc<T>(s: seq<T>, x: T, keep: T -> bool)
    ensures Count(s + [x], keep) == Count(s, keep) + (if keep(x) then 1 else 0)
  {
    if s == [] {
      assert s + [x] == [x];
    } else {
      assert (s + [x])[1..] == s[1..] + [x];
      CountSnoc(s[1..], x, keep);
    }
  }

  /** The concatenation of `f(x)` over the elements `x` of `s`, in order. */
  function FlatMap<A, B>(s: seq<A>, f: A -> seq<B>): seq<B>
  {
    if s == [] then [] else FlatMap(s[..|s| - 1], f) + f(s[|s| - 1])
  }

  lemma {:induction false} FlatMapConcat<A, B>(a: seq<A>, b: seq<A>, f: A -> seq<B>)
    ensures FlatMap(a + b, f) == FlatMap(a, f) + FlatMap(b, f)
    decreases |b|
  {
    if b == [] {
      assert a + b == a;
    } else {
      assert (a + b)[..|a + b| - 1] == a + b[..|b| - 1];
      FlatMapConcat(a, b[..|b| - 1], f);
    }
  }

  /** A subsequence made only of kept elements has at most as many
      elements as `s` has kept ones. */
  lemma {:induction false} SubsequenceCountBound<T>(r: seq<T>, s: seq<T>, keep: T -> bool)
    requires IsSubsequence(r, s)
    requires forall i :: 0 <= i < |r| ==> keep(r[i])
    ensures |r| <= Count(s, keep)
    decreases |s|
  {
    if r != [] {
      if r[0] == s[0] && IsSubsequence(r[1..], s[1..]) {
        SubsequenceCountBound(r[1..], s[1..], keep);
      } else {
        SubsequenceCountBound(r, s[1..], keep);
      }
    }
  }

  /** The filter is the only subsequence of `s` that is made of kept
      elements and has as many of them as `s` has. */
  lemma {:induction false} FilterUnique<T>(r: seq<T>, s: seq<T>, keep: T -> bool)
    requires IsSubsequence(r, s)
    requires forall i :: 0 <= i < |r| ==> keep(r[i])
    requires |r| == Count(s, keep)
    ensures r == Filter(s, keep)
    decreases |s|
  {
    if s != [] {
      if r != [] && r[0] == s[0] && IsSubsequence(r[1..], s[1..]) {
        FilterUnique(r[1..], s[1..], keep);
      } else {
        if r != [] {
          SubsequenceCountBound(r, s[1..], keep);
        }
        FilterUnique(r, s[1..], keep);
      }
    }
  }

  /** Filtering a sequence whose elements are all kept changes nothing. */
  lemma {:induction false} FilterIdentity<T>(s: seq<T>, keep: T -> bool)
    requires forall i :: 0 <= i < |s| ==> keep(s[i])
    ensures Filter(s, keep) == s
  {
    if s != [] {
      FilterIdentity(s[1..], keep);
    }
  }

  // ---------------------------------------------------------------------
  // Splitting on whitespace

  lemma {:induction false} SplitAfterSpace(g: string, t: string)
    requires AllSpace(g)
    ensures Split(g + t) == Split(t)
    decreases |g|
  {
    if g == [] {
      assert g + t == t;
    } else {
      assert (g + t)[1..] == g[1..] + t;
      SplitAfterSpace(g[1..], t);
    }
  }

  lemma WordPrefixOf(w: string, t: string)
    requires NoSpace(w)
    requires t == [] || IsSpace(t[0])
    ensures WordPrefix(w + t) == w
  {
    var p := WordPrefix(w + t);
    assert p == (w + t)[..|w|] == w;
  }

  lemma SplitAfterWord(w: string, t: string)
    requires IsWord(w)
    requires t == [] || IsSpace(t[0])
    ensures Split(w + t) == [w] + Split(t)
  {
    WordPrefixOf(w, t);
    assert (w + t)[0] == w[0];
    assert (w + t)[|w|..] == t;
  }

  /** Joining whitespace-free tokens with single spaces and splitting again
      gives the tokens back. */
  lemma {:induction false} SplitJoin(ws: seq<string>)
    requires forall k :: 0 <= k < |ws| ==> IsWord(ws[k])
    ensures Split(Join(" ", ws)) == ws
  {
    if |ws| == 1 {
      SplitAfterWord(ws[0], []);
      assert ws[0] + [] == ws[0];
    } else if |ws| > 1 {
      var rest := Join(" ", ws[1..]);
      SplitJoin(ws[1..]);
      assert Join(" ", ws) == ws[0] + (" " + rest);
      SplitAfterWord(ws[0], " " + rest);
      SplitAfterSpace(" ", rest);
      assert ws == [ws[0]] + ws[1..];
    }
  }

  /** `s.split()` is empty exactly when `s` is empty or all whitespace. */
  lemma {:induction false} SplitEmpty(s: string)
    ensures Split(s) == [] <==> AllSpace(s)
    decreases |s|
  {
    if s != [] && IsSpace(s[0]) {
      SplitEmpty(s[1..]);
    }
  }

  /** The string made of the whitespace gaps `gaps` and the tokens `words`,
      interleaved: gaps[0] + words[0] + gaps[1] + ... + words[n-1] + gaps[n]. */
  function Weave(gaps: seq<string>, words: seq<string>): string
    requires |gaps| == |words| + 1
  {
    if words == [] then gaps[0] else gaps[0] + words[0] + Weave(gaps[1..], words[1..])
  }

  /** `gaps` are valid separators for `words`: all whitespace, and
      non-empty wherever they stand between two tokens. */
  predicate Separates(gaps: seq<string>, words: seq<string>)
  {
    && |gaps| == |words| + 1
    && (forall k :: 0 <= k < |gaps| ==> AllSpace(gaps[k]))
    && (forall k :: 0 < k < |words| ==> gaps[k] != [])
    && (forall k :: 0 <= k < |words| ==> IsWord(words[k]))
  }

  /** Any string written as tokens separated by whitespace splits into
      exactly those tokens. */
  lemma {:induction false} SplitWeave(gaps: seq<string>, words: seq<string>)
    requires Separates(gaps, words)
    ensures Split(Weave(gaps, words)) == words
  {
    if words == [] {
      SplitAfterSpace(gaps[0], []);
      assert gaps[0] + [] == gaps[0];
    } else {
      var tail := Weave(gaps[1..], words[1..]);
      assert Separates(gaps[1..], words[1..]);
      SplitWeave(gaps[1..], words[1..]);
      if |words| > 1 {
        assert tail == gaps[1] + words[1] + Weave(gaps[2..], words[2..]);
        assert tail[0] == gaps[1][0];
      } else {
        assert tail == gaps[1];
      }
      SplitAfterWord(words[0], tail);
      assert Weave(gaps, words) == gaps[0] + (words[0] + tail);
      SplitAfterSpace(gaps[0], words[0] + tail);
      assert words == [words[0]] + words[1..];
    }
  }

  lemma WeavePrepend(c: string, gaps: seq<string>, words: seq<string>)
    requires |gaps| == |words| + 1
    ensures Weave([c + gaps[0]] + gaps[1..], words) == c + Weave(gaps, words)
  {
  }

  lemma DecomposeAfterSpace(c: char, t: string, gaps: seq<string>)
    requires IsSpace(c)
    requires Separates(gaps, Split(t)) && Weave(gaps, Split(t)) == t
    ensures Separates([[c] + gaps[0]] + gaps[1..], Split(t))
    ensures Weave([[c] + gaps[0]] + gaps[1..], Split(t)) == [c] + t
  {
    var gaps' := [[c] + gaps[0]] + gaps[1..];
    WeavePrepend([c], gaps, Split(t));
    forall k | 0 <= k < |gaps'| ensures AllSpace(gaps'[k]) {
      if k > 0 { assert gaps'[k] == gaps[k]; }
    }
  }

  lemma DecomposeAfterWord(w: string, t: string, gaps: seq<string>)
    requires IsWord(w) && (t == [] || IsSpace(t[0]))
    requires Separates(gaps, Split(t)) && Weave(gaps, Split(t)) == t
    ensures Separates([[]] + gaps, [w] + Split(t))
    ensures Weave([[]] + gaps, [w] + Split(t)) == w + t
  {
  }

  /** Every string is its own tokens separated by whitespace gaps. */
  lemma {:induction false} SplitDecomposes(s: string)
    ensures exists gaps :: Separates(gaps, Split(s)) && Weave(gaps, Split(s)) == s
    decreases |s|
  {
    if s == [] {
      var gaps: seq<string> := [[]];
      assert Separates(gaps, Split(s)) && Weave(gaps, Split(s)) == s;
    } else if IsSpace(s[0]) {
      var t := s[1..];
      SplitDecomposes(t);
      var gaps' :| Separates(gaps', Split(t)) && Weave(gaps', Split(t)) == t;
      DecomposeAfterSpace(s[0], t, gaps');
      var gaps := [[s[0]] + gaps'[0]] + gaps'[1..];
      assert [s[0]] + t == s;
      assert Split(s) == Split(t);
      assert Separates(gaps, Split(s)) && Weave(gaps, Split(s)) == s;
    } else {
      var w := WordPrefix(s);
      var t := s[|w|..];
      assert s == w + t;
      SplitAfterWord(w, t);
      SplitDecomposes(t);
      var gaps' :| Separates(gaps', Split(t)) && Weave(gaps', Split(t)) == t;
      DecomposeAfterWord(w, t, gaps');
      var gaps := [[]] + gaps';
      assert Separates(gaps, Split(s)) && Weave(gaps, Split(s)) == s;
    }
  }

  // ---------------------------------------------------------------------
  // Single-spaced strings: what joining tokens with " " produces

  /** No leading whitespace, and every whitespace character is a single
      ' ' followed by a non-whitespace character (so no trailing
      whitespace and no two spaces in a row either). */
  predicate SingleSpaced(s: string)
  {
    && (|s| > 0 ==> !IsSpace(s[0]))
    && forall i :: 0 <= i < |s| && IsSpace(s[i]) ==> s[i] == ' ' && i + 1 < |s| && !IsSpace(s[i + 1])
  }

  lemma {:induction false} JoinWordsSingleSpaced(ws: seq<string>)
    requires forall k :: 0 <= k < |ws| ==> IsWord(ws[k])
    ensures SingleSpaced(Join(" ", ws))
    ensures |ws| > 0 ==> |Join(" ", ws)| > 0
  {
    if |ws| > 1 {
      JoinWordsSingleSpaced(ws[1..]);
      var rest := Join(" ", ws[1..]);
      var s := ws[0] + " " + rest;
      assert s == Join(" ", ws);
      forall i | 0 <= i < |s| && IsSpace(s[i])
        ensures s[i] == ' ' && i + 1 < |s| && !IsSpace(s[i + 1])
      {
        if i == |ws[0]| {
          assert s[i + 1] == rest[0];
        } else if i > |ws[0]| {
          assert s[i] == rest[i - |ws[0]| - 1];
          assert s[i + 1] == rest[i - |ws[0]|];
        }
      }
      assert s[0] == ws[0][0];
    }
  }

  lemma SingleSpacedSuffix(s: string, k: nat)
    requires SingleSpaced(s)
    requires k < |s| && !IsSpace(s[k])
    ensures SingleSpaced(s[k..])
  {
  }

  /** A single-spaced string is the single-space join of its own tokens. */
  lemma {:induction false} JoinSplitSingleSpaced(s: string)
    requires SingleSpaced(s)
    ensures Join(" ", Split(s)) == s
    decreases |s|
  {
    if s != [] {
      var w := WordPrefix(s);
      var rest := s[|w|..];
      assert Split(s) == [w] + Split(rest);
      if rest == [] {
        assert s == w;
      } else {
        assert rest[0] == s[|w|] == ' ';
        var rest' := rest[1..];
        assert rest' == s[|w| + 1..];
        SingleSpacedSuffix(s, |w| + 1);
        JoinSplitSingleSpaced(rest');
        assert Split(rest) == Split(rest');
        assert Split(rest') != [] by {
          SplitEmpty(rest');
          assert !IsSpace(rest'[0]);
        }
        assert s == w + " " + rest';
        assert [w] + Split(rest') == [w] + Split(rest);
      }
    }
  }

  /** Tokens of a string without upper-case letters have none either. */
  lemma {:induction false} SplitNoUpper(s: string)
    requires NoUpper(s)
    ensures forall k :: 0 <= k < |Split(s)| ==> NoUpper(Split(s)[k])
    decreases |s|
  {
    if s != [] {
      if IsSpace(s[0]) {
        SplitNoUpper(s[1..]);
      } else {
        var w := WordPrefix(s);
        SplitNoUpper(s[|w|..]);
        assert Split(s) == [w] + Split(s[|w|..]);
      }
    }
  }

  lemma {:induction false} JoinNoUpper(sep: string, ws: seq<string>)
    requires NoUpper(sep)
    requires forall k :: 0 <= k < |ws| ==> NoUpper(ws[k])
    ensures NoUpper(Join(sep, ws))
  {
    if |ws| > 1 {
      JoinNoUpper(sep, ws[1..]);
    }
  }

  // ---------------------------------------------------------------------
  // Occurrence of one string inside another

  /** `t` occurs in `s` starting at index `k`. */
  predicate OccursAt(s: string, t: string, k: int)
  {
    0 <= k && k + |t| <= |s| && s[k..k + |t|] == t
  }

  /** Python's `t in s` for strings. */
  predicate Contains(s: string, t: string)
  {
    exists k :: 0 <= k <= |s| - |t| && OccursAt(s, t, k)
  }

  lemma OccursBetween(x: string, t: string, y: string)
    ensures OccursAt(x + t + y, t, |x|)
  {
  }

  lemma ContainsBetween(x: string, t: string, y: string)
    ensures Contains(x + t + y, t)
  {
    OccursBetween(x, t, y);
  }

  lemma ContainsPrefix(x: string, y: string)
    ensures Contains(x + y, x)
  {
    OccursBetween([], x, y);
    assert [] + x + y == x + y;
  }

  lemma ContainsSuffix(x: string, y: string)
    ensures Contains(x + y, y)
  {
    OccursBetween(x, y, []);
    assert x + y + [] == x + y;
  }

  /** Both inputs of a two-input template occur in it. */
  lemma ContainsBoth(head: string, x: string, middle: string, y: string, tail: string)
    ensures Contains(head + x + middle + y + tail, x)
    ensures Contains(head + x + middle + y + tail, y)
  {
    assert head + x + middle + y + tail == head + x + (middle + y + tail);
    OccursBetween(head, x, middle + y + tail);
    OccursBetween(head + x + middle, y, tail);
  }

  /** Containment is transitive: a layer that keeps its argument keeps all
      that the argument contained. */
  lemma ContainsTransitive(a: string, b: string, c: string)
    requires Contains(a, b) && Contains(b, c)
    ensures Contains(a, c)
  {
    var i :| 0 <= i <= |a| - |b| && OccursAt(a, b, i);
    var j :| 0 <= j <= |b| - |c| && OccursAt(b, c, j);
    var window := a[i + j .. i + j + |c|];
    forall k | 0 <= k < |c|
      ensures window[k] == c[k]
    {
      assert window[k] == a[i..i + |b|][j + k];
      assert c[k] == b[j..j + |c|][k];
    }
    assert window == c;
    assert OccursAt(a, c, i + j);
  }
}
