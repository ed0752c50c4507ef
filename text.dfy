/**
 * The handful of Python string operations the assignment tool relies on:
 * `str.strip()`, `str.split(sep)`, `sep.join(parts)` and
 * `s.replace("\n", "\\n")`.
 */
module Text {

  /** The characters for which Python's `str.isspace()` holds, i.e. what `str.strip()` removes. */
  predicate IsSpace(c: char) {
    || ('\t' <= c <= '\r')
    || ('\U{1c}' <= c <= ' ')
    || c == '\U{85}' || c == '\U{a0}' || c == '\U{1680}'
    || ('\U{2000}' <= c <= '\U{200a}')
    || c == '\U{2028}' || c == '\U{2029}' || c == '\U{202f}' || c == '\U{205f}' || c == '\U{3000}'
  }

  predicate AllSpace(s: string) {
    forall k :: 0 <= k < |s| ==> IsSpace(s[k])
  }

  /** Number of leading whitespace characters. */
  function LeadingSpaces(s: string): (n: nat)
    ensures n <= |s|
    decreases |s|
  {
    if s != [] && IsSpace(s[0]) then 1 + LeadingSpaces(s[1..]) else 0
  }

  /** Number of trailing whitespace characters. */
  function TrailingSpaces(s: string): (n: nat)
    ensures n <= |s|
  {
    SpacesBefore(s, |s|)
  }

  /** Number of whitespace characters immediately before index `end`. */
  function SpacesBefore(s: string, end: nat): (n: nat)
    requires end <= |s|
    ensures n <= end
    decreases end
  {
    if end > 0 && IsSpace(s[end - 1]) then 1 + SpacesBefore(s, end - 1) else 0
  }

  /** Python's `str.strip()`: the text between the leading and the trailing whitespace. */
  function Strip(s: string): string {
    var i := LeadingSpaces(s);
    s[i..|s| - TrailingSpaces(s[i..])]
  }

  lemma {:induction false} LeadingSpacesSpec(s: string)
    ensures AllSpace(s[..LeadingSpaces(s)])
    ensures LeadingSpaces(s) < |s| ==> !IsSpace(s[LeadingSpaces(s)])
    decreases |s|
  {
    if s != [] && IsSpace(s[0]) {
      LeadingSpacesSpec(s[1..]);
      var m := LeadingSpaces(s[1..]);
      assert LeadingSpaces(s) == m + 1;
      assert s[..m + 1] == [s[0]] + s[1..][..m];
    }
  }

  lemma TrailingSpacesSpec(s: string)
    ensures AllSpace(s[|s| - TrailingSpaces(s)..])
    ensures TrailingSpaces(s) < |s| ==> !IsSpace(s[|s| - TrailingSpaces(s) - 1])
  {
    SpacesBeforeSpec(s, |s|);
  }

  lemma {:induction false} SpacesBeforeSpec(s: string, end: nat)
    requires end <= |s|
    ensures forall k :: end - SpacesBefore(s, end) <= k < end ==> IsSpace(s[k])
    ensures SpacesBefore(s, end) < end ==> !IsSpace(s[end - SpacesBefore(s, end) - 1])
    decreases end
  {
    if end > 0 && IsSpace(s[end - 1]) {
      SpacesBeforeSpec(s, end - 1);
    }
  }

  /**
   * `strip()` yields the text between a whitespace prefix and a whitespace
   * suffix, starting and ending with a non-whitespace character; it is empty
   * exactly when the text is all whitespace.
   */
  lemma StripSpec(s: string)
    ensures exists i, j :: 0 <= i <= j <= |s| && Strip(s) == s[i..j] && AllSpace(s[..i]) && AllSpace(s[j..])
    ensures Strip(s) == [] || (!IsSpace(Strip(s)[0]) && !IsSpace(Strip(s)[|Strip(s)| - 1]))
    ensures Strip(s) == [] <==> AllSpace(s)
  {
    var i := LeadingSpaces(s);
    var t := s[i..];
    var j := i + |t| - TrailingSpaces(t);
    LeadingSpacesSpec(s);
    TrailingSpacesSpec(t);
    assert t[|t| - TrailingSpaces(t)..] == s[j..];
    assert Strip(s) == s[i..j];
    if i < |s| {
      assert !AllSpace(s) by { assert !IsSpace(s[i]); }
    } else {
      assert s == s[..i];
    }
  }

  /** A text that neither starts nor ends with whitespace is left as it is. */
  lemma StripTrimmed(s: string)
    requires s == [] || (!IsSpace(s[0]) && !IsSpace(s[|s| - 1]))
    ensures Strip(s) == s
  {
    assert LeadingSpaces(s) == 0;
    assert s[0..] == s;
  }

  /** Python's `s.split(sep)` for a one-character separator. */
  function Split(s: string, sep: char): (parts: seq<string>)
    ensures |parts| >= 1
    decreases |s|
  {
    if s == [] then [""]
    else
      var rest := Split(s[1..], sep);
      if s[0] == sep then [""] + rest
      else [[s[0]] + rest[0]] + rest[1..]
  }

  /** No piece holds the separator, and there is more than one piece exactly when the text holds it. */
  lemma {:induction false} SplitSpec(s: string, sep: char)
    ensures forall k :: 0 <= k < |Split(s, sep)| ==> sep !in Split(s, sep)[k]
    ensures |Split(s, sep)| == 1 <==> sep !in s
    decreases |s|
  {
    if s != [] {
      SplitSpec(s[1..], sep);
      assert s == [s[0]] + s[1..];
    }
  }

  /** Python's `sep.join(parts)`. */
  function Join(sep: string, parts: seq<string>): string
    decreases |parts|
  {
    if parts == [] then ""
    else if |parts| == 1 then parts[0]
    else parts[0] + sep + Join(sep, parts[1..])
  }

  /** Joining the pieces of a split with the same separator gives back the text. */
  lemma {:induction false} JoinSplit(s: string, sep: char)
    ensures Join([sep], Split(s, sep)) == s
    decreases |s|
  {
    if s != [] {
      var rest := Split(s[1..], sep);
      JoinSplit(s[1..], sep);
      if s[0] == sep {
        JoinConsEmpty(rest, [sep]);
      } else {
        JoinConsFirst(s[0], rest, [sep]);
      }
      assert s == [s[0]] + s[1..];
    }
  }

  /** Joining an empty piece in front of others puts the separator in front. */
  lemma JoinConsEmpty(rest: seq<string>, sep: string)
    requires |rest| >= 1
    ensures Join(sep, [""] + rest) == sep + Join(sep, rest)
  {
    assert ([""] + rest)[1..] == rest;
  }

  /** Joining after a character added to the first piece puts that character in front. */
  lemma JoinConsFirst(c: char, rest: seq<string>, sep: string)
    requires |rest| >= 1
    ensures Join(sep, [[c] + rest[0]] + rest[1..]) == [c] + Join(sep, rest)
  {
    var parts := [[c] + rest[0]] + rest[1..];
    if |rest| > 1 {
      assert parts[1..] == rest[1..];
    }
  }

  /** Splitting a join of separator-free pieces gives back the pieces. */
  lemma {:induction false} SplitJoin(parts: seq<string>, sep: char)
    requires |parts| >= 1
    requires forall k :: 0 <= k < |parts| ==> sep !in parts[k]
    ensures Split(Join([sep], parts), sep) == parts
    decreases |parts|, |parts[0]|
  {
    if parts[0] != [] {
      var p0 := parts[0];
      var tail := [p0[1..]] + parts[1..];
      assert Join([sep], tail) == Join([sep], parts)[1..] by {
        if |parts| > 1 {
          assert tail[1..] == parts[1..];
        }
      }
      SplitJoin(tail, sep);
      assert Join([sep], parts) == [p0[0]] + Join([sep], tail);
      assert p0 == [p0[0]] + p0[1..];
      assert parts == [p0] + parts[1..];
    } else if |parts| > 1 {
      SplitJoin(parts[1..], sep);
      assert Join([sep], parts) == [sep] + Join([sep], parts[1..]);
      assert parts == [""] + parts[1..];
    }
  }

  /**
   * The last piece of a split is the text after the last separator:
   * a suffix of `s` that is preceded by the separator when `s` contains one,
   * and all of `s` otherwise.
   */
  lemma SplitLast(s: string, sep: char)
    ensures var parts := Split(s, sep); var last := parts[|parts| - 1];
      && |last| <= |s| && last == s[|s| - |last|..]
      && (sep in s ==> |last| < |s| && s[|s| - |last| - 1] == sep)
      && (sep !in s ==> last == s)
  {
    var parts := Split(s, sep);
    var last := parts[|parts| - 1];
    SplitLastSuffix(s, sep);
    SplitSpec(s, sep);
    if |last| == |s| {
      assert s[0..] == s;
    } else {
      assert s[|s| - |last| - 1] in s;
    }
  }

  /** The last piece is a suffix that is either all of `s` or preceded by the separator. */
  lemma {:induction false} SplitLastSuffix(s: string, sep: char)
    ensures var parts := Split(s, sep); var last := parts[|parts| - 1];
      && |last| <= |s| && last == s[|s| - |last|..]
      && (|last| == |s| || s[|s| - |last| - 1] == sep)
    decreases |s|
  {
    if s != [] {
      var tail := s[1..];
      var rest := Split(tail, sep);
      var last := rest[|rest| - 1];
      SplitLastSuffix(tail, sep);
      assert s[|s| - |last|..] == tail[|tail| - |last|..];
      assert |last| < |tail| ==> s[|s| - |last| - 1] == tail[|tail| - |last| - 1];
      var parts := Split(s, sep);
      if s[0] == sep {
        assert parts == [""] + rest;
        assert parts[|parts| - 1] == last;
      } else if |rest| == 1 {
        JoinSplit(tail, sep);
        assert last == tail;
        assert parts == [[s[0]] + last];
        assert s == [s[0]] + tail;
      } else {
        SplitSpec(tail, sep);
        assert sep in tail && sep !in last;
        assert last != tail;
        assert parts == [[s[0]] + rest[0]] + rest[1..];
        assert parts[|parts| - 1] == rest[1..][|rest| - 2] == last;
      }
    }
  }

  /** Python's `s.replace("\n", "\\n")`: every line break becomes a backslash and an `n`. */
  function EscapeNewlines(s: string): string
    decreases |s|
  {
    if s == [] then ""
    else (if s[0] == '\n' then "\\n" else [s[0]]) + EscapeNewlines(s[1..])
  }

  /** The result holds no line break, and is longer than the text by one character per line break. */
  lemma {:induction false} EscapeNewlinesSpec(s: string)
    ensures '\n' !in EscapeNewlines(s)
    ensures |EscapeNewlines(s)| == |s| + multiset(s)['\n']
    decreases |s|
  {
    if s != [] {
      EscapeNewlinesSpec(s[1..]);
      assert s == [s[0]] + s[1..];
    }
  }

  lemma {:induction false} EscapeNewlinesConcat(a: string, b: string)
    ensures EscapeNewlines(a + b) == EscapeNewlines(a) + EscapeNewlines(b)
    decreases |a|
  {
    if a != [] {
      var head := if a[0] == '\n' then "\\n" else [a[0]];
      assert (a + b)[0] == a[0];
      assert (a + b)[1..] == a[1..] + b;
      EscapeNewlinesConcat(a[1..], b);
      calc {
        EscapeNewlines(a + b);
        head + EscapeNewlines(a[1..] + b);
        head + (EscapeNewlines(a[1..]) + EscapeNewlines(b));
        (head + EscapeNewlines(a[1..])) + EscapeNewlines(b);
        EscapeNewlines(a) + EscapeNewlines(b);
      }
    } else {
      assert a + b == b;
    }
  }

  /** Each piece escaped on its own. */
  function EscapeEach(parts: seq<string>): (r: seq<string>)
    ensures |r| == |parts|
    ensures forall k :: 0 <= k < |parts| ==> r[k] == EscapeNewlines(parts[k])
    decreases |parts|
  {
    if parts == [] then [] else [EscapeNewlines(parts[0])] + EscapeEach(parts[1..])
  }

  /**
   * Escaping a newline-joined text is the same as escaping each piece and
   * joining with the two characters backslash and `n`.
   */
  lemma {:induction false} EscapedJoin(parts: seq<string>)
    ensures EscapeNewlines(Join("\n", parts)) == Join("\\n", EscapeEach(parts))
    decreases |parts|
  {
    if |parts| > 1 {
      var rest := Join("\n", parts[1..]);
      EscapedJoin(parts[1..]);
      EscapeNewlinesConcat(parts[0], "\n" + rest);
      EscapeNewlinesConcat("\n", rest);
      assert EscapeEach(parts)[1..] == EscapeEach(parts[1..]);
      assert parts[0] + "\n" + rest == parts[0] + ("\n" + rest);
      assert EscapeNewlines("\n") == "\\n";
    }
  }

  /** A text without line breaks is left as it is. */
  lemma {:induction false} EscapeNewlinesIdentity(s: string)
    requires '\n' !in s
    ensures EscapeNewlines(s) == s
    decreases |s|
  {
    if s != [] {
      assert s == [s[0]] + s[1..];
      EscapeNewlinesIdentity(s[1..]);
    }
  }

  lemma {:induction false} EscapeEachIdentity(parts: seq<string>)
    requires forall k :: 0 <= k < |parts| ==> '\n' !in parts[k]
    ensures EscapeEach(parts) == parts
  {
    forall k | 0 <= k < |parts| ensures EscapeEach(parts)[k] == parts[k] {
      EscapeNewlinesIdentity(parts[k]);
    }
  }
}
