/** The Python string operations the two generators rely on, on `string`
    (a sequence of Unicode scalar values, as a Python `str` is a sequence
    of code points). */
module Text {
  import opened Wrappers

  /** The characters Python's `str.isspace()` accepts: what `strip()` without
      arguments removes. */
  const WhitespaceList: seq<char> := [
    ' ', '\t', '\n', '\r', '\U{000B}', '\U{000C}',
    '\U{001C}', '\U{001D}', '\U{001E}', '\U{001F}', '\U{0085}', '\U{00A0}', '\U{1680}',
    '\U{2000}', '\U{2001}', '\U{2002}', '\U{2003}', '\U{2004}', '\U{2005}',
    '\U{2006}', '\U{2007}', '\U{2008}', '\U{2009}', '\U{200A}',
    '\U{2028}', '\U{2029}', '\U{202F}', '\U{205F}', '\U{3000}'
  ]
  const Whitespace: set<char> := set c | c in WhitespaceList

  /** The line boundaries of Python's `str.splitlines()` (`\r\n` counts as one). */
  const LineBreaks: set<char> := {
    '\n', '\r', '\U{000B}', '\U{000C}', '\U{001C}', '\U{001D}', '\U{001E}',
    '\U{0085}', '\U{2028}', '\U{2029}'
  }

  predicate NoneOf(s: string, cs: set<char>)
  {
    forall j :: 0 <= j < |s| ==> s[j] !in cs
  }

  /** The index of the first character of `s` that lies in `cs`, or `|s|`. */
  function IndexOfAny(s: string, cs: set<char>): (i: nat)
    ensures i <= |s|
    ensures i < |s| ==> s[i] in cs
  {
    if s == [] || s[0] in cs then 0 else 1 + IndexOfAny(s[1..], cs)
  }

  /** No character before the index `IndexOfAny` finds lies in `cs`. */
  lemma {:induction false} IndexOfAnyFirst(s: string, cs: set<char>)
    ensures NoneOf(s[..IndexOfAny(s, cs)], cs)
  {
    if s != [] && s[0] !in cs {
      IndexOfAnyFirst(s[1..], cs);
      var i := IndexOfAny(s, cs);
      assert forall j :: 1 <= j < i ==> s[..i][j] == s[1..][..i - 1][j - 1];
    }
  }

  /** The index of the first character in `cs` is the one with none before it. */
  lemma {:induction false} IndexOfAnyAt(s: string, cs: set<char>, i: nat)
    requires i <= |s| && (i == |s| || s[i] in cs)
    requires forall j :: 0 <= j < i ==> s[j] !in cs
    ensures IndexOfAny(s, cs) == i
  {
    if i > 0 {
      IndexOfAnyAt(s[1..], cs, i - 1);
    }
  }

  /** `s.split(c, 1)`: the text before the first `c` and the text after it,
      or None when `c` does not occur (the one-element list Python returns,
      whose `[1]` raises IndexError). */
  function SplitOnce(s: string, c: char): (r: Option<(string, string)>)
    ensures r.None? <==> c !in s
    ensures r.Some? ==> s == r.value.0 + [c] + r.value.1 && c !in r.value.0
  {
    var i := IndexOfAny(s, {c});
    IndexOfAnyFirst(s, {c});
    if i == |s| then
      assert s == s[..i];
      None
    else
      assert s == s[..i] + [c] + s[i + 1..];
      assert forall j :: 0 <= j < i ==> s[..i][j] != c;
      Some((s[..i], s[i + 1..]))
  }

  /** `SplitOnce` cuts at the first `c` and nowhere else. */
  lemma SplitOnceAt(s: string, c: char, a: string, b: string)
    requires s == a + [c] + b && c !in a
    ensures SplitOnce(s, c) == Some((a, b))
  {
    assert forall j :: 0 <= j < |a| ==> s[j] == a[j];
    IndexOfAnyAt(s, {c}, |a|);
    assert s[..|a|] == a && s[|a| + 1..] == b;
  }

  /** `s.lstrip(chars)`: drops the leading characters that lie in `cs`. */
  function LStrip(s: string, cs: set<char>): (r: string)
    ensures |r| <= |s|
    ensures r == [] || r[0] !in cs
  {
    if s != [] && s[0] in cs then LStrip(s[1..], cs) else s
  }

  /** `LStrip` removes a prefix of characters of `cs` and nothing else. */
  lemma {:induction false} LStripSlice(s: string, cs: set<char>)
    ensures var r := LStrip(s, cs);
      r == s[|s| - |r|..] && forall j :: 0 <= j < |s| - |r| ==> s[j] in cs
    decreases |s|
  {
    if s != [] && s[0] in cs {
      LStripSlice(s[1..], cs);
    }
  }

  /** `s.rstrip(chars)`: drops the trailing characters that lie in `cs`. */
  function RStrip(s: string, cs: set<char>): (r: string)
    ensures |r| <= |s|
    ensures r == [] || r[|r| - 1] !in cs
  {
    if s != [] && s[|s| - 1] in cs then RStrip(s[..|s| - 1], cs) else s
  }

  /** `RStrip` removes a suffix of characters of `cs` and nothing else. */
  lemma {:induction false} RStripSlice(s: string, cs: set<char>)
    ensures var r := RStrip(s, cs);
      r == s[..|r|] && forall j :: |r| <= j < |s| ==> s[j] in cs
    decreases |s|
  {
    if s != [] && s[|s| - 1] in cs {
      var s' := s[..|s| - 1];
      RStripSlice(s', cs);
      var r := RStrip(s', cs);
      assert s'[..|r|] == s[..|r|];
    }
  }

  /** `s.strip(chars)`: neither starts nor ends with a character of `cs`. */
  function StripAny(s: string, cs: set<char>): (r: string)
    ensures |r| <= |s|
    ensures r == [] || (r[0] !in cs && r[|r| - 1] !in cs)
  {
    var left := LStrip(s, cs);
    var r := RStrip(left, cs);
    assert r != [] ==> r[0] == left[0] by { RStripSlice(left, cs); }
    r
  }

  /** What `StripAny` removes: the characters of `cs` at both ends of `s`,
      and nothing else. */
  lemma StripAnySlice(s: string, cs: set<char>)
    ensures var r := StripAny(s, cs);
      var k := |s| - |LStrip(s, cs)|;
      k + |r| <= |s| && r == s[k..k + |r|]
      && (forall j :: 0 <= j < k ==> s[j] in cs)
      && (forall j :: k + |r| <= j < |s| ==> s[j] in cs)
  {
    var left := LStrip(s, cs);
    var r := RStrip(left, cs);
    assert r == StripAny(s, cs);
    LStripSlice(s, cs);
    RStripSlice(left, cs);
    var k := |s| - |left|;
    assert r == s[k..k + |r|] by { assert left[..|r|] == s[k..k + |r|]; }
    assert forall j :: k + |r| <= j < |s| ==> s[j] == left[j - k];
  }

  /** `s.strip()`. */
  function Strip(s: string): string
  {
    StripAny(s, Whitespace)
  }

  /** Splitting at every character of `cs`: `s.split(c)` for `cs == {c}`,
      `re.split("[...]", s)` for a character class. */
  function SplitAny(s: string, cs: set<char>): (parts: seq<string>)
    ensures |parts| >= 1
    decreases |s|
  {
    var i := IndexOfAny(s, cs);
    if i == |s| then [s] else [s[..i]] + SplitAny(s[i + 1..], cs)
  }

  /** No part holds a separator. */
  lemma {:induction false} SplitAnyParts(s: string, cs: set<char>)
    ensures forall k :: 0 <= k < |SplitAny(s, cs)| ==> NoneOf(SplitAny(s, cs)[k], cs)
    decreases |s|
  {
    var i := IndexOfAny(s, cs);
    IndexOfAnyFirst(s, cs);
    if i == |s| {
      assert s == s[..i];
    } else {
      var rest := s[i + 1..];
      SplitAnyParts(rest, cs);
      var parts := SplitAny(s, cs);
      assert parts == [s[..i]] + SplitAny(rest, cs);
      forall k | 0 <= k < |parts| ensures NoneOf(parts[k], cs) {
        if k > 0 {
          assert parts[k] == SplitAny(rest, cs)[k - 1];
        }
      }
    }
  }

  /** The characters of `s` at which `SplitAny(s, cs)` splits, in order. */
  function Separators(s: string, cs: set<char>): seq<char>
    decreases |s|
  {
    var i := IndexOfAny(s, cs);
    if i == |s| then [] else [s[i]] + Separators(s[i + 1..], cs)
  }

  /** `parts[0] + seps[0] + parts[1] + ... + parts[n]`. */
  function Interleave(parts: seq<string>, seps: seq<char>): string
    requires |parts| == |seps| + 1
    decreases |seps|
  {
    if seps == [] then parts[0] else parts[0] + [seps[0]] + Interleave(parts[1..], seps[1..])
  }

  /** `sep.join(parts)`. */
  function Join(parts: seq<string>, sep: string): string
  {
    if parts == [] then ""
    else if |parts| == 1 then parts[0]
    else parts[0] + sep + Join(parts[1..], sep)
  }

  /** There is one separator fewer than there are parts. */
  lemma {:induction false} SeparatorsCount(s: string, cs: set<char>)
    ensures |SplitAny(s, cs)| == |Separators(s, cs)| + 1
    decreases |s|
  {
    var i := IndexOfAny(s, cs);
    if i < |s| {
      SeparatorsCount(s[i + 1..], cs);
    }
  }

  /** Every separator `SplitAny` removes lies in `cs`. */
  lemma {:induction false} SeparatorsIn(s: string, cs: set<char>)
    ensures forall k :: 0 <= k < |Separators(s, cs)| ==> Separators(s, cs)[k] in cs
    decreases |s|
  {
    var i := IndexOfAny(s, cs);
    if i < |s| {
      var rest := s[i + 1..];
      SeparatorsIn(rest, cs);
      var seps := Separators(s, cs);
      assert seps == [s[i]] + Separators(rest, cs);
      forall k | 0 <= k < |seps| ensures seps[k] in cs {
        if k > 0 {
          assert seps[k] == Separators(rest, cs)[k - 1];
        }
      }
    }
  }

  /** Splitting loses nothing: the parts put back together with the
      separators that were removed give the original text. */
  lemma {:induction false} SplitAnyRoundTrip(s: string, cs: set<char>)
    ensures |SplitAny(s, cs)| == |Separators(s, cs)| + 1
    ensures Interleave(SplitAny(s, cs), Separators(s, cs)) == s
    decreases |s|
  {
    SeparatorsCount(s, cs);
    var i := IndexOfAny(s, cs);
    if i == |s| {
      assert SplitAny(s, cs) == [s] && Separators(s, cs) == [];
    } else {
      var rest := s[i + 1..];
      var restParts, restSeps := SplitAny(rest, cs), Separators(rest, cs);
      SeparatorsCount(rest, cs);
      calc {
        Interleave(SplitAny(s, cs), Separators(s, cs));
        { assert SplitAny(s, cs) == [s[..i]] + restParts;
          assert Separators(s, cs) == [s[i]] + restSeps; }
        Interleave([s[..i]] + restParts, [s[i]] + restSeps);
        { assert ([s[..i]] + restParts)[1..] == restParts;
          assert ([s[i]] + restSeps)[1..] == restSeps; }
        s[..i] + [s[i]] + Interleave(restParts, restSeps);
        { SplitAnyRoundTrip(rest, cs); }
        s[..i] + [s[i]] + rest;
        { assert s == s[..i] + [s[i]] + rest; }
        s;
      }
    }
  }

  /** For a single separator, `c.join(s.split(c)) == s`. */
  lemma {:induction false} SplitJoin(s: string, c: char)
    ensures Join(SplitAny(s, {c}), [c]) == s
    decreases |s|
  {
    var i := IndexOfAny(s, {c});
    if i == |s| {
      assert s == s[..i];
    } else {
      var rest := s[i + 1..];
      var restParts := SplitAny(rest, {c});
      calc {
        Join(SplitAny(s, {c}), [c]);
        { assert SplitAny(s, {c}) == [s[..i]] + restParts; }
        Join([s[..i]] + restParts, [c]);
        { assert ([s[..i]] + restParts)[1..] == restParts; }
        s[..i] + [c] + Join(restParts, [c]);
        { SplitJoin(rest, c); }
        s[..i] + [c] + rest;
        { assert s == s[..i] + [s[i]] + rest; }
        s;
      }
    }
  }

  /** `s.replace(pat, rep)`: left-to-right, non-overlapping occurrences. */
  function Replace(s: string, pat: string, rep: string): (r: string)
    requires pat != []
    ensures forall ch :: ch in r ==> ch in s || ch in rep
    ensures |pat| == 1 && pat[0] !in rep ==> pat[0] !in r
    decreases |s|
  {
    if |s| < |pat| then s
    else if s[..|pat|] == pat then rep + Replace(s[|pat|..], pat, rep)
    else [s[0]] + Replace(s[1..], pat, rep)
  }

  function LowerChar(c: char): char
  {
    if 'A' <= c <= 'Z' then (c as int + 32) as char else c
  }

  /** `s.lower()` restricted to ASCII letters. */
  function Lower(s: string): (r: string)
    ensures |r| == |s|
    ensures forall i :: 0 <= i < |s| ==> r[i] == LowerChar(s[i])
  {
    seq(|s|, i requires 0 <= i < |s| => LowerChar(s[i]))
  }

  /** Lower-casing goes character by character, so it distributes over
      concatenation and leaves no upper-case ASCII letter behind. */
  lemma LowerAppend(a: string, b: string)
    ensures Lower(a + b) == Lower(a) + Lower(b)
    ensures forall i :: 0 <= i < |a| ==> !('A' <= Lower(a)[i] <= 'Z')
  {
  }

  /** `s.splitlines()`: the lines of `s` without their line boundaries; a
      final boundary does not open an empty last line. */
  function SplitLines(s: string): (lines: seq<string>)
    ensures |lines| <= |s|
    decreases |s|
  {
    if s == [] then []
    else
      var i := IndexOfAny(s, LineBreaks);
      if i == |s| then [s]
      else
        var next := if s[i] == '\r' && i + 1 < |s| && s[i + 1] == '\n' then i + 2 else i + 1;
        [s[..i]] + SplitLines(s[next..])
  }

  /** No line holds a line boundary. */
  lemma {:induction false} SplitLinesNoBreaks(s: string)
    ensures forall k :: 0 <= k < |SplitLines(s)| ==> NoneOf(SplitLines(s)[k], LineBreaks)
    decreases |s|
  {
    if s != [] {
      var i := IndexOfAny(s, LineBreaks);
      IndexOfAnyFirst(s, LineBreaks);
      if i == |s| {
        assert s == s[..i];
      } else {
        var next := if s[i] == '\r' && i + 1 < |s| && s[i + 1] == '\n' then i + 2 else i + 1;
        var rest := SplitLines(s[next..]);
        var lines := SplitLines(s);
        assert lines == [s[..i]] + rest;
        forall k | 0 <= k < |lines| ensures NoneOf(lines[k], LineBreaks) {
          if k > 0 {
            SplitLinesNoBreaks(s[next..]);
            assert lines[k] == rest[k - 1];
          }
        }
      }
    }
  }

  /** `"\n".join(lines).splitlines()` gives back `lines` when no line is
      empty or holds a line boundary of its own. */
  lemma {:induction false} SplitLinesJoin(lines: seq<string>)
    requires forall k :: 0 <= k < |lines| ==> lines[k] != [] && NoneOf(lines[k], LineBreaks)
    ensures SplitLines(Join(lines, "\n")) == lines
  {
    if |lines| == 1 {
      var s := lines[0];
      IndexOfAnyAt(s, LineBreaks, |s|);
    } else if |lines| > 1 {
      var a := lines[0];
      var rest := Join(lines[1..], "\n");
      var s := Join(lines, "\n");
      assert s == a + "\n" + rest;
      assert s[..|a|] == a && s[|a|] == '\n' && s[|a| + 1..] == rest;
      IndexOfAnyAt(s, LineBreaks, |a|);
      calc {
        SplitLines(s);
        [a] + SplitLines(rest);
        { SplitLinesJoin(lines[1..]); }
        [a] + lines[1..];
        lines;
      }
    }
  }
}
