/** The filename generator: every downloaded image file names its emoji by
    the hex code points in its name; the generator decodes them and emits a
    rule pointing at the same file name on the CDN. The directory listing
    and the code-point segment the filename pattern extracts from each name
    are inputs. */
module FilenameCss {
  import opened Wrappers
  import opened Text
  import opened Css

  /** The vendor the generator hard-codes. */
  const Vendor := "apple"

  predicate IsHexDigit(c: char)
  {
    '0' <= c <= '9' || 'a' <= c <= 'f' || 'A' <= c <= 'F'
  }

  function DigitValue(c: char): (v: nat)
    requires IsHexDigit(c)
    ensures v < 16
  {
    if '0' <= c <= '9' then c as int - '0' as int
    else if 'a' <= c <= 'f' then c as int - 'a' as int + 10
    else c as int - 'A' as int + 10
  }

  predicate AllHex(s: string)
  {
    forall i :: 0 <= i < |s| ==> IsHexDigit(s[i])
  }

  /** The value of a string of hex digits, most significant first. */
  function HexValue(s: string): nat
    requires AllHex(s)
  {
    if s == [] then 0 else 16 * HexValue(s[..|s| - 1]) + DigitValue(s[|s| - 1])
  }

  /** A Unicode scalar value: a code point that is not a surrogate. */
  predicate IsScalar(n: int)
  {
    0 <= n < 0xD800 || 0xE000 <= n < 0x11_0000
  }

  /** A token `chr(int(t, 16))` decodes: non-empty hex naming a scalar value. */
  predicate ValidToken(t: string)
  {
    && t != []
    && AllHex(t)
    && IsScalar(HexValue(t))
  }

  /** `chr(int(t, 16))`: the character whose code point the token names. */
  function DecodeToken(t: string): (c: char)
    requires ValidToken(t)
    ensures c as int == HexValue(t)
  {
    HexValue(t) as char
  }

  /** `unicode_to_emoji`: one character per token, whose code point is the
      token's hex value. */
  function UnicodeToEmoji(tokens: seq<string>): (emoji: string)
    requires forall k :: 0 <= k < |tokens| ==> ValidToken(tokens[k])
    ensures |emoji| == |tokens|
    ensures forall k :: 0 <= k < |tokens| ==> ValidToken(tokens[k]) && emoji[k] as int == HexValue(tokens[k])
  {
    seq(|tokens|, k requires 0 <= k < |tokens| => DecodeToken(tokens[k]))
  }

  /** The lower-case hex digit for `d`. */
  function Digit(d: nat): (c: char)
    requires d < 16
    ensures IsHexDigit(c) && DigitValue(c) == d
  {
    if d < 10 then ('0' as int + d) as char else ('a' as int + d - 10) as char
  }

  /** `n` in lower-case hex, without leading zeros. */
  function ToHex(n: nat): (s: string)
    ensures s != [] && AllHex(s)
  {
    if n < 16 then [Digit(n)] else ToHex(n / 16) + [Digit(n % 16)]
  }

  /** Reading back what `ToHex` writes gives the number again. */
  lemma {:induction false} HexRoundTrip(n: nat)
    ensures HexValue(ToHex(n)) == n
  {
    if n >= 16 {
      HexRoundTrip(n / 16);
      var s := ToHex(n);
      assert s[..|s| - 1] == ToHex(n / 16);
    }
  }

  /** The code points of a string as hex tokens. */
  function EmojiToTokens(emoji: string): (tokens: seq<string>)
    ensures |tokens| == |emoji|
    ensures forall k :: 0 <= k < |emoji| ==> tokens[k] == ToHex(emoji[k] as int)
  {
    seq(|emoji|, k requires 0 <= k < |emoji| => ToHex(emoji[k] as int))
  }

  /** Every string is what `unicode_to_emoji` makes of its own code points
      written in hex. */
  lemma DecodeEncoded(emoji: string)
    ensures var tokens := EmojiToTokens(emoji);
      (forall k :: 0 <= k < |tokens| ==> ValidToken(tokens[k]))
      && UnicodeToEmoji(tokens) == emoji
  {
    var tokens := EmojiToTokens(emoji);
    forall k | 0 <= k < |tokens| ensures ValidToken(tokens[k]) && HexValue(tokens[k]) == emoji[k] as int {
      HexRoundTrip(emoji[k] as int);
    }
  }

  /** The code-point tokens of a matched segment: leading underscores
      dropped, then cut at every `_` and `-`. */
  function Tokens(segment: string): (tokens: seq<string>)
    ensures |tokens| >= 1
    ensures forall k :: 0 <= k < |tokens| ==> '_' !in tokens[k] && '-' !in tokens[k]
  {
    var tokens := SplitAny(LStrip(segment, {'_'}), {'_', '-'});
    SplitAnyParts(LStrip(segment, {'_'}), {'_', '-'});
    assert forall k :: 0 <= k < |tokens| ==> NoneOf(tokens[k], {'_', '-'});
    tokens
  }

  /** A segment every token of which decodes. */
  predicate ValidSegment(segment: string)
  {
    forall k :: 0 <= k < |Tokens(segment)| ==> ValidToken(Tokens(segment)[k])
  }

  /** A segment made of hex digits, `-` and `_` only (what the filename
      pattern matches) has tokens made of hex digits only; what remains for
      them to decode is to be non-empty and to name a scalar value. */
  lemma {:induction false} TokensOfPatternSegment(segment: string)
    requires forall i :: 0 <= i < |segment| ==> IsHexDigit(segment[i]) || segment[i] in {'-', '_'}
    ensures forall k :: 0 <= k < |Tokens(segment)| ==> AllHex(Tokens(segment)[k])
  {
    var stripped := LStrip(segment, {'_'});
    LStripSlice(segment, {'_'});
    assert forall i :: 0 <= i < |stripped| ==> stripped[i] == segment[|segment| - |stripped| + i];
    SplitAnyRoundTrip(stripped, {'_', '-'});
    SeparatorsIn(stripped, {'_', '-'});
    forall k, i | 0 <= k < |Tokens(segment)| && 0 <= i < |Tokens(segment)[k]|
      ensures IsHexDigit(Tokens(segment)[k][i])
    {
      InterleavePart(Tokens(segment), Separators(stripped, {'_', '-'}), k, i);
    }
  }

  /** Every character of a part lies at some position of the interleaving. */
  lemma {:induction false} InterleavePart(parts: seq<string>, seps: seq<char>, k: nat, i: nat)
    requires |parts| == |seps| + 1
    requires k < |parts| && i < |parts[k]|
    ensures parts[k][i] in Interleave(parts, seps)
    decreases |seps|
  {
    var s := Interleave(parts, seps);
    if k == 0 {
      if seps != [] {
        assert s == parts[0] + ([seps[0]] + Interleave(parts[1..], seps[1..]));
      }
      assert s[i] == parts[0][i];
    } else {
      InterleavePart(parts[1..], seps[1..], k - 1, i);
      assert parts[1..][k - 1] == parts[k];
      assert s == parts[0] + [seps[0]] + Interleave(parts[1..], seps[1..]);
    }
  }

  /** A trailing hyphen leaves an empty last token, which does not decode. */
  lemma TrailingHyphenFails(segment: string)
    requires segment != [] && segment[|segment| - 1] == '-'
    ensures !ValidSegment(segment)
  {
    var stripped := LStrip(segment, {'_'});
    LStripSlice(segment, {'_'});
    assert stripped != [] && stripped[|stripped| - 1] == '-';
    TrailingSeparator(stripped, {'_', '-'});
    var tokens := Tokens(segment);
    assert !ValidToken(tokens[|tokens| - 1]);
  }

  /** Splitting text that ends in a separator gives an empty last part. */
  lemma {:induction false} TrailingSeparator(s: string, cs: set<char>)
    requires s != [] && s[|s| - 1] in cs
    ensures var parts := SplitAny(s, cs); parts[|parts| - 1] == []
    decreases |s|
  {
    var i := IndexOfAny(s, cs);
    IndexOfAnyFirst(s, cs);
    assert i < |s|;
    var rest := s[i + 1..];
    assert SplitAny(s, cs) == [s[..i]] + SplitAny(rest, cs);
    if rest != [] {
      assert rest[|rest| - 1] == s[|s| - 1];
      TrailingSeparator(rest, cs);
    } else {
      assert IndexOfAny(rest, cs) == 0;
    }
  }

  /** `re.sub(".webp$", ".png", filename)`: the unescaped `.` stands for any
      character but a newline, and `$` also matches before a final newline. */
  function WebpToPng(filename: string): string
  {
    var n := |filename|;
    if n >= 5 && filename[n - 4..] == "webp" && filename[n - 5] != '\n' then
      filename[..n - 5] + ".png"
    else if n >= 6 && filename[n - 1] == '\n' && filename[n - 5..n - 1] == "webp" && filename[n - 6] != '\n' then
      filename[..n - 6] + ".png\n"
    else filename
  }

  /** A name ending in `.webp` ends in `.png` instead, and so does one that
      ends in any other character (but a newline) followed by `webp`; the
      rest of the name is kept. */
  lemma WebpBecomesPng(stem: string, c: char)
    requires c != '\n'
    ensures WebpToPng(stem + [c] + "webp") == stem + ".png"
  {
    var f := stem + [c] + "webp";
    assert f[|f| - 4..] == "webp";
    assert f[..|f| - 5] == stem;
  }

  /** A name ending in `webp` and one newline is rewritten the same way,
      the newline kept. */
  lemma WebpNewlineBecomesPng(stem: string, c: char)
    requires c != '\n'
    ensures WebpToPng(stem + [c] + "webp\n") == stem + ".png\n"
  {
    var f := stem + [c] + "webp\n";
    assert f[|f| - 4..][3] == '\n';
    assert f[|f| - 5..|f| - 1] == "webp";
    assert f[..|f| - 6] == stem;
  }

  /** Those are the only names the rewrite changes. */
  lemma WebpToPngChanges(filename: string)
    ensures WebpToPng(filename) != filename <==>
      exists stem, c :: c != '\n' && (filename == stem + [c] + "webp" || filename == stem + [c] + "webp\n")
  {
    var n := |filename|;
    if n >= 5 && filename[n - 4..] == "webp" && filename[n - 5] != '\n' {
      assert filename == filename[..n - 5] + [filename[n - 5]] + "webp";
    } else if n >= 6 && filename[n - 1] == '\n' && filename[n - 5..n - 1] == "webp" && filename[n - 6] != '\n' {
      assert filename == filename[..n - 6] + [filename[n - 6]] + "webp\n";
    }
    if exists stem, c :: c != '\n' && (filename == stem + [c] + "webp" || filename == stem + [c] + "webp\n") {
      var stem, c :| c != '\n' && (filename == stem + [c] + "webp" || filename == stem + [c] + "webp\n");
      if filename == stem + [c] + "webp" {
        WebpBecomesPng(stem, c);
      } else {
        WebpNewlineBecomesPng(stem, c);
      }
    }
  }

  /** The image URL of a file: the CDN path of the vendor's image set
      followed by the file name, with `.webp` turned into `.png`. */
  function FileUrl(filename: string): string
  {
    CdnSource + Vendor + "/" + ImageSet + "/" + WebpToPng(filename)
  }

  /** The rule for one file, given the code-point segment of its name. */
  function FileRule(filename: string, segment: string): string
    requires ValidSegment(segment)
  {
    Rule(UnicodeToEmoji(Tokens(segment)), FileUrl(filename))
  }

  /** The rewrite introduces no character but those of `.png`. */
  lemma WebpToPngChars(filename: string, ch: char)
    requires ch in WebpToPng(filename)
    ensures ch in filename || ch in ".png"
  {
    var n := |filename|;
    var r := WebpToPng(filename);
    var j :| 0 <= j < |r| && r[j] == ch;
    if n >= 5 && filename[n - 4..] == "webp" && filename[n - 5] != '\n' {
      if j < n - 5 {
        assert filename[j] == ch;
      } else {
        assert ".png"[j - (n - 5)] == ch;
      }
    } else if n >= 6 && filename[n - 1] == '\n' && filename[n - 5..n - 1] == "webp" && filename[n - 6] != '\n' {
      if j < n - 6 {
        assert filename[j] == ch;
      } else if j == n - 2 {
        assert filename[n - 1] == ch;
      } else {
        assert ".png"[j - (n - 6)] == ch;
      }
    }
  }

  /** A file's rule targets the decoded emoji and points at its URL: both
      read back from the rule, unless a quote in the name or the code
      points gets in the way. */
  lemma FileRuleReadBack(filename: string, segment: string)
    requires ValidSegment(segment)
    requires '"' !in filename && '"' !in UnicodeToEmoji(Tokens(segment))
    ensures RuleLabel(FileRule(filename, segment)) == UnicodeToEmoji(Tokens(segment))
    ensures RuleUrl(FileRule(filename, segment)) == FileUrl(filename)
  {
    if '"' in WebpToPng(filename) {
      WebpToPngChars(filename, '"');
    }
    var prefix := CdnSource + Vendor + "/" + ImageSet + "/";
    assert '"' !in prefix;
    assert FileUrl(filename) == prefix + WebpToPng(filename);
    RuleReadBack(UnicodeToEmoji(Tokens(segment)), FileUrl(filename));
  }

  /** Why the generator stops at a file. */
  datatype FileErrorKind =
    | NoCodePoints  // the filename pattern finds nothing: `.group()` on None
    | BadCodePoint  // a token is empty or names no character: `int` or `chr` fails

  /** The first file (an index into the listing) the generator stops at. */
  datatype FileError = FileError(index: nat, kind: FileErrorKind)

  /** The file's code-point segment, found by the filename pattern, and
      decodable. */
  predicate Decodes(part: Option<string>)
  {
    part.Some? && ValidSegment(part.value)
  }

  /** The generator's loop over the directory listing: one rule per file,
      in listing order, with no validation and no deduplication; the
      stylesheet is `CssText` of the result. `unicodePart` is the search
      of the filename pattern in a name. The first file whose name has no
      match or whose code points do not decode stops the run. */
  method GenerateCss(filenames: seq<string>, unicodePart: string -> Option<string>)
    returns (result: Result<seq<string>, FileError>)
    ensures match result
      case Success(cssRules) =>
        && |cssRules| == |filenames|
        && forall k :: 0 <= k < |filenames| ==>
             Decodes(unicodePart(filenames[k]))
             && cssRules[k] == FileRule(filenames[k], unicodePart(filenames[k]).value)
      case Failure(e) =>
        && e.index < |filenames|
        && (forall k :: 0 <= k < e.index ==> Decodes(unicodePart(filenames[k])))
        && !Decodes(unicodePart(filenames[e.index]))
        && (e.kind == NoCodePoints <==> unicodePart(filenames[e.index]).None?)
  {
    var cssRules := [];
    for i := 0 to |filenames|
      invariant |cssRules| == i
      invariant forall k :: 0 <= k < i ==>
        Decodes(unicodePart(filenames[k]))
        && cssRules[k] == FileRule(filenames[k], unicodePart(filenames[k]).value)
    {
      var filename := filenames[i];
      var found := unicodePart(filename);
      if found.None? {
        return Failure(FileError(i, NoCodePoints));
      }
      var unicodeString := LStrip(found.value, {'_'});
      var unicodeStrings := SplitAny(unicodeString, {'_', '-'});
      assert unicodeStrings == Tokens(found.value);
      if !(forall k :: 0 <= k < |unicodeStrings| ==> ValidToken(unicodeStrings[k])) {
        return Failure(FileError(i, BadCodePoint));
      }
      var emojiChar := UnicodeToEmoji(unicodeStrings);
      var url := CdnSource + Vendor + "/" + ImageSet + "/" + WebpToPng(filename);
      var cssRule := Rule(emojiChar, url);
      cssRules := cssRules + [cssRule];
    }
    return Success(cssRules);
  }
}
