/** Reading the `emoji-test.txt` data file of Unicode Technical Standard #51
    (Annex A): one record per fully-qualified emoji line, in file order.
    A data line reads `<code points> ; <status> # <emoji> E<version> <name>`. */
module EmojiTest {
  import opened Wrappers
  import opened Text
  import opened Seqs

  /** One emoji as the generator keeps it. */
  datatype EmojiRecord = EmojiRecord(emojiChar: string, description: string, code: seq<string>)

  /** Why a data line cannot be read; each is an IndexError that stops the script. */
  datatype LineError =
    | NoSemicolon   // no `;` on the line
    | NoComment     // a fully-qualified line without `#`
    | ShortComment  // fewer than three space-separated pieces after `#`

  /** The first line (an index into the file's lines) that cannot be read. */
  datatype ParseError = ParseError(line: nat, kind: LineError)

  /** What the loop does with one line. */
  datatype LineResult = Skip | Keep(record: EmojiRecord) | Fail(kind: LineError)

  const FullyQualified := "fully-qualified"

  /** The lines the loop looks at: not a `#` comment, longer than one character. */
  predicate IsDataLine(line: string)
  {
    !(|line| > 0 && line[0] == '#') && |line| > 1
  }

  /** The status of a line, given the text after its first `;`: that text up
      to the next `#` (all of it when there is none), stripped. */
  function Status(afterSemicolon: string): string
  {
    match SplitOnce(afterSemicolon, '#')
    case None => Strip(afterSemicolon)
    case Some((status, _)) => Strip(status)
  }

  /** A data line with a `;` whose status reads exactly `fully-qualified`. */
  predicate Selected(line: string)
  {
    && IsDataLine(line)
    && SplitOnce(line, ';').Some?
    && Status(SplitOnce(line, ';').value.1) == FullyQualified
  }

  /** The comment after `#`, stripped and cut at its first two spaces: the
      emoji and the description (stripped); the version token between them
      is not used. None when there are fewer than three pieces. */
  function ParseComment(comment: string): Option<(string, string)>
  {
    match SplitOnce(Strip(comment), ' ')
    case None => None
    case Some((emojiChar, afterChar)) =>
      match SplitOnce(afterChar, ' ')
      case None => None
      case Some((_, description)) => Some((emojiChar, Strip(description)))
  }

  /** The body of the loop of `process_emoji_list` for one line. */
  function ParseTestLine(line: string): LineResult
  {
    if !IsDataLine(line) then Skip
    else match SplitOnce(line, ';')
      case None => Fail(NoSemicolon)
      case Some((codes, rest)) =>
        if Status(rest) != FullyQualified then Skip
        else match SplitOnce(rest, '#')
          case None => Fail(NoComment)
          case Some((_, comment)) =>
            match ParseComment(comment)
            case None => Fail(ShortComment)
            case Some((emojiChar, description)) =>
              Keep(EmojiRecord(emojiChar, description, SplitAny(Strip(codes), {' '})))
  }

  /** Which lines survive the filter: a line is skipped exactly when it is a
      comment or blank, or has a `;` and a status other than
      `fully-qualified` (minimally-qualified, unqualified, component); it
      yields a record only when selected; it fails for want of a `;` exactly
      when it is a data line without one. */
  lemma LineFilter(line: string)
    ensures var r := ParseTestLine(line);
      && (r.Skip? <==> !IsDataLine(line) || (SplitOnce(line, ';').Some? && !Selected(line)))
      && (r.Keep? ==> Selected(line))
      && (r == Fail(NoSemicolon) <==> IsDataLine(line) && ';' !in line)
  {
  }

  /** A readable comment: its first token is the emoji, never empty and free
      of spaces, and the description is never empty; a comment is unreadable
      exactly when its stripped text has fewer than two spaces. */
  lemma CommentShape(comment: string)
    ensures ParseComment(comment).None? <==>
      var c := Strip(comment);
      ' ' !in c || ' ' !in SplitOnce(c, ' ').value.1
    ensures ParseComment(comment).Some? ==>
      var (emojiChar, desc) := ParseComment(comment).value;
      emojiChar != [] && ' ' !in emojiChar && desc != []
  {
    var c := Strip(comment);
    if ParseComment(comment).Some? {
      var (emojiChar, afterChar) := SplitOnce(c, ' ').value;
      var (version, description) := SplitOnce(afterChar, ' ').value;
      assert ' ' in Whitespace;
      assert c[|c| - 1] == afterChar[|afterChar| - 1];
      assert description != [] && description[|description| - 1] == c[|c| - 1];
      StripAnySlice(description, Whitespace);
    }
  }

  /** A stripped comment `<emoji> <version> <description>`, whose first two
      pieces hold no space, reads as the emoji and the stripped description. */
  lemma CommentOf(comment: string, emojiChar: string, version: string, description: string)
    requires Strip(comment) == emojiChar + " " + version + " " + description
    requires ' ' !in emojiChar && ' ' !in version
    ensures ParseComment(comment) == Some((emojiChar, Strip(description)))
  {
    var afterChar := version + " " + description;
    SplitOnceAt(afterChar, ' ', version, description);
    assert Strip(comment) == emojiChar + " " + afterChar;
    SplitOnceAt(Strip(comment), ' ', emojiChar, afterChar);
  }

  /** The code points of a line: the stripped text before `;` cut at each
      single space; at least one piece, none holding a space, and joined
      back with spaces they give that text again. */
  lemma CodeShape(codes: string)
    ensures var code := SplitAny(Strip(codes), {' '});
      && |code| >= 1
      && Join(code, " ") == Strip(codes)
      && (forall k :: 0 <= k < |code| ==> ' ' !in code[k])
  {
    var code := SplitAny(Strip(codes), {' '});
    SplitJoin(Strip(codes), ' ');
    SplitAnyParts(Strip(codes), {' '});
    forall k | 0 <= k < |code| ensures ' ' !in code[k] {
      assert NoneOf(code[k], {' '});
    }
  }

  /** A kept line's record is made of the pieces of its comment and of its
      code points, and has a character, a description and a code point. */
  lemma RecordShape(line: string)
    requires ParseTestLine(line).Keep?
    ensures var r := ParseTestLine(line).record;
      var (codes, rest) := SplitOnce(line, ';').value;
      && SplitOnce(rest, '#').Some?
      && ParseComment(SplitOnce(rest, '#').value.1) == Some((r.emojiChar, r.description))
      && r.code == SplitAny(Strip(codes), {' '})
      && r.emojiChar != [] && r.description != [] && |r.code| >= 1
  {
    var (codes, rest) := SplitOnce(line, ';').value;
    CommentShape(SplitOnce(rest, '#').value.1);
    CodeShape(codes);
  }

  /** The records among the line outcomes, in order. */
  function KeptOf(results: seq<LineResult>): (records: seq<EmojiRecord>)
    ensures |records| <= |results|
  {
    if results == [] then []
    else
      var earlier := KeptOf(results[..|results| - 1]);
      match results[|results| - 1]
      case Keep(r) => earlier + [r]
      case _ => earlier
  }

  /** The records the file yields, in the order of their lines; never more
      than there are lines. */
  function KeptRecords(lines: seq<string>): (records: seq<EmojiRecord>)
    ensures |records| <= |lines|
  {
    KeptOf(Map(ParseTestLine, lines))
  }

  lemma {:induction false} KeptOfAppend(a: seq<LineResult>, b: seq<LineResult>)
    ensures KeptOf(a + b) == KeptOf(a) + KeptOf(b)
    decreases |b|
  {
    if b == [] {
      assert a + b == a;
    } else {
      var b' := b[..|b| - 1];
      assert (a + b)[..|a + b| - 1] == a + b';
      KeptOfAppend(a, b');
    }
  }

  /** Records keep the relative order of their lines: the records of a file
      are those of its first part followed by those of the rest. */
  lemma KeptRecordsAppend(a: seq<string>, b: seq<string>)
    ensures KeptRecords(a + b) == KeptRecords(a) + KeptRecords(b)
  {
    MapAppend(ParseTestLine, a, b);
    KeptOfAppend(Map(ParseTestLine, a), Map(ParseTestLine, b));
  }

  lemma {:induction false} KeptOfMembership(results: seq<LineResult>, r: EmojiRecord)
    ensures r in KeptOf(results) <==> exists i :: 0 <= i < |results| && results[i] == Keep(r)
  {
    if results != [] {
      var init := results[..|results| - 1];
      KeptOfMembership(init, r);
      if r in KeptOf(results) && r in KeptOf(init) {
        var i :| 0 <= i < |init| && init[i] == Keep(r);
        assert results[i] == init[i];
      }
      if exists i :: 0 <= i < |results| && results[i] == Keep(r) {
        var i :| 0 <= i < |results| && results[i] == Keep(r);
        if i < |results| - 1 {
          assert init[i] == results[i];
        }
      }
    }
  }

  /** A record comes from a kept line, and every kept line gives its record. */
  lemma KeptRecordsFromLines(lines: seq<string>, r: EmojiRecord)
    ensures r in KeptRecords(lines) <==> exists i :: 0 <= i < |lines| && ParseTestLine(lines[i]) == Keep(r)
  {
    var results := Map(ParseTestLine, lines);
    KeptOfMembership(results, r);
    if exists i :: 0 <= i < |lines| && ParseTestLine(lines[i]) == Keep(r) {
      var i :| 0 <= i < |lines| && ParseTestLine(lines[i]) == Keep(r);
      assert results[i] == Keep(r);
    }
  }

  /** What the URL builder needs of a record: a character and a code point. */
  predicate WellFormed(r: EmojiRecord)
  {
    r.emojiChar != [] && |r.code| >= 1
  }

  lemma {:induction false} KeptOfWellFormed(results: seq<LineResult>)
    requires forall i :: 0 <= i < |results| && results[i].Keep? ==> WellFormed(results[i].record)
    ensures forall k :: 0 <= k < |KeptOf(results)| ==> WellFormed(KeptOf(results)[k])
  {
    if results != [] {
      KeptOfWellFormed(results[..|results| - 1]);
    }
  }

  /** Every record the file yields is well formed. */
  lemma KeptRecordsWellFormed(lines: seq<string>)
    ensures forall k :: 0 <= k < |KeptRecords(lines)| ==> WellFormed(KeptRecords(lines)[k])
  {
    var results := Map(ParseTestLine, lines);
    forall i | 0 <= i < |results| && results[i].Keep? ensures WellFormed(results[i].record) {
      RecordShape(lines[i]);
    }
    KeptOfWellFormed(results);
  }

  /** The loop of `process_emoji_list` over the lines, for a given way of
      reading one line: collects the records in order and stops at the
      first line that cannot be read. */
  method CollectRecords(lines: seq<string>, parse: string -> LineResult)
    returns (result: Result<seq<EmojiRecord>, ParseError>)
    ensures var results := Map(parse, lines);
      match result
      case Success(records) =>
        && (forall i :: 0 <= i < |lines| ==> !results[i].Fail?)
        && records == KeptOf(results)
      case Failure(e) =>
        && e.line < |lines|
        && results[e.line] == Fail(e.kind)
        && (forall i :: 0 <= i < e.line ==> !results[i].Fail?)
  {
    ghost var results := Map(parse, lines);
    var records: seq<EmojiRecord> := [];
    var i := 0;
    while i < |lines|
      invariant 0 <= i <= |lines|
      invariant forall j :: 0 <= j < i ==> !results[j].Fail?
      invariant records == KeptOf(results[..i])
    {
      var outcome := parse(lines[i]);
      assert results[..i + 1][..i] == results[..i];
      match outcome {
        case Skip =>
        case Keep(r) =>
          records := records + [r];
        case Fail(kind) =>
          return Failure(ParseError(i, kind));
      }
      i := i + 1;
    }
    assert results[..i] == results;
    return Success(records);
  }

  /** `process_emoji_list`: reads the lines of `text` in order and collects a
      record for each fully-qualified one; the first unreadable line stops it.
      `results[i]` is what `ParseTestLine` makes of line `i`. */
  method ProcessEmojiList(text: string) returns (result: Result<seq<EmojiRecord>, ParseError>)
    ensures var lines := SplitLines(text);
      var results := Map(ParseTestLine, lines);
      match result
      case Success(records) =>
        && (forall i :: 0 <= i < |lines| ==> !results[i].Fail?)
        && records == KeptRecords(lines)
      case Failure(e) =>
        && e.line < |lines|
        && results[e.line] == Fail(e.kind)
        && (forall i :: 0 <= i < e.line ==> !results[i].Fail?)
  {
    result := CollectRecords(SplitLines(text), ParseTestLine);
  }
}
