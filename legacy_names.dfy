/** Reading the Emoji 1.0 `emoji-data.txt` file into a table from an emoji
    to its 1.0-era name: on each data line the emoji sits between the first
    `(` and the next `)`, and the name follows. */
module LegacyNames {
  import opened Wrappers
  import opened Text
  import opened Seqs

  /** Why a data line cannot be read; each is an IndexError that stops the script. */
  datatype LegacyLineError =
    | NoOpenParen   // no `(` on the line
    | NoCloseParen  // no `)` after the first `(`

  /** The first line (an index into the file's lines) that cannot be read. */
  datatype LegacyError = LegacyError(line: nat, kind: LegacyLineError)

  /** The lines the loop reads: not a `#` comment, longer than one character. */
  predicate IsDataLine(line: string)
  {
    !(|line| > 0 && line[0] == '#') && |line| > 1
  }

  /** What the loop does with one line. */
  datatype LegacyLine = Ignore | Entry(key: string, name: string) | Bad(kind: LegacyLineError)

  /** The body of the loop of `process_v1_emoji_list` for one line. */
  function ParseLegacyLine(line: string): LegacyLine
  {
    if !IsDataLine(line) then Ignore
    else match SplitOnce(line, '(')
      case None => Bad(NoOpenParen)
      case Some((_, afterOpen)) =>
        match SplitOnce(afterOpen, ')')
        case None => Bad(NoCloseParen)
        case Some((inside, after)) => Entry(Strip(inside), Strip(after))
  }

  /** A data line fails without `(`, and also without `)` after its
      first `(`. */
  lemma LegacyBadShape(line: string)
    requires ParseLegacyLine(line).Bad?
    ensures IsDataLine(line)
    ensures ParseLegacyLine(line).kind == NoOpenParen <==> '(' !in line
    ensures ParseLegacyLine(line).kind == NoCloseParen ==>
      '(' in line && ')' !in SplitOnce(line, '(').value.1
  {
    if '(' in line {
      var (before, _) := SplitOnce(line, '(').value;
      assert line[|before|] == '(';
    }
  }

  /** A data line whose first `(` is followed, later, by a `)` gives the
      entry from the stripped text between them to the stripped text after
      that `)`. */
  lemma LegacyEntryOf(line: string, before: string, inside: string, after: string)
    requires IsDataLine(line)
    requires line == before + "(" + inside + ")" + after
    requires '(' !in before && ')' !in inside
    ensures ParseLegacyLine(line) == Entry(Strip(inside), Strip(after))
  {
    var afterOpen := inside + ")" + after;
    SplitOnceAt(afterOpen, ')', inside, after);
    assert line == before + "(" + afterOpen;
    SplitOnceAt(line, '(', before, afterOpen);
  }

  /** Comment and blank lines are skipped; the other lines give an entry
      or fail. */
  lemma LegacyLineShape(line: string)
    ensures ParseLegacyLine(line).Ignore? <==> !IsDataLine(line)
    ensures ParseLegacyLine(line).Entry? <==>
      && IsDataLine(line) && '(' in line
      && ')' in SplitOnce(line, '(').value.1
  {
    if ParseLegacyLine(line).Bad? {
      LegacyBadShape(line);
    }
  }

  /** The line outcome sets a name for `key`. */
  predicate Defines(parsed: LegacyLine, key: string)
  {
    parsed.Entry? && parsed.key == key
  }

  /** The table the loop builds from the line outcomes: each entry sets its
      key, overwriting what an earlier entry set. */
  function TableOf(parsed: seq<LegacyLine>): map<string, string>
  {
    if parsed == [] then map[]
    else
      var earlier := TableOf(parsed[..|parsed| - 1]);
      match parsed[|parsed| - 1]
      case Entry(key, name) => earlier[key := name]
      case _ => earlier
  }

  /** The table's keys are exactly the keys some line defines. */
  lemma {:induction false} TableKeys(parsed: seq<LegacyLine>, key: string)
    ensures key in TableOf(parsed) <==> exists i :: 0 <= i < |parsed| && Defines(parsed[i], key)
  {
    if parsed != [] {
      var init := parsed[..|parsed| - 1];
      TableKeys(init, key);
      if !Defines(parsed[|parsed| - 1], key) {
        if exists i :: 0 <= i < |parsed| && Defines(parsed[i], key) {
          var i :| 0 <= i < |parsed| && Defines(parsed[i], key);
          assert init[i] == parsed[i];
        }
        if exists i :: 0 <= i < |init| && Defines(init[i], key) {
          var i :| 0 <= i < |init| && Defines(init[i], key);
          assert parsed[i] == init[i];
        }
      }
    }
  }

  /** A later line with the same key overwrites an earlier one: a key maps
      to the name on the last line that defines it. */
  lemma {:induction false} LastDefinitionWins(parsed: seq<LegacyLine>, i: nat, key: string)
    requires i < |parsed| && Defines(parsed[i], key)
    requires forall j :: i < j < |parsed| ==> !Defines(parsed[j], key)
    ensures key in TableOf(parsed)
    ensures TableOf(parsed)[key] == parsed[i].name
  {
    var init := parsed[..|parsed| - 1];
    if i < |parsed| - 1 {
      assert !Defines(parsed[|parsed| - 1], key);
      LastDefinitionWins(init, i, key);
    }
  }

  /** The loop of `process_v1_emoji_list` over the lines, for a given way of
      reading one line: fills the table in line order and stops at the
      first line that cannot be read. */
  method BuildTable(lines: seq<string>, parse: string -> LegacyLine)
    returns (result: Result<map<string, string>, LegacyError>)
    ensures var results := Map(parse, lines);
      match result
      case Success(table) =>
        && (forall i :: 0 <= i < |lines| ==> !results[i].Bad?)
        && table == TableOf(results)
      case Failure(e) =>
        && e.line < |lines|
        && results[e.line] == Bad(e.kind)
        && (forall i :: 0 <= i < e.line ==> !results[i].Bad?)
  {
    ghost var results := Map(parse, lines);
    var lookupTable: map<string, string> := map[];
    var i := 0;
    while i < |lines|
      invariant 0 <= i <= |lines|
      invariant forall j :: 0 <= j < i ==> !results[j].Bad?
      invariant lookupTable == TableOf(results[..i])
    {
      var line := parse(lines[i]);
      assert results[..i + 1][..i] == results[..i];
      match line {
        case Ignore =>
        case Entry(key, name) =>
          lookupTable := lookupTable[key := name];
        case Bad(kind) =>
          return Failure(LegacyError(i, kind));
      }
      i := i + 1;
    }
    assert results[..i] == results;
    return Success(lookupTable);
  }

  /** `process_v1_emoji_list` once the file is fetched: reads the lines of
      `text` in order into the table; the first unreadable line stops it.
      `results[i]` is what `ParseLegacyLine` makes of line `i`. */
  method ProcessV1EmojiList(text: string) returns (result: Result<map<string, string>, LegacyError>)
    ensures var lines := SplitLines(text);
      var results := Map(ParseLegacyLine, lines);
      match result
      case Success(table) =>
        && (forall i :: 0 <= i < |lines| ==> !results[i].Bad?)
        && table == TableOf(results)
      case Failure(e) =>
        && e.line < |lines|
        && results[e.line] == Bad(e.kind)
        && (forall i :: 0 <= i < e.line ==> !results[i].Bad?)
  {
    result := BuildTable(SplitLines(text), ParseLegacyLine);
  }
}
