/** `create_emoji_replace_css_file`: for each emoji record, guess its image
    URL on the CDN, optionally check it and fall back through naming
    variants, then either emit a CSS rule or report the record as invalid.
    The HTTP check is the oracle `valid`: a URL is valid when the CDN
    answers it with status 200. */
module ReplaceCss {
  import opened Wrappers
  import opened Text
  import opened Css
  import opened EmojiTest
  import opened Seqs
  import LegacyNames

  /** The call-site parameters of the generator. */
  datatype Settings = Settings(vendor: string, doUrlValidation: bool)

  /** A record no candidate URL reached, as the report lists it: the record,
      its attempted URLs wrapped in a one-element list, and the legacy
      description when one was tried and is not empty. */
  datatype InvalidEntry = InvalidEntry(
    record: EmojiRecord,
    attemptedUrls: seq<seq<string>>,
    legacyDescription: Option<string>)

  /** What one record contributes: a rule, a report entry, or nothing. */
  datatype Outcome = Emitted(rule: string) | Reported(entry: InvalidEntry) | Dropped

  /** The description as it appears in image names: `": "` becomes `_`,
      commas go, then spaces become dashes. */
  function Normalize(description: string): (r: string)
    ensures ' ' !in r && ',' !in r
  {
    Replace(Replace(Replace(description, ": ", "_"), ",", ""), " ", "-")
  }

  /** A legacy name as it appears in image names: spaces become dashes. */
  function Dashed(name: string): (r: string)
    ensures ' ' !in r
  {
    Replace(name, " ", "-")
  }

  function BaseUrl(vendor: string): string
  {
    CdnSource + vendor + "/" + ImageSet
  }

  /** The lower-cased URL of the image named `stem`. */
  function ImageUrl(vendor: string, stem: string): string
  {
    Lower(BaseUrl(vendor) + "/" + stem + ".png")
  }

  /** An image URL is the lower-cased CDN path of the image set, the
      lower-cased image name and `.png`, with no upper-case ASCII letter
      anywhere. */
  lemma ImageUrlShape(vendor: string, stem: string)
    ensures var url := ImageUrl(vendor, stem);
      && url == Lower(BaseUrl(vendor) + "/") + Lower(stem) + ".png"
      && forall i :: 0 <= i < |url| ==> !('A' <= url[i] <= 'Z')
  {
    var head := BaseUrl(vendor) + "/";
    LowerAppend(head + stem, ".png");
    LowerAppend(head, stem);
    LowerAppend(head + stem + ".png", "");
    assert Lower(".png") == ".png";
  }

  /** The code points joined with dashes. */
  function CodesString(code: seq<string>): string
  {
    Join(code, "-")
  }

  /** The first guess: the normalised description and the code points. */
  function PrimaryUrl(e: EmojiRecord, vendor: string): string
  {
    ImageUrl(vendor, Normalize(e.description) + "_" + CodesString(e.code))
  }

  /** The legacy guess: the 1.0 name with dashes and the code points. */
  function LegacyUrl(e: EmojiRecord, name: string, vendor: string): string
  {
    ImageUrl(vendor, Dashed(name) + "_" + CodesString(e.code))
  }

  /** The guess with the last code point repeated after an underscore. */
  function DoubledUrl(e: EmojiRecord, vendor: string): string
    requires |e.code| >= 1
  {
    ImageUrl(vendor, Normalize(e.description) + "_" + CodesString(e.code) + "_" + e.code[|e.code| - 1])
  }

  /** The guess with the description's underscores turned into dashes. */
  function DashedUrl(e: EmojiRecord, vendor: string): string
  {
    ImageUrl(vendor, Replace(Normalize(e.description), "_", "-") + "_" + CodesString(e.code))
  }

  /** Every URL the generator may try for a record, in the order it tries
      them: the primary guess, then the legacy guess when the emoji has a
      legacy name, otherwise the doubled guess and the dashed guess. */
  function Candidates(e: EmojiRecord, legacy: map<string, string>, vendor: string): (urls: seq<string>)
    requires |e.code| >= 1
    ensures 2 <= |urls| <= 3 && urls[0] == PrimaryUrl(e, vendor)
  {
    [PrimaryUrl(e, vendor)] +
      if e.emojiChar in legacy then [LegacyUrl(e, legacy[e.emojiChar], vendor)]
      else [DoubledUrl(e, vendor), DashedUrl(e, vendor)]
  }

  /** The candidates tried when each is tried only after the previous one
      failed: a prefix of `urls` that ends at the first valid URL, or all
      of `urls` when none is valid. */
  function TakeUntilValid(urls: seq<string>, valid: string -> bool): (tried: seq<string>)
    requires urls != []
    ensures 1 <= |tried| <= |urls| && tried == urls[..|tried|]
    ensures forall j :: 0 <= j < |tried| - 1 ==> !valid(tried[j])
    ensures valid(tried[|tried| - 1]) || tried == urls
  {
    if |urls| == 1 || valid(urls[0]) then [urls[0]]
    else [urls[0]] + TakeUntilValid(urls[1..], valid)
  }

  /** The URLs a record's entry lists as attempted. */
  function AttemptedUrls(e: EmojiRecord, legacy: map<string, string>, settings: Settings, valid: string -> bool): seq<string>
    requires |e.code| >= 1
  {
    if settings.doUrlValidation then TakeUntilValid(Candidates(e, legacy, settings.vendor), valid)
    else [PrimaryUrl(e, settings.vendor)]
  }

  /** The legacy description recorded for a record: set only when the
      primary guess was checked and failed and the emoji has a legacy name. */
  function LegacyDescription(e: EmojiRecord, legacy: map<string, string>, settings: Settings, valid: string -> bool): string
  {
    if settings.doUrlValidation && !valid(PrimaryUrl(e, settings.vendor)) && e.emojiChar in legacy
    then Dashed(legacy[e.emojiChar])
    else ""
  }

  /** What a record contributes, stated over the candidate list. */
  function EntryOutcome(e: EmojiRecord, legacy: map<string, string>, settings: Settings, valid: string -> bool): Outcome
    requires |e.code| >= 1
  {
    if e.emojiChar == [] || Normalize(e.description) == [] then Dropped
    else
      var tried := AttemptedUrls(e, legacy, settings, valid);
      var url := tried[|tried| - 1];
      if !settings.doUrlValidation || valid(url) then Emitted(Rule(e.emojiChar, url))
      else
        var ld := LegacyDescription(e, legacy, settings, valid);
        Reported(InvalidEntry(e, [tried], if ld != "" then Some(ld) else None))
  }

  /** The fallback order: the primary URL comes first; without validation it
      is the only one; with validation checking stops at the first valid
      URL; after a failed primary, an emoji with a legacy name gets exactly
      one more try, the legacy guess, and one without gets the doubled
      guess and, only if that fails too, the dashed guess. */
  lemma FallbackOrder(e: EmojiRecord, legacy: map<string, string>, settings: Settings, valid: string -> bool)
    requires |e.code| >= 1
    ensures var tried := AttemptedUrls(e, legacy, settings, valid);
      var primary := PrimaryUrl(e, settings.vendor);
      && 1 <= |tried| <= 3
      && tried[0] == primary
      && (forall j :: 0 <= j < |tried| - 1 ==> !valid(tried[j]))
      && (!settings.doUrlValidation || valid(primary) ==> tried == [primary])
      && (settings.doUrlValidation && !valid(primary) && e.emojiChar in legacy ==>
            tried == [primary, LegacyUrl(e, legacy[e.emojiChar], settings.vendor)])
      && (settings.doUrlValidation && !valid(primary) && e.emojiChar !in legacy ==>
            && |tried| >= 2 && tried[1] == DoubledUrl(e, settings.vendor)
            && (|tried| == 3 <==> !valid(DoubledUrl(e, settings.vendor)))
            && (|tried| == 3 ==> tried[2] == DashedUrl(e, settings.vendor)))
  {
    if settings.doUrlValidation {
      var urls := Candidates(e, legacy, settings.vendor);
      var tried := TakeUntilValid(urls, valid);
      if !valid(urls[0]) {
        assert tried == [urls[0]] + TakeUntilValid(urls[1..], valid);
        if e.emojiChar !in legacy && !valid(urls[1]) {
          assert TakeUntilValid(urls[1..], valid) == [urls[1]] + TakeUntilValid(urls[2..], valid);
        }
      }
    }
  }

  /** What a record contributes: a record with a character and a non-empty
      normalised description gets a rule exactly when validation is off or
      some attempted URL is valid, and the rule uses the last attempted URL;
      otherwise it is reported with its attempted URLs wrapped in a list and
      with its legacy description only when that is not empty. A record
      without a character or description contributes to neither list. */
  lemma OutcomeSpec(e: EmojiRecord, legacy: map<string, string>, settings: Settings, valid: string -> bool)
    requires |e.code| >= 1
    ensures var o := EntryOutcome(e, legacy, settings, valid);
      var tried := AttemptedUrls(e, legacy, settings, valid);
      var named := e.emojiChar != [] && Normalize(e.description) != [];
      var ld := LegacyDescription(e, legacy, settings, valid);
      && (o.Dropped? <==> !named)
      && (o.Emitted? <==> named && (!settings.doUrlValidation || exists j :: 0 <= j < |tried| && valid(tried[j])))
      && (o.Emitted? ==> o.rule == Rule(e.emojiChar, tried[|tried| - 1]))
      && (o.Reported? <==> named && settings.doUrlValidation && forall j :: 0 <= j < |tried| ==> !valid(tried[j]))
      && (o.Reported? ==>
            && o.entry.record == e
            && o.entry.attemptedUrls == [tried]
            && (o.entry.legacyDescription.Some? <==> ld != "")
            && (ld != "" ==> o.entry.legacyDescription == Some(ld)))
  {
    var tried := AttemptedUrls(e, legacy, settings, valid);
    if settings.doUrlValidation && (exists j :: 0 <= j < |tried| && valid(tried[j])) {
      var j :| 0 <= j < |tried| && valid(tried[j]);
      assert valid(tried[|tried| - 1]);
    }
  }

  /** The body of the loop of `create_emoji_replace_css_file` for one
      record, step by step as the script runs it. */
  method ProcessRecord(e: EmojiRecord, legacy: map<string, string>, settings: Settings, valid: string -> bool)
    returns (outcome: Outcome)
    requires |e.code| >= 1
    ensures outcome == EntryOutcome(e, legacy, settings, valid)
  {
    var emojiChar := e.emojiChar;
    var description := Normalize(e.description);
    var codes := CodesString(e.code);
    var legacyDescription := "";
    if emojiChar == [] || description == [] {
      return Dropped;
    }
    var emojiUrl := ImageUrl(settings.vendor, description + "_" + codes);
    var attemptedUrls := [emojiUrl];
    var urlIsValid := false;
    if settings.doUrlValidation {
      if valid(emojiUrl) {
        urlIsValid := true;
      } else if emojiChar in legacy {
        legacyDescription := Dashed(legacy[emojiChar]);
        emojiUrl := ImageUrl(settings.vendor, legacyDescription + "_" + codes);
        attemptedUrls := attemptedUrls + [emojiUrl];
        urlIsValid := valid(emojiUrl);
      } else {
        emojiUrl := ImageUrl(settings.vendor, description + "_" + codes + "_" + e.code[|e.code| - 1]);
        attemptedUrls := attemptedUrls + [emojiUrl];
        urlIsValid := valid(emojiUrl);
        if !urlIsValid {
          emojiUrl := ImageUrl(settings.vendor, Replace(description, "_", "-") + "_" + codes);
          attemptedUrls := attemptedUrls + [emojiUrl];
          urlIsValid := valid(emojiUrl);
        }
      }
      FallbackOrder(e, legacy, settings, valid);
      assert attemptedUrls == AttemptedUrls(e, legacy, settings, valid);
      if !urlIsValid {
        var entryLegacy := if legacyDescription != "" then Some(legacyDescription) else None;
        return Reported(InvalidEntry(e, [attemptedUrls], entryLegacy));
      }
    }
    outcome := Emitted(Rule(emojiChar, emojiUrl));
  }

  /** The outcome of every record, in order. */
  function Outcomes(records: seq<EmojiRecord>, legacy: map<string, string>, settings: Settings, valid: string -> bool): (os: seq<Outcome>)
    requires forall k :: 0 <= k < |records| ==> |records[k].code| >= 1
    ensures |os| == |records|
    ensures forall k :: 0 <= k < |records| ==> os[k] == EntryOutcome(records[k], legacy, settings, valid)
  {
    seq(|records|, k requires 0 <= k < |records| => EntryOutcome(records[k], legacy, settings, valid))
  }

  lemma OutcomesExtend(records: seq<EmojiRecord>, i: nat, legacy: map<string, string>, settings: Settings, valid: string -> bool)
    requires i < |records|
    requires forall k :: 0 <= k < |records| ==> |records[k].code| >= 1
    ensures Outcomes(records[..i + 1], legacy, settings, valid)
      == Outcomes(records[..i], legacy, settings, valid) + [EntryOutcome(records[i], legacy, settings, valid)]
  {
    var a := Outcomes(records[..i + 1], legacy, settings, valid);
    var b := Outcomes(records[..i], legacy, settings, valid) + [EntryOutcome(records[i], legacy, settings, valid)];
    assert |a| == |b|;
    forall k | 0 <= k < |a| ensures a[k] == b[k] {
      assert records[..i + 1][k] == records[k];
    }
  }

  /** The rules of the emitted outcomes, in order. */
  function RulesOf(os: seq<Outcome>): seq<string>
  {
    if os == [] then []
    else
      var earlier := RulesOf(os[..|os| - 1]);
      match os[|os| - 1]
      case Emitted(rule) => earlier + [rule]
      case _ => earlier
  }

  /** The entries of the reported outcomes, in order. */
  function ReportOf(os: seq<Outcome>): seq<InvalidEntry>
  {
    if os == [] then []
    else
      var earlier := ReportOf(os[..|os| - 1]);
      match os[|os| - 1]
      case Reported(entry) => earlier + [entry]
      case _ => earlier
  }

  /** Every outcome lands in at most one of the two lists, and a list only
      holds what the outcomes put there: rules and entries together number
      the records that were not dropped. */
  lemma {:induction false} ListsPartition(os: seq<Outcome>)
    ensures |RulesOf(os)| + |ReportOf(os)| == |os| - |set k | 0 <= k < |os| && os[k].Dropped?|
  {
    if os != [] {
      var init := os[..|os| - 1];
      ListsPartition(init);
      var dropped := set k | 0 <= k < |os| && os[k].Dropped?;
      var droppedInit := set k | 0 <= k < |init| && init[k].Dropped?;
      if os[|os| - 1].Dropped? {
        assert dropped == droppedInit + {|os| - 1};
      } else {
        assert dropped == droppedInit;
      }
    }
  }

  /** Without validation no record is reported. */
  lemma {:induction false} NoReportWithoutValidation(
    records: seq<EmojiRecord>, legacy: map<string, string>, settings: Settings, valid: string -> bool)
    requires forall k :: 0 <= k < |records| ==> |records[k].code| >= 1
    requires !settings.doUrlValidation
    ensures ReportOf(Outcomes(records, legacy, settings, valid)) == []
  {
    if records != [] {
      var init := records[..|records| - 1];
      NoReportWithoutValidation(init, legacy, settings, valid);
      assert Outcomes(records, legacy, settings, valid)[..|records| - 1] == Outcomes(init, legacy, settings, valid);
    }
  }

  /** `create_emoji_replace_css_file` over the parsed records and legacy
      table: the rules for the CSS file and the final invalid list, both in
      record order. */
  method CreateEmojiReplaceCss(records: seq<EmojiRecord>, legacy: map<string, string>, settings: Settings, valid: string -> bool)
    returns (cssRules: seq<string>, invalidEmojis: seq<InvalidEntry>)
    requires forall k :: 0 <= k < |records| ==> |records[k].code| >= 1
    ensures cssRules == RulesOf(Outcomes(records, legacy, settings, valid))
    ensures invalidEmojis == ReportOf(Outcomes(records, legacy, settings, valid))
  {
    cssRules := [];
    invalidEmojis := [];
    var i := 0;
    while i < |records|
      invariant 0 <= i <= |records|
      invariant cssRules == RulesOf(Outcomes(records[..i], legacy, settings, valid))
      invariant invalidEmojis == ReportOf(Outcomes(records[..i], legacy, settings, valid))
    {
      var outcome := ProcessRecord(records[i], legacy, settings, valid);
      OutcomesExtend(records, i, legacy, settings, valid);
      match outcome {
        case Emitted(rule) =>
          cssRules := cssRules + [rule];
        case Reported(entry) =>
          invalidEmojis := invalidEmojis + [entry];
        case Dropped =>
      }
      i := i + 1;
    }
    assert records[..i] == records;
  }

  /** Which input could not be read. */
  datatype SourceError =
    | EmojiTestError(testError: ParseError)
    | LegacyNamesError(legacyError: LegacyNames.LegacyError)

  /** The whole run once both reference files are fetched: parse the
      emoji-test file, then the legacy file, then build the stylesheet text
      and the invalid list. */
  method GenerateFromUnicodeData(testText: string, legacyText: string, settings: Settings, valid: string -> bool)
    returns (result: Result<(string, seq<InvalidEntry>), SourceError>)
    ensures var testLines, legacyLines := SplitLines(testText), SplitLines(legacyText);
      var testResults := Map(ParseTestLine, testLines);
      var legacyResults := Map(LegacyNames.ParseLegacyLine, legacyLines);
      match result
      case Success((css, report)) =>
        var records := KeptRecords(testLines);
        var legacy := LegacyNames.TableOf(legacyResults);
        && (forall i :: 0 <= i < |testLines| ==> !testResults[i].Fail?)
        && (forall i :: 0 <= i < |legacyLines| ==> !legacyResults[i].Bad?)
        && (forall k :: 0 <= k < |records| ==> WellFormed(records[k]))
        && css == CssText(RulesOf(Outcomes(records, legacy, settings, valid)))
        && report == ReportOf(Outcomes(records, legacy, settings, valid))
      case Failure(EmojiTestError(e)) =>
        && e.line < |testLines|
        && testResults[e.line] == Fail(e.kind)
        && (forall i :: 0 <= i < e.line ==> !testResults[i].Fail?)
      case Failure(LegacyNamesError(e)) =>
        && (forall i :: 0 <= i < |testLines| ==> !testResults[i].Fail?)
        && e.line < |legacyLines|
        && legacyResults[e.line] == LegacyNames.Bad(e.kind)
        && (forall i :: 0 <= i < e.line ==> !legacyResults[i].Bad?)
  {
    var parsed := ProcessEmojiList(testText);
    if parsed.Failure? {
      return Failure(EmojiTestError(parsed.error));
    }
    var table := LegacyNames.ProcessV1EmojiList(legacyText);
    if table.Failure? {
      return Failure(LegacyNamesError(table.error));
    }
    var records := parsed.value;
    KeptRecordsWellFormed(SplitLines(testText));
    var cssRules, invalidEmojis := CreateEmojiReplaceCss(records, table.value, settings, valid);
    return Success((CssText(cssRules), invalidEmojis));
  }
}
