/** The CSS both generators emit: one rule per emoji that swaps the glyph of
    `img.emoji[aria-label=...]` for an image on the emoji CDN. */
module Css {
  import opened Text

  /** The CDN host and path prefix; a vendor name and the image set follow. */
  const CdnSource := "https://em-content.zobj.net/source/"

  /** The image-set directory both generators hard-code. */
  const ImageSet := "391"

  const RuleHead := "img.emoji[aria-label=\""
  const RuleMid := "\"] { content: url(\""
  const RuleTail := "\"); }"

  /** The rule text written for one emoji. */
  function Rule(emojiChar: string, url: string): string
  {
    RuleHead + emojiChar + RuleMid + url + RuleTail
  }

  /** The text of `s` up to its first double quote. */
  function UpToQuote(s: string): string
  {
    s[..IndexOfAny(s, {'"'})]
  }

  /** The aria label a rule targets: the text between the rule head and the
      next double quote. */
  function RuleLabel(rule: string): string
  {
    if |rule| < |RuleHead| then "" else UpToQuote(rule[|RuleHead|..])
  }

  /** The URL a rule points at: the text between the `url("` that follows
      the label and the next double quote. */
  function RuleUrl(rule: string): string
  {
    var at := |RuleHead| + |RuleLabel(rule)| + |RuleMid|;
    if at > |rule| then "" else UpToQuote(rule[at..])
  }

  lemma UpToQuoteStops(x: string, rest: string)
    requires '"' !in x && rest != [] && rest[0] == '"'
    ensures UpToQuote(x + rest) == x
  {
    var s := x + rest;
    assert s[..|x|] == x;
    assert forall j :: 0 <= j < |x| ==> s[j] == x[j];
    IndexOfAnyAt(s, {'"'}, |x|);
  }

  /** A rule names its emoji and its URL unambiguously as long as neither
      contains a double quote: both can be read back from the rule text. */
  lemma RuleReadBack(emojiChar: string, url: string)
    requires '"' !in emojiChar && '"' !in url
    ensures RuleLabel(Rule(emojiChar, url)) == emojiChar
    ensures RuleUrl(Rule(emojiChar, url)) == url
  {
    var rule := Rule(emojiChar, url);
    assert rule[|RuleHead|..] == emojiChar + (RuleMid + url + RuleTail);
    UpToQuoteStops(emojiChar, RuleMid + url + RuleTail);
    var at := |RuleHead| + |emojiChar| + |RuleMid|;
    assert rule[at..] == url + RuleTail;
    UpToQuoteStops(url, RuleTail);
  }

  /** The stylesheet text: the rules joined with newlines. */
  function CssText(rules: seq<string>): string
  {
    Join(rules, "\n")
  }

  /** Reading the stylesheet back line by line gives the rules in order, as
      long as no rule holds a line boundary. */
  lemma CssTextLines(rules: seq<string>)
    requires forall k :: 0 <= k < |rules| ==> NoneOf(rules[k], LineBreaks)
    requires forall k :: 0 <= k < |rules| ==> rules[k] != []
    ensures SplitLines(CssText(rules)) == rules
  {
    SplitLinesJoin(rules);
  }
}
