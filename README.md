# Emoji replacement CSS generators, modelled in Dafny

The repository turns emoji data into a stylesheet of rules of the form
`img.emoji[aria-label="<emoji>"] { content: url("<image url>"); }`. It does this in two ways.

- **From the Unicode data files** (`generate-from-unicode-api/fetch_from_unicode.py`):
  - reads `emoji-test.txt` (Unicode Technical Standard #51, Annex A) into one record per fully-qualified emoji;
  - reads the Emoji 1.0 `emoji-data.txt` into a table of 1.0-era names;
  - for each record, guesses an image URL on the emoji CDN, optionally checks it, and falls back through up to two naming variants;
  - then either writes a CSS rule or reports the record as invalid.
- **From a folder of downloaded images** (`generate_css.py`):
  - decodes the hex code points in each file name into the emoji;
  - writes one rule per file, pointing at the same name on the CDN, with `.webp` turned into `.png`.

Modules:

| module | file | what it holds |
|---|---|---|
| `Wrappers` | wrappers.dfy | `Option`, `Result` |
| `Seqs` | seqs.dfy | `Map`, the per-element image of a sequence |
| `Text` | text.dfy | Python's `str` operations as the scripts use them: `strip`, `lstrip`, `split(c, 1)`, `split(c)`, `re.split("[_-]")`, `splitlines`, `replace`, `join`, ASCII `lower` |
| `Css` | css.dfy | the CDN prefix, the rule template, reading a rule back, the stylesheet text |
| `EmojiTest` | emoji_test.dfy | `process_emoji_list` |
| `LegacyNames` | legacy_names.dfy | the loop of `process_v1_emoji_list` |
| `ReplaceCss` | replace_css.dfy | `create_emoji_replace_css_file`, with `check_url_validity` as an oracle |
| `FilenameCss` | filename_css.dfy | `unicode_to_emoji` and the loop over the file names |

How the model is built:

- **Loops.** The loops that append to a list or fill a dictionary are methods with loop invariants.
  - Each is proved against a function over the inputs: `KeptRecords`, `TableOf`, `Outcomes` with `RulesOf`/`ReportOf`, and `FileRule`.
  - The properties are proved as lemmas about those functions.
  - `CollectRecords` and `BuildTable` take the reading of one line as a parameter. `ProcessEmojiList` and `ProcessV1EmojiList` call them with `ParseTestLine` and `ParseLegacyLine`.
- **Crashes.** An `IndexError` that stops the script is a `Failure` naming the first line it stops at. So is a `.group()` on `None`, an `int`/`chr` that rejects a token, or a missing `)`.
- **Network.** A URL check is the parameter `valid: string -> bool`: valid when the CDN answers 200. The fetched texts are parameters; a failed fetch is the empty text.

Where the code is stricter than a loose reading of it, the model follows the code:

- A data line without `;`, a fully-qualified line without `#`, or a comment with fewer than three space-separated pieces stops `process_emoji_list`; the line is not skipped.
- In the legacy file, a data line without `(`, or without `)` after its first `(`, stops the loop.
- A record with no legacy name whose three candidate URLs all fail is reported with exactly three attempted URLs, never four.
- A fully-qualified status is read from the text between the first `;` and the next `#`. A non-fully-qualified line without `#` is skipped, not an error.

## Model

| member | source | states |
|---|---|---|
| Text.SplitLines | generate-from-unicode-api/fetch_from_unicode.py:79 | `str.splitlines()`: cut at every line boundary of Python's set, `\r\n` as one, a final boundary opening no empty line |
| Text.LStrip | generate_css.py:25 | `lstrip(chars)`: drop leading characters of the set |
| Text.StripAny | generate-from-unicode-api/fetch_from_unicode.py:88 | `strip`: neither end of the result is a removed character |
| Text.Strip | generate-from-unicode-api/fetch_from_unicode.py:57-58 | `strip()` over Python's `str.isspace()` characters |
| Text.SplitAny | generate_css.py:27 | `split(c)` and `re.split("[_-]")`: cut at every separator character, at least one part |
| Text.Join | generate-from-unicode-api/fetch_from_unicode.py:138 | `sep.join(parts)` |
| Text.Lower | generate-from-unicode-api/fetch_from_unicode.py:143 | `lower()` character by character, on ASCII capitals |
| Text.SplitOnce | generate-from-unicode-api/fetch_from_unicode.py:83-85 | `split(c, 1)` has a second piece iff `c` occurs; then the text is the first piece, `c`, the second piece, and the first piece holds no `c` |
| Text.SplitOnceAt | generate-from-unicode-api/fetch_from_unicode.py:53-55 | `split(c, 1)` of `a + c + b` with no `c` in `a` gives exactly `a` and `b` |
| Text.LStripSlice | generate_css.py:25 | `lstrip` removes a prefix made only of the given characters and keeps the rest unchanged |
| Text.StripAnySlice | generate-from-unicode-api/fetch_from_unicode.py:88 | `strip` keeps a contiguous slice; everything removed before and after it is whitespace |
| Text.SplitAnyParts | generate_css.py:27 | no part of a split holds a separator |
| Text.SeparatorsIn | generate_css.py:27 | every character a split removes is one of the separators |
| Text.SplitAnyRoundTrip | generate_css.py:27 | the parts, interleaved with the removed separators, give the split text back; one part more than separators |
| Text.SplitJoin | generate-from-unicode-api/fetch_from_unicode.py:94 | joining `s.split(c)` with `c` gives `s` |
| Text.Replace | generate-from-unicode-api/fetch_from_unicode.py:137 | `replace` only introduces characters of the replacement; a one-character pattern not in the replacement is gone afterwards |
| Text.LowerAppend | generate-from-unicode-api/fetch_from_unicode.py:143 | lower-casing distributes over concatenation and leaves no ASCII capital |
| Text.SplitLinesNoBreaks | generate-from-unicode-api/fetch_from_unicode.py:79 | no line of `splitlines` holds a line boundary |
| Text.SplitLinesJoin | generate-from-unicode-api/fetch_from_unicode.py:206 | `"\n".join(lines).splitlines()` gives back non-empty lines without boundaries |
| Css.Rule | generate-from-unicode-api/fetch_from_unicode.py:200 | the rule template, the same as generate_css.py:38 |
| Css.CssText | generate-from-unicode-api/fetch_from_unicode.py:206 | the stylesheet: the rules joined with newlines, as generate_css.py:43 writes too |
| Css.RuleReadBack | generate-from-unicode-api/fetch_from_unicode.py:200 | the label and URL can be read back from a rule when neither holds a double quote |
| Css.CssTextLines | generate-from-unicode-api/fetch_from_unicode.py:205-206 | the stylesheet read line by line gives the rules in order |
| EmojiTest.Status | generate-from-unicode-api/fetch_from_unicode.py:85-88 | the status: the text after the first `;` up to the next `#`, stripped |
| EmojiTest.ParseComment | generate-from-unicode-api/fetch_from_unicode.py:97-101 | `strip().split(" ", 2)`: the emoji and the stripped description, none with fewer than three pieces |
| EmojiTest.ParseTestLine | generate-from-unicode-api/fetch_from_unicode.py:80-109 | one loop step: skip, a record, or the IndexError the line raises |
| EmojiTest.LineFilter | generate-from-unicode-api/fetch_from_unicode.py:80-92 | a line is skipped iff it is a comment, too short, or has a `;` and a status other than `fully-qualified`; a record needs that status; a missing `;` fails exactly on data lines |
| EmojiTest.CommentShape | generate-from-unicode-api/fetch_from_unicode.py:97-101 | a comment is unreadable iff its stripped text has fewer than two spaces; a read comment has a non-empty, space-free emoji and a non-empty description |
| EmojiTest.CommentOf | generate-from-unicode-api/fetch_from_unicode.py:97-101 | `<emoji> <version> <description>` reads as the emoji and the stripped description |
| EmojiTest.CodeShape | generate-from-unicode-api/fetch_from_unicode.py:94 | the code points are at least one piece, none holds a space, and joined with spaces they give the stripped text before `;` |
| EmojiTest.RecordShape | generate-from-unicode-api/fetch_from_unicode.py:94-109 | a kept line's record is its comment's emoji and description and its split code points; all non-empty |
| EmojiTest.KeptRecords | generate-from-unicode-api/fetch_from_unicode.py:79-111 | never more records than lines |
| EmojiTest.KeptRecordsAppend | generate-from-unicode-api/fetch_from_unicode.py:79-109 | the records of `a + b` are those of `a` followed by those of `b`: line order is kept |
| EmojiTest.KeptRecordsFromLines | generate-from-unicode-api/fetch_from_unicode.py:79-109 | a record is produced iff some line reads as that record |
| EmojiTest.KeptRecordsWellFormed | generate-from-unicode-api/fetch_from_unicode.py:94-109 | every record has an emoji and at least one code point |
| EmojiTest.CollectRecords | generate-from-unicode-api/fetch_from_unicode.py:79-111 | the loop returns the kept records of all lines, or stops at the first failing line with its error |
| EmojiTest.ProcessEmojiList | generate-from-unicode-api/fetch_from_unicode.py:64-111 | on success the result is `KeptRecords` of the lines and no line fails; on failure, the line index and kind of the first failing line |
| LegacyNames.ParseLegacyLine | generate-from-unicode-api/fetch_from_unicode.py:50-58 | one loop step: ignore, an entry, or the IndexError the line raises |
| LegacyNames.TableOf | generate-from-unicode-api/fetch_from_unicode.py:60 | the dictionary the assignments build, in line order |
| LegacyNames.LegacyBadShape | generate-from-unicode-api/fetch_from_unicode.py:53-55 | a data line fails with no `(` exactly when it has none, otherwise because no `)` follows the first `(` |
| LegacyNames.LegacyEntryOf | generate-from-unicode-api/fetch_from_unicode.py:53-58 | `before(inside)after`, with no `(` before and no `)` inside, gives key `strip(inside)` and name `strip(after)` |
| LegacyNames.LegacyLineShape | generate-from-unicode-api/fetch_from_unicode.py:50-58 | a line is ignored iff it is a comment or too short; it gives an entry iff it is a data line with `(` and a later `)` |
| LegacyNames.TableKeys | generate-from-unicode-api/fetch_from_unicode.py:60 | the table's keys are exactly the keys of the entry lines |
| LegacyNames.LastDefinitionWins | generate-from-unicode-api/fetch_from_unicode.py:60 | a key maps to the name on the last line defining it |
| LegacyNames.BuildTable | generate-from-unicode-api/fetch_from_unicode.py:49-62 | the loop returns `TableOf` the line outcomes, or the first failing line |
| LegacyNames.ProcessV1EmojiList | generate-from-unicode-api/fetch_from_unicode.py:37-62 | on success the table is `TableOf` the lines' outcomes and no line fails; on failure, the first failing line and its kind |
| ReplaceCss.Normalize | generate-from-unicode-api/fetch_from_unicode.py:137 | the normalised description holds no space and no comma |
| ReplaceCss.Dashed | generate-from-unicode-api/fetch_from_unicode.py:158 | the dashed legacy name holds no space |
| ReplaceCss.PrimaryUrl | generate-from-unicode-api/fetch_from_unicode.py:142-143 | the first guess: normalised description, `_`, dashed code points |
| ReplaceCss.LegacyUrl | generate-from-unicode-api/fetch_from_unicode.py:158-159 | the guess from the dashed legacy name |
| ReplaceCss.DoubledUrl | generate-from-unicode-api/fetch_from_unicode.py:165 | the guess with the last code point repeated after `_` |
| ReplaceCss.DashedUrl | generate-from-unicode-api/fetch_from_unicode.py:171 | the guess with the description's underscores turned into dashes |
| ReplaceCss.ImageUrlShape | generate-from-unicode-api/fetch_from_unicode.py:142-143 | an image URL is the lower-cased CDN path, the lower-cased image name and `.png`, with no ASCII capital |
| ReplaceCss.Candidates | generate-from-unicode-api/fetch_from_unicode.py:145-174 | two or three candidates, the primary URL first |
| ReplaceCss.TakeUntilValid | generate-from-unicode-api/fetch_from_unicode.py:153-174 | the tried URLs are a prefix of the candidates; all but the last failed; the last is valid or all were tried |
| ReplaceCss.AttemptedUrls | generate-from-unicode-api/fetch_from_unicode.py:145-174 | the URLs appended to `attempted_urls`: the candidates up to the first valid one, or the primary alone without validation |
| ReplaceCss.LegacyDescription | generate-from-unicode-api/fetch_from_unicode.py:139-158 | the legacy description: set only after a failed primary check for an emoji with a legacy name |
| ReplaceCss.EntryOutcome | generate-from-unicode-api/fetch_from_unicode.py:141-200 | a record's contribution: dropped, a rule with the last attempted URL, or a report entry |
| ReplaceCss.FallbackOrder | generate-from-unicode-api/fetch_from_unicode.py:145-174 | 1 to 3 attempts, primary first; checking stops at the first valid URL; the legacy guess alone follows a failed primary when a legacy name exists; otherwise the doubled guess, then the dashed guess only if that failed |
| ReplaceCss.OutcomeSpec | generate-from-unicode-api/fetch_from_unicode.py:141-200 | dropped iff no emoji or empty description; a rule iff validation is off or some attempt is valid, using the last attempted URL; otherwise reported with `[attempted]` and the legacy description only when non-empty |
| ReplaceCss.ProcessRecord | generate-from-unicode-api/fetch_from_unicode.py:136-200 | the step-by-step body computes `EntryOutcome` of the record |
| ReplaceCss.ListsPartition | generate-from-unicode-api/fetch_from_unicode.py:177-200 | rules plus report entries number the records not dropped |
| ReplaceCss.NoReportWithoutValidation | generate-from-unicode-api/fetch_from_unicode.py:148-199 | with validation off nothing is reported |
| ReplaceCss.CreateEmojiReplaceCss | generate-from-unicode-api/fetch_from_unicode.py:135-202 | the rules and the invalid list are those of the records' outcomes, in record order |
| ReplaceCss.GenerateFromUnicodeData | generate-from-unicode-api/fetch_from_unicode.py:113-206 | on success no line of either file fails, and the stylesheet and report come from the parsed records and legacy table; on failure, the first failing line of the emoji-test file, or, when that file reads cleanly, the first failing line of the legacy file |
| FilenameCss.HexValue | generate_css.py:16 | `int(t, 16)` of a string of hex digits |
| FilenameCss.ValidToken | generate_css.py:16 | the tokens `chr(int(t, 16))` decodes: non-empty hex naming a scalar value |
| FilenameCss.DecodeToken | generate_css.py:16 | `chr(int(t, 16))` is the character whose code point is the token's hex value |
| FilenameCss.UnicodeToEmoji | generate_css.py:14-16 | one character per token; the k-th code point is the k-th token's hex value |
| FilenameCss.HexRoundTrip | generate_css.py:16 | reading back a number written in hex gives the number |
| FilenameCss.DecodeEncoded | generate_css.py:14-16 | every string is `unicode_to_emoji` of its own code points in hex |
| FilenameCss.Tokens | generate_css.py:25-27 | at least one token; no token holds `_` or `-` |
| FilenameCss.TokensOfPatternSegment | generate_css.py:23-27 | a segment of hex digits, `-` and `_` gives hex-only tokens |
| FilenameCss.TrailingHyphenFails | generate_css.py:27-30 | a segment ending in `-` has an empty last token and does not decode |
| FilenameCss.TrailingSeparator | generate_css.py:27 | splitting text that ends in a separator gives an empty last part |
| FilenameCss.WebpToPng | generate_css.py:35 | `re.sub(".webp$", ".png", filename)` |
| FilenameCss.FileUrl | generate_css.py:35 | the CDN path of the image set followed by the rewritten file name |
| FilenameCss.FileRule | generate_css.py:30-38 | the rule for a file: its decoded code points and its URL |
| FilenameCss.WebpBecomesPng | generate_css.py:35 | any non-newline character followed by `webp` at the end becomes `.png` |
| FilenameCss.WebpNewlineBecomesPng | generate_css.py:35 | the same before a single final newline, which is kept |
| FilenameCss.WebpToPngChanges | generate_css.py:35 | those two shapes are exactly the names the rewrite changes |
| FilenameCss.WebpToPngChars | generate_css.py:35 | the rewrite adds no characters but those of `.png` |
| FilenameCss.FileRuleReadBack | generate_css.py:35-38 | a file's rule reads back as the decoded emoji and the file's URL |
| FilenameCss.GenerateCss | generate_css.py:21-39 | one rule per file in listing order, each `FileRule` of its name and segment; or the first file with no match or an undecodable token |

## Left out

- Network I/O: `check_url_validity` is the oracle parameter `valid`, and `fetch_text` is replaced by the text it returns. A failed fetch prints a message and returns the empty text; the model covers the empty text as an input.
- File output: the CSS and JSON files are not written. The model returns the stylesheet text and the final invalid list; the JSON rewrite after every failure is not modelled, only the list it ends with.
- The directory listing (`os.listdir`) is the input sequence of file names, in whatever order the system returns them.
- Progress and failure prints, and the float percentage formatting, are left out.
- `UNICODE_REGEX` is not modelled as a regular expression. Its search is the parameter `unicodePart` of `FilenameCss.GenerateCss`; `TokensOfPatternSegment` states what its character class gives the tokens.
- `sys.stdout.reconfigure`, the top-level call with its fixed arguments, and the unused `unicode_version` are left out.
- Text.LowerAppend: lower-casing is ASCII only, because Python's full Unicode case mapping is not modelled; descriptions with non-ASCII capitals would lower-case differently.
- FilenameCss.GenerateCss: a token naming a surrogate code point stops the run at that file. The script accepts it in `chr` and fails only when writing the stylesheet as UTF-8, since Dafny's `char` excludes surrogates.
- FilenameCss.ValidToken: accepts only plain hex digits. Forms that `int(t, 16)` also accepts (surrounding whitespace, `0x`, `_`, a sign) cannot come out of the file-name pattern and are not modelled.
