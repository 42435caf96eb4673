# hcj_scrapper core, modelled in Dafny

`scraper.py` collects the agendas of the High Council of Justice of Ukraine
(Вища рада правосуддя) from its announcement pages. For the listing, it
decides from each entry's title whether the entry is a plenary sitting of
the Council, a sitting of one of the three Disciplinary Chambers, or
something to skip. It also builds the code the sitting is filed under. It
then reads the sitting's agenda page. A chamber page has its titles in
paragraphs and its questions in ordered lists. The question lines are
normalised, split into question text and speaker ("Доповідач"), and paired
with the titles. When exactly one list is missing, the last title's question
is found in the loose page text. A plenary page has titles underlined and
questions as plain lines. A flat scan groups the lines under the titles.
The questions are then re-joined, re-split on their `N) ` numbers and
tidied, and very short titles absorb their first question.

The model has eight modules, one per part of the scraper:

- `Text`: the string primitives Python provides. This covers
  `str.isspace`, `strip`, `split`, `join`, lowering and `\s+` collapsing.
- `Agenda`: the values the scraper builds. These are rows of strings,
  `None` and booleans, question dictionaries and agenda items. The
  `IndexError` the page can raise is a `Failure`.
- `Normalizer`: `spokesperson_fix`.
- `Speaker`: `extract_spokesperson`.
- `LostQuestion`: `extract_lost_question`.
- `Disciplinary`: `extract_project` and `extract_questions`.
- `Plenary`: `extract_vrp_project` and `process_vrp_questions`.
- `Listing`: the `TYPE_TALK_RE`/`DP_DICT` classification and the talk code
  in `get_project_data`.

The XPath queries become input sequences: each node is the sequence of its
text nodes. Each regular expression is written out by hand as the function
that decides what it matches. The loops of the source are methods proved
against these functions. `process_vrp_questions` changes the topic
dictionaries in place. It is modelled on an `array` of topics that its two
loops update.

Two behaviours of the code as written are modelled as they are:

- `extract_spokesperson` passes `re.I` where `re.split` takes `maxsplit`.
  So the annotation match is case-sensitive, and at most two annotations
  are split off (`Speaker.SplitSpeaker` with budget 2; see
  `Speaker.TwoSplitsOnly`).
- In `extract_vrp_project`, a title equal to the page's last line is
  emitted at once, and again when the next title closes it.

## Model

| member | source | states |
|---|---|---|
| Text.WsRun | scraper.py:138 | the run of `\s` characters from `i` is maximal: each character in it is whitespace and the next is not |
| Text.Strip | scraper.py:94 | `str.strip()` gives a text with no whitespace at either end, never longer than the input |
| Text.StripIdempotent | scraper.py:149 | stripping twice is stripping once, so the second `.strip()` of a part changes nothing |
| Text.Split | scraper.py:268 | `str.split(c)` gives at least one part, and no part contains `c` |
| Text.SplitJoin | scraper.py:268 | joining the parts of `split(c)` with `c` gives back the original text |
| Text.SplitLast | scraper.py:268 | the last part of `split(c)` is a suffix of the text, preceded by `c` when it is not the whole text |
| Text.Collapse | scraper.py:138 | `re.sub("\s+", " ")` leaves no whitespace but single spaces, empty exactly when the input is, and keeps the first character unless it is whitespace |
| Text.CollapseKeepsText | scraper.py:138 | collapsing keeps every non-whitespace character, in order |
| Text.CollapseFixesCollapsed | scraper.py:138 | a text is left unchanged by collapsing exactly when it is already collapsed |
| Text.CollapseIdempotent | scraper.py:138 | collapsing twice is collapsing once |
| Text.WsClass | scraper.py:138 | the space, tab, line breaks and `\xa0` are `\s`; ASCII letters, digits, `_` and the Cyrillic block are not |
| Text.LowerString | scraper.py:263 | the lowering keeps the length and maps each character on its own, by `Lower` |
| Agenda.ToQuestions | scraper.py:117-119 | each row becomes the dictionary `zip(["question", "speaker", "error"], row)`, one per row, in order |
| Normalizer.MapNbsp | scraper.py:138 | each `\xa0` becomes a space and every other character is kept |
| Normalizer.NbspMapIsRedundant | scraper.py:138 | mapping `\xa0` before collapsing whitespace changes nothing, because `\s` already covers it |
| Normalizer.ContentEnd | scraper.py:139 | the lazy `(.+?)(?:\s+?)?\)` ends its group at the first place, in the same line, from which optional whitespace reaches a `)` |
| Normalizer.GroupFrom | scraper.py:139 | a parenthesised match has its group after the opening, and ends just after the `)` that follows the trailing whitespace |
| Normalizer.ParenTrimTrims | scraper.py:139 | `( c )` with at most one space on each side becomes `(c)`, and the rest of the text is trimmed in turn |
| Normalizer.ParenTrim | scraper.py:139 | on text whose only whitespace is spaces, trimming inside parentheses only deletes spaces |
| Normalizer.SpaceDot | scraper.py:140 | replacing ` .` by `.` only deletes spaces |
| Normalizer.DoklHere | scraper.py:143 | `Д\s+?оповідач` at the start of the text ends after the `Д`, its whitespace and `оповідач` |
| Normalizer.DoklHereIsCaseless | scraper.py:141 | every case-sensitive match is also found by the case-insensitive pre-check |
| Normalizer.DoklGateIsRedundant | scraper.py:141-142 | without a caseless match, the replacement would change nothing anyway, so returning early gives the same result |
| Normalizer.DoklFixLeavesNoArtifact | scraper.py:143 | after the replacement no `Д` followed by whitespace and `оповідач` is left |
| Normalizer.DoklFix | scraper.py:143 | on text whose only whitespace is spaces, joining `Д оповідач` into `Доповідач` only deletes spaces |
| Normalizer.DropsSpacesTrans | scraper.py:138-143 | deleting spaces after deleting spaces is still deleting spaces, so the steps compose |
| Normalizer.DropsSpacesKeepsCollapsed | scraper.py:138-143 | deleting spaces from collapsed text leaves it collapsed |
| Normalizer.DropsSpacesKeepsText | scraper.py:138-143 | deleting spaces keeps every other character, in order |
| Normalizer.SpokespersonFix | scraper.py:137-143 | `spokesperson_fix` equals the plain pipeline: collapse, trim parentheses, drop ` .`, join `Д оповідач`; the `\xa0` mapping and the early return change nothing |
| Normalizer.SpokespersonFixNormalises | scraper.py:137-143 | the result is collapsed, has no `\xa0`, and has no split `Д оповідач` left; it comes from the collapsed input by deleting spaces only |
| Normalizer.SpokespersonFixKeepsText | scraper.py:137-143 | the result keeps every non-whitespace character of the input, in order |
| Normalizer.SpokespersonFixIdempotent | scraper.py:137-143 | normalising a normalised line changes nothing |
| Speaker.SpeakerAt | scraper.py:148 | a match of `\(Доповідач(?:\s+?[-–—])?(.+?)\)` at a position starts with the marker, has a non-empty group within one line holding no `)`, and ends at the first `)` after it; there is a match whenever the marker is followed, in the same line, by a later `)` |
| Speaker.FindSpeaker | scraper.py:148 | the search returns a match that starts at or after the search position |
| Speaker.FindSpeakerIsLeftmost | scraper.py:148 | the match found is the leftmost; when none is found there is none anywhere from the search position |
| Speaker.SplitSpeaker | scraper.py:148 | `re.split` with `maxsplit` 2 gives between one and five parts, and the whole text when nothing matches |
| Speaker.TwoSplitsOnly | scraper.py:148 | with two matches, the split gives the text before, group, text between, group, and everything after, including any third annotation |
| Speaker.TidyKeepsText | scraper.py:147-149 | a part that is non-empty after stripping and dropping `;` is still non-empty once stripped again |
| Speaker.KeepParts | scraper.py:147-149 | the kept parts are texts, never more than the parts split off |
| Speaker.ExtractSpokesperson | scraper.py:146-153 | the row never has exactly one element and has at most five; `None` appears only as the second of two elements; every other element is non-empty stripped text |
| Speaker.NoAnnotation | scraper.py:146-153 | a line with no annotation gives `[line tidied, None]`, or `[]` when nothing is left |
| Speaker.OneAnnotation | scraper.py:146-153 | `text (Доповідач – name)` gives `[text, name]`, or `[name, None]` when the text is empty |
| Speaker.OneAnnotationParts | scraper.py:148 | one trailing annotation, with or without its dash, splits into the text, the name and an empty tail |
| LostQuestion.PageLines | scraper.py:62 | the page text split into its lines: at least one, none holding a line break, and joined back they are the text |
| LostQuestion.LastSecretary | scraper.py:64 | the greedy `(?:.+?\n)+` takes the longest qualifying run of lines before `Секретар ` |
| LostQuestion.FindLost | scraper.py:63-65 | `re.search` finds the first line where the pattern matches and, there, the longest run; `None` only when no line qualifies |
| LostQuestion.ExtractLostQuestion | scraper.py:59-76 | nothing is found exactly when no line qualifies; a row found ends in `False`, and no earlier element is a boolean |
| LostQuestion.LostQuestionIsLeftmostLongest | scraper.py:59-76 | a row found is the leftmost, longest match's block, collapsed and split on its speaker, followed by `False` |
| Disciplinary.ChooseCandidates | scraper.py:81-89 | the underlined paragraphs replace the justified ones when there are none, or one whose first text is `\xa0`; a sole paragraph without text raises `IndexError` |
| Disciplinary.Joined | scraper.py:94 | the joined text of a paragraph is stripped |
| Disciplinary.TitleOfText | scraper.py:95-98 | a title is kept exactly when it starts with a digit; the kept title starts with a digit and is the text with at most one final `:`, `.` or `,` removed |
| Disciplinary.PresentAppend | scraper.py:91-100 | filtering the titles of two runs of paragraphs is filtering each and concatenating, so the filter keeps paragraph order |
| Disciplinary.KeptTitlesOne | scraper.py:91-100 | one paragraph contributes its title when it has one and nothing otherwise |
| Disciplinary.KeptTitlesAreTitles | scraper.py:90-100 | every kept title is non-empty and starts with a digit |
| Disciplinary.FilterTitles | scraper.py:90-100 | the loop collects exactly the kept titles |
| Disciplinary.QuestionRow | scraper.py:132 | each row is the speaker split of its question followed by `False` |
| Disciplinary.Sections | scraper.py:125-127 | one section per list and one normalised question per item: the item's text nodes joined by spaces, then fixed |
| Disciplinary.ExtractQuestions | scraper.py:123-134 | the nested loops give one group per list and one row per item, each the row of its normalised item |
| Disciplinary.Groups | scraper.py:123-134 | the groups as a value: one group per list and one row per item |
| Disciplinary.Recover | scraper.py:105-113 | when there is exactly one title more than groups, one group is appended: empty when nothing is found, otherwise the row found; otherwise the groups are unchanged |
| Disciplinary.Pair | scraper.py:114-119 | `zip` pairs the titles and groups position by position and stops at the shorter |
| Disciplinary.PairUp | scraper.py:114-119 | the two loops build exactly the pairing |
| Disciplinary.Project | scraper.py:79-120 | the agenda fails exactly when choosing the paragraphs raises `IndexError`, with that error; otherwise item `j` carries kept title `j`, and there are no more items than titles |
| Disciplinary.ExtractProject | scraper.py:79-120 | the method gives exactly the agenda `Project` describes, including the `IndexError` |
| Disciplinary.ProjectPairsTitles | scraper.py:79-120 | the agenda has as many items as the shorter of the kept titles and the recovered groups; item `j` has title `j` and the questions of group `j` |
| Disciplinary.QuestionOfTwoParts | scraper.py:117-119 | a question with a speaker becomes `{question, speaker, error: False}` |
| Disciplinary.QuestionOfManyParts | scraper.py:117-119 | when more than two parts are split off, the third part takes the `error` key and `False` is lost |
| Disciplinary.QuestionOfNoParts | scraper.py:117-119 | an empty split becomes `{question: False}` |
| Plenary.Clean | scraper.py:197 | collapsing and stripping a title leaves it stripped |
| Plenary.Trim | scraper.py:199 | removing a final `\s`, `:` or `.` and stripping keeps a title stripped and starting with its digit |
| Plenary.CleanTitles | scraper.py:196-200 | the clean titles are stripped, start with a digit and are at most as many as the underlined texts |
| Plenary.CleanLines | scraper.py:202-204 | the clean lines are non-empty and stripped, and at most as many as the text nodes |
| Plenary.FlatScan | scraper.py:205-220 | the loop with `q` and `first_line` gives exactly the topics `Emitted` describes |
| Plenary.RunAppend | scraper.py:208-220 | scanning two runs of lines is scanning the first, then the second from where it stopped |
| Plenary.PrefixDiscarded | scraper.py:217-219 | lines before the first title are skipped |
| Plenary.Step | scraper.py:209-220 | one line never removes emitted topics; a title opens a topic of its own, after emitting the open one (and itself too when it equals the last line); any other line emits nothing; topics emitted keep carrying clean titles |
| Plenary.StepJoins | scraper.py:209-220 | a title equal to the last line is emitted at once without questions; a non-title line is appended to the open topic, and skipped while no topic is open |
| Plenary.Run | scraper.py:208-220 | scanning lines only adds topics, and every topic added carries a clean title |
| Plenary.Emitted | scraper.py:205-220 | every topic emitted carries one of the clean titles |
| Plenary.BodyJoinsTopic | scraper.py:220 | lines that are not titles are appended, in order, to the open topic |
| Plenary.Segment | scraper.py:209-216 | a title closes the open topic and opens a topic holding the lines up to the next title |
| Plenary.LastTopicDropped | scraper.py:205-220 | when the page ends in a question line, the last topic is never closed and is not returned |
| Plenary.LastTitleEmitted | scraper.py:214-215 | when the page ends in a title, that title is returned as a topic without questions |
| Plenary.Restore | scraper.py:174-175 | each line made only of digits gets its `)` back; the others are unchanged |
| Plenary.RemoveAbsent | scraper.py:176-177 | removing the resignation phrase changes nothing when it does not occur |
| Plenary.SplitNumbered | scraper.py:180 | `re.split("\d+?\) ")` gives at least one piece, and no piece contains an `N) ` marker |
| Plenary.SplitNumberedRejoins | scraper.py:180 | there is one marker fewer than pieces, and putting the markers back between the pieces gives the text |
| Plenary.SplitWithoutMarker | scraper.py:180 | a text with no `N) ` marker is not split |
| Plenary.Repair | scraper.py:171-180 | the title is kept; a topic without questions is unchanged; every repaired question is stripped |
| Plenary.NumberLineSplitsOff | scraper.py:174-180 | the lines `N` and `text` are rejoined into `N) text` and re-split into the single question `text`, tidied |
| Plenary.Merge | scraper.py:185-190 | a title of at most seven characters with questions becomes `title + " " + first question` and the first question leaves the list; any other topic is unchanged |
| Plenary.MergeKeepsText | scraper.py:185-190 | merging keeps the topic's words: title and questions joined by spaces are the same before and after |
| Plenary.RepairAll | scraper.py:171-180 | the first loop repairs every topic in place |
| Plenary.MergeAll | scraper.py:184-190 | the second loop merges every topic in place |
| Plenary.ProcessVrpQuestions | scraper.py:170-191 | every topic becomes its merged repair |
| Plenary.ExtractVrpProject | scraper.py:194-221 | the topics are the processed scan of the clean lines under the clean titles |
| Listing.ChamberAt | scraper.py:28 | the alternative chosen is a chamber name whose words start the rest; none is chosen only when no alternative fits |
| Listing.MatchTalk | scraper.py:27-28 | a match found satisfies the reference reading of `TYPE_TALK_RE`, with its `name` group |
| Listing.MatchTalkIsMatches | scraper.py:27-28 | the matcher returns group `g` exactly when the title matches with group `g` |
| Listing.OrdinalsDistinct | scraper.py:28-35 | the three chamber names are distinct, and so are their types |
| Listing.LowerOrdinal | scraper.py:31-35 | each chamber name, lowered, is a key of `DP_DICT`, mapped to that chamber's type |
| Listing.TypeTalk | scraper.py:256-263 | no group gives `vrp`; chamber `k` gives `dp1`, `dp2` or `dp3` in order |
| Listing.TypeTalkDistinct | scraper.py:256-263 | the type is chamber `k`'s exactly when the group is chamber `k`, and `vrp` exactly when there is no group |
| Listing.Classify | scraper.py:253-263 | a classified entry is `vrp` or a chamber's type |
| Listing.ClassifyCouncil | scraper.py:253-259 | an entry is `vrp` exactly when its title is the Council's sitting |
| Listing.ClassifyChamber | scraper.py:253-263 | an entry is chamber `k`'s exactly when its title names chamber `k` |
| Listing.ClassifySkips | scraper.py:253-255 | an entry is skipped exactly when its title matches no reading of the pattern |
| Listing.LastSegment | scraper.py:268 | the session number is the suffix after the last `-`, and contains no `-` |
| Listing.ZFill | scraper.py:269 | `zfill(4)` pads with zeros to four characters, after a leading sign if there is one, and leaves a longer text unchanged |
| Listing.ZerosValue | scraper.py:269 | leading zeros do not change the number a digit string denotes |
| Listing.TalkCodeKeepsNumber | scraper.py:268-269 | the code is the type, `_`, and at least four digits that denote the session number |
| Listing.TalkCode | scraper.py:268-269 | the code is the type and `_`, followed by the session segment padded to at least four characters, with no `-` after the `_` |
| Listing.TalkOf | scraper.py:253-269 | an entry gets a code exactly when it is classified; the code starts with its type and `_` and has at least four more characters |

## Left out

- Network access, the HTTP headers, `time.sleep`, JSON output, `print`,
  and the page fetching in `get_cvk_page`, `get_proj_link`,
  `get_disciplinary_project`, `get_vrp_project` and the rest of
  `get_project_data`: these are I/O. The model starts from the text nodes
  the XPath queries return.
- XPath and lxml: each query is an input sequence of nodes, each node the
  sequence of its text nodes. Which nodes a query selects is not modelled.
- There is no general regular-expression engine. Each pattern the core uses
  is written out as the function that decides what it matches.
- `OTHER` is compiled but never used, so it is not modelled.
- Text.LowerString: `Lower` is `str.lower()` only on ASCII, U+0400..U+042F
  and U+0490, the letters the chamber names use; every other character is
  left as it is, where Python would lower other scripts too.
- `\d` is read as the ASCII digits. Python also matches other Unicode
  decimal digits.
- Python `len` and indexing count code points, as Dafny's `char` does, so
  no encoding is modelled.
- LostQuestion.ExtractLostQuestion: requires `PlainTitle`. The source
  escapes only `.` before pasting the title into the pattern. A title with
  another metacharacter or a newline turns into a different pattern, and
  that is not modelled.
- Disciplinary.Project: requires `LostTitleIsPlain`, for the same reason,
  for the title the recovery searches for.
- Disciplinary.ExtractProject: requires `LostTitleIsPlain`, for the same
  reason.
- The `extract_lost_question` result is modelled as an `Option`. The source
  returns `''` when nothing is found. A row found is never empty, so `if not
  lost_question` tests only for absence.
- The `except` branch of `extract_lost_question` cannot be reached, since
  its `try` only assigns. It is not modelled.
- The `IndexError` that `titles[0].xpath('.//text()')[0]` raises on a sole
  empty paragraph is a `Failure` result, not an exception that unwinds.
- Listing.ZFill: the sign handling of `str.zfill` is modelled in full, but
  Listing.TalkCodeKeepsNumber requires the session segment to be all
  digits.
- Plenary.FlatScan: when a title equals the page's last line but also occurs
  earlier, the source appends the same dictionary `q` that later lines go on
  filling, so the same object appears twice and `process_vrp_questions` then
  works on it twice. The model emits values: the early copy keeps the
  questions it had when it was emitted. This aliasing is not modelled.
- Plenary.ProcessVrpQuestions: the topics are an array of values. The
  source's list of dictionaries, and any aliasing between them, is not
  modelled.
- `que["questions"].remove(first_question)` removes the first element equal
  to the first question, which is the first element, so Plenary.Merge drops
  the head.
