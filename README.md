# Codeforces scraper core, modelled in Dafny

`cfscraper.py` scrapes one Codeforces contest: the list of its problems, each
problem page's statement and metadata record, the contest's editorial link,
and the editorial cut into one text per problem. This project models the
string and sequence logic inside that script, with the network, the HTML
parser and the file system replaced by plain inputs and returned values:

- `wrappers.dfy` (`Wrappers`): `Option`, standing for Python's `None`.
- `text.dfy` (`AsciiText`): the Python string primitives the script uses
  (the class `[A-Za-z0-9]`, `\d`, `\s`, `lower`, `in`, `strip`, `join`,
  `replace`), on their
  ASCII behaviour, with regex repetition as `RunLength` over a character class.
- `identifiers.dfy` (`Identifiers`): `extract_problem_id`, `extract_name` and
  `extract_contest_id`, each regex written out character by character, with
  the match and no-match cases stated by ghost predicates that say what the
  regex matches.
- `field_extractor.dfy` (`FieldExtractor`): `find_question_details` from the
  texts of the page's containers to the display name, the statement text and
  the metadata record, including the in-place `pop` of the rating tag.
- `problem_list.dfy` (`ProblemList`): `get_all_prob` on the hrefs of the
  problems table. `sorted(set(...))` is modelled as insertion into a strictly
  ascending sequence under Python's string order, and the listing is proved
  unique.
- `editorial_link.dfy` (`EditorialLocator`): the sidebar loop of
  `extract_editorial_link`, as a method with an early return.
- `editorial_segmenter.dfy` (`EditorialSegmenter`): the loop of
  `extract_editorial_content`. It is a method with the source's variables
  (`current_problem_index`, `result`, a log of the files written), proved
  equal to a fold `RunFrom` of a one-child step function. The lemmas about
  the fold cover the loop invariants, a run without markers, a run with every
  marker in order, and the two-problem example.

`urljoin` is a function parameter about which nothing is assumed. Each file
the script writes becomes one `Write(key, text)` entry in a log, keyed by the
problem's display name.

Some behaviour of the code is easy to misread, and the model follows the code:

- The record's `name` field is the full stripped title, e.g. "C2. Hard One",
  not the short name (cfscraper.py:65).
- The contest pattern is `/contest/(\d+)` with no trailing `/`. It takes the
  leftmost "/contest/" that is followed by a digit, and the whole digit run
  after it.
- When no contest is found, the sentinel is "No contest ID found in the URL".
- The marker test of the segmenter applies to every child, bare strings
  included. Only the accumulation branch needs a tag name.
- `\s*` in the name pattern skips any whitespace, line feeds included. `(.*)`
  then stops at the first line feed.
- With an empty name list and text left to flush, `problem_names[-1]` raises
  IndexError. The model returns this as `Outcome.indexError`.

## Model

| member | source | states |
|---|---|---|
| AsciiText.IsAlnum | cfscraper.py:18 | definition: the class `[A-Za-z0-9]` |
| AsciiText.IsDigit | cfscraper.py:26 | definition: `\d` on ASCII, '0' to '9' |
| AsciiText.IsSpace | cfscraper.py:22 | definition: `\s` and `str.strip`'s whitespace on ASCII, the code points 9-13 (tab, line feed, vertical tab, form feed, carriage return), 28-31 (the four separators) and 32 (space) |
| AsciiText.RunLength | cfscraper.py:18 | the greedy run of a character class: every character before the returned length is in the class, and the next one, if any, is not |
| AsciiText.Lower | cfscraper.py:99 | `str.lower` on ASCII: same length, each character lowered, no upper-case letter left |
| AsciiText.LowerIdempotent | cfscraper.py:99 | lowering twice is lowering once |
| AsciiText.Contains | cfscraper.py:99 | definition: Python's `sub in s`, a prefix match at some suffix; its meaning is stated by ContainsIff |
| AsciiText.ContainsIff | cfscraper.py:99 | Python's `sub in s` holds exactly when `sub` occurs at some index of `s` |
| AsciiText.Strip | cfscraper.py:41 | `str.strip()`: the result is a slice of the input with only whitespace around it, and it neither starts nor ends with whitespace |
| AsciiText.StripUnchanged | cfscraper.py:41 | a string without surrounding whitespace is its own strip |
| AsciiText.Join | cfscraper.py:44 | `sep.join`: empty for no parts, the part itself for one, the first part and the separator first for more |
| AsciiText.RemoveAll | cfscraper.py:49-50 | `replace(pat, "")`: never longer than the input, and the identity when `pat` does not occur |
| AsciiText.RemoveLeadingLabel | cfscraper.py:49-50 | a leading label is removed and the rest kept whole when the rest does not contain the label |
| Identifiers.IdMatchAt | cfscraper.py:18 | definition: `^([A-Za-z0-9]+)\.` matches with a group of length k: k alphanumeric characters from the start, then a '.'; ExtractProblemId is stated against it |
| Identifiers.IdMatchIsRun | cfscraper.py:18 | any match of `^([A-Za-z0-9]+)\.` has as its group the maximal leading alphanumeric run, so there is at most one match |
| Identifiers.IsProblemId | cfscraper.py:18 | definition: a group `([A-Za-z0-9]+)` can take the string: non-empty and alphanumeric throughout |
| Identifiers.IdBeforeDot | cfscraper.py:17-19 | a non-empty alphanumeric id followed by '.' and anything at all yields that id |
| Identifiers.ExtractProblemId | cfscraper.py:17-19 | Some exactly when the pattern matches, and then the matched group, a prefix of the input followed by '.' |
| Identifiers.ExtractName | cfscraper.py:21-23 | definition: the id run, then `NameAfterDot` on the text after the '.', or the sentinel; its contract is stated by ExtractNameSentinel, ExtractNameMatches and NameFollowsId |
| Identifiers.ExtractNameSentinel | cfscraper.py:21-23 | "No match found" when the pattern does not match |
| Identifiers.NameCapture | cfscraper.py:22 | definition: `\s*(.*)` on the text after the '.': `\s*` takes the maximal whitespace run, and `(.*)` captures what follows, with no line feed inside it and a line feed or the end after it; NameAfterDotCaptures and ExtractNameMatches are stated against it |
| Identifiers.ExtractNameMatches | cfscraper.py:21-23 | on a match, the capture of `(.*)` after the id, the '.' and the greedy `\s*`: no line feed inside it, a line feed or the end after it |
| Identifiers.NameAfterDot | cfscraper.py:22 | definition: `\s*(.*)` on the text after the '.', the greedy whitespace run, then everything up to the first line feed; its meaning is stated by NameAfterDotCaptures |
| Identifiers.NameAfterDotCaptures | cfscraper.py:22 | `\s*(.*)` applied to the text after the '.' |
| Identifiers.NameFollowsId | cfscraper.py:17-23 | `extract_name` fails exactly when `extract_problem_id` does, and otherwise reads on from just after the id's '.' |
| Identifiers.WellFormedTitle | cfscraper.py:17-23 | a title "<id>. <name>" with a non-empty alphanumeric id and a one-line name that does not start with whitespace parses back into that id and that name (a name starting with whitespace loses it to `\s*`) |
| Identifiers.HardOneTitle | cfscraper.py:17-23 | "C2. Hard One" gives the id "C2" and the name "Hard One" |
| Identifiers.ContestAt | cfscraper.py:26 | definition: `/contest/(\d+)` can match at position p: "/contest/" occurs at p and a digit follows it; FindContest and ExtractContestId are stated against it |
| Identifiers.ContestIdAt | cfscraper.py:26 | definition: the group of `/contest/(\d+)` at a match at p: the non-empty run of digits right after "/contest/", not followed by a digit; ExtractContestId is stated against it |
| Identifiers.FindContest | cfscraper.py:26 | the leftmost position at or after `from` where `/contest/\d` occurs, or None when there is none |
| Identifiers.ExtractContestId | cfscraper.py:25-27 | the sentinel exactly when `/contest/\d` never occurs; otherwise the maximal digit run after the leftmost match, non-empty and not followed by a digit |
| Identifiers.ContestDigitsAt | cfscraper.py:25-27 | when the leftmost match is at `p` and the URL holds `digits` after it, followed by a non-digit or by nothing, the result is `digits` |
| Identifiers.ContestPath | cfscraper.py:25-27 | a URL "<host>/contest/<digits><tail>", with no match starting inside the host and a tail not starting with a digit, yields those digits |
| Identifiers.NoContestInHost | cfscraper.py:26 | a host in which every '/' is followed by at least three characters other than "con" admits no match starting inside it, whatever follows |
| Identifiers.ContestAfterHost | cfscraper.py:25-27 | a URL "<host>/contest/<digits><tail>" under such a host yields those digits |
| Identifiers.SiteHost | cfscraper.py:158 | the site root "https://codeforces.com" is such a host |
| Identifiers.SiteContestUrl | cfscraper.py:153-158 | the page URL the script builds, "https://codeforces.com/contest/2050/problem/C2", yields "2050" |
| Identifiers.ContestUrl | cfscraper.py:25-27 | "/contest/2050/problem/C2" yields "2050" |
| FieldExtractor.SplitDifficulty | cfscraper.py:52-56 | a last tag starting with '*' is the difficulty and is popped off; otherwise the difficulty is "unknown" and the tags stay; the difficulty is "unknown" exactly in the second case, and the tags plus the popped tag give back the input |
| FieldExtractor.IsDifficultyTag | cfscraper.py:54 | definition: `tag.startswith('*')` |
| FieldExtractor.StripAll | cfscraper.py:52 | each tag text stripped, one for one |
| FieldExtractor.StripAllUnchanged | cfscraper.py:52 | texts without surrounding whitespace come through unchanged |
| FieldExtractor.LimitValue | cfscraper.py:49-50 | without the label in the text, the limit is the stripped text |
| FieldExtractor.LimitAfterLabel | cfscraper.py:49-50 | a limit text "<label><value>" gives the stripped value, when the value does not itself contain the label (`replace` removes every occurrence) |
| FieldExtractor.FindQuestionDetails | cfscraper.py:41-74 | the display name is the stripped title; the statement is the paragraphs joined by line feeds; every field of the record as the script builds it, the name being the full title and the id parsed from it |
| FieldExtractor.ContestUrlFields | cfscraper.py:64 | a page URL "<host>/contest/<digits>..." under a host in which every '/' is followed by at least three characters other than "con", the digits followed by a non-digit or by nothing, yields the contest id `<digits>` |
| FieldExtractor.TitleFields | cfscraper.py:41-63 | a title that strips to "<id>. <name>", the id non-empty and alphanumeric, yields the id, whatever the name |
| FieldExtractor.TagFields | cfscraper.py:52-56 | tag boxes whose stripped texts end in a rating split into the other stripped tags and that rating |
| FieldExtractor.WellFormedPage | cfscraper.py:41-74 | on a page as the site serves it ("<host>/contest/<digits>/...", a host in which every '/' is followed by at least three characters other than "con", a title that strips to "<id>. <name>" with a non-empty alphanumeric id and any name, stripped tags ending in the rating), the record carries that id, that contest, the whole stripped title, the URL, the other tags and the rating |
| ProblemList.ProblemUrls | cfscraper.py:153 | definition: the set comprehension `{urljoin(contest_link, h) for h in hrefs if '/problem/' in h}` |
| ProblemList.LessIrreflexive | cfscraper.py:152 | Python's string `<` is irreflexive |
| ProblemList.LessTransitive | cfscraper.py:152 | Python's string `<` is transitive |
| ProblemList.LessTotal | cfscraper.py:152 | of two distinct strings, one is less than the other |
| ProblemList.LessAsymmetric | cfscraper.py:152 | Python's string `<` is asymmetric |
| ProblemList.Less | cfscraper.py:152 | definition: Python's `<` on strings, code points compared left to right and a proper prefix first; its order properties are the four lemmas below |
| ProblemList.Insert | cfscraper.py:152-153 | adding `x` to a strictly ascending listing keeps it strictly ascending, and its set becomes the old set with `x` added (unchanged when `x` was already there) |
| ProblemList.SortedSet | cfscraper.py:152-154 | `sorted(set(xs))`: strictly ascending, with the elements of `xs` |
| ProblemList.SortedListingUnique | cfscraper.py:152 | two strictly ascending listings of the same set are equal |
| ProblemList.ProblemLinks | cfscraper.py:153 | a URL is listed exactly when it is `urljoin(contest_link, h)` for an href `h` containing "/problem/" |
| ProblemList.GetAllProb | cfscraper.py:149-154 | strictly ascending, so without repeats, and its elements are exactly the set of the comprehension |
| ProblemList.GetAllProbIgnoresOrder | cfscraper.py:152-154 | the result depends only on the set of hrefs, not on their order or repetition |
| EditorialLocator.IsTutorialLink | cfscraper.py:99 | definition: `"tutorial" in link.text.lower()`; TutorialTestIgnoresCase states that it does not depend on case, and ContainsIff what `in` means |
| EditorialLocator.ExtractEditorialLink | cfscraper.py:81-105 | None exactly when there is no sidebar or no anchor's lowered text contains "tutorial"; otherwise the site root joined with the href of the first anchor that does |
| EditorialLocator.TutorialTestIgnoresCase | cfscraper.py:99 | whether an anchor qualifies does not depend on the case of its text |
| EditorialSegmenter.IsTagged | cfscraper.py:140 | definition: `ele.name` is truthy, i.e. the child is a tag |
| EditorialSegmenter.IsMarker | cfscraper.py:131-134 | definition: the cursor is in range and the short name of the name it points at occurs in the child's text |
| EditorialSegmenter.Step | cfscraper.py:131-141 | definition: the loop body on one child; its effect is stated by MarkerStep, UnmarkedRun and StepKeys |
| EditorialSegmenter.RunFrom | cfscraper.py:129-141 | definition: the loop as a fold of `Step` over the children |
| EditorialSegmenter.Flush | cfscraper.py:143-146 | definition: the final write to `names[-1]`; stated by FlushWrites |
| EditorialSegmenter.Segment | cfscraper.py:126-146 | definition: the fold from the initial cursor, then the flush; proved equal to the method ExtractEditorialContent |
| EditorialSegmenter.ExtractEditorialContent | cfscraper.py:108-146 | nothing written for a falsy link or a missing container; otherwise exactly the writes and the IndexError of the fold `Segment` over the children |
| EditorialSegmenter.RunSnoc | cfscraper.py:129-141 | one more child is one more step of the loop body |
| EditorialSegmenter.RunAppend | cfscraper.py:129 | the loop over `a + b` is the loop over `a` continued over `b` |
| EditorialSegmenter.RunKeys | cfscraper.py:126-139 | the cursor stays within the name list, and the files written by the loop are those of the first `index - 1` names, in order, each once |
| EditorialSegmenter.StepKeys | cfscraper.py:131-141 | one loop step keeps that invariant: a marker at index `i > 0` writes `problem_names[i-1]` and nothing else |
| EditorialSegmenter.CursorMonotone | cfscraper.py:139 | `current_problem_index` never decreases |
| EditorialSegmenter.SegmentWritesEachNameOnce | cfscraper.py:126-146 | at most as many writes as names; each write is keyed by the name at its own position of the name list, the positions strictly ascending, so no position is written twice (two equal display names at different positions can both be written) |
| EditorialSegmenter.FlushWrites | cfscraper.py:143-146 | the final flush keeps that property; it writes nothing when `result` is empty; otherwise it appends exactly one write, keyed by `names[-1]` with the joined `result`, or raises IndexError when there are no names |
| EditorialSegmenter.TaggedTexts | cfscraper.py:140-141 | each accumulated text is the stripped text of a tagged child |
| EditorialSegmenter.UnmarkedRun | cfscraper.py:129-141 | between markers the cursor and the log stay put, and every tagged child adds its stripped text in order |
| EditorialSegmenter.NoMarkerFound | cfscraper.py:126-146 | when the first short name is never found, the only write is all the tagged texts, joined by line feeds, to the last name, and none when there are no tagged texts |
| EditorialSegmenter.NoMarkerRun | cfscraper.py:129-141 | when the first short name is never found, the loop ends at index 0 with every tagged text accumulated and nothing written |
| EditorialSegmenter.NoNames | cfscraper.py:144-146 | without names nothing is written, and IndexError is raised exactly when some tagged child left text |
| EditorialSegmenter.MarkerStep | cfscraper.py:131-139 | a marker at index `i > 0` writes `names[i-1]` with the joined `result`, at index 0 writes nothing; either way `result` is emptied and the index rises by one |
| EditorialSegmenter.MarkerThenBody | cfscraper.py:131-141 | a marker closes the previous slice (nothing is written at index 0) and the body after it starts the next |
| EditorialSegmenter.MarkedPrefix | cfscraper.py:126-141 | after the j-th marker and its body, the cursor is at j, the first j-1 slices are written and the j-th body is accumulated |
| EditorialSegmenter.InOrderMarkers | cfscraper.py:126-146 | every marker found in order: text before the first marker is dropped, names[k] gets the k-th body's tagged text, the last name its body's text when non-empty |
| EditorialSegmenter.TitleMarks | cfscraper.py:133 | a well-formed title contains its own short name, so it is recognised as its marker |
| EditorialSegmenter.TwoSlices | cfscraper.py:126-146 | two markers found in turn: the first name gets the tagged text between them, the second what follows when non-empty |
| EditorialSegmenter.TaggedSingle | cfscraper.py:140-141 | a tagged child with unpadded text contributes exactly that text |
| EditorialSegmenter.TwoTitlesMarked | cfscraper.py:131-134 | two titles are the markers of their problems, and a child without the second short name is not a marker for it |
| EditorialSegmenter.TwoProblems | cfscraper.py:108-146 | with two well-formed titles ("<id>. <name>", the name one line and not starting with whitespace) and the tagged children "<first title>", intro, "<second title>", outro, where the intro does not contain the second problem's name and neither intro nor outro has surrounding whitespace, exactly intro is written to the first problem and outro to the second |
| EditorialSegmenter.SumProductEditorial | cfscraper.py:108-146 | names "A. Sum", "B. Product" and children "A. Sum", "intro text", "B. Product", "outro text" give the writes ("A. Sum", "intro text") and ("B. Product", "outro text") |

## Left out

- `fetch_page_content` and `HEADERS` (cfscraper.py:8-10, 29-32): network I/O. The texts of the fetched pages are inputs.
- `create_directories` and every `open`/`write`/`json.dump`: file-system I/O. The statement and the record are returned, and the editorial files are a log of writes. The JSON text format is not modelled.
- BeautifulSoup navigation (`find`, `find_all`, `.children`, `.text`) and the removal of math spans: a foreign library. Its results are the inputs: a `ProblemPage` of container texts, a sequence of hrefs, an optional sequence of anchors, an optional sequence of child nodes.
- An `AttributeError` from a missing container in `find_question_details` or `get_all_prob`: this depends on the HTML parser. The page is assumed to have its containers. In `extract_editorial_link` and `extract_editorial_content`, the missing sidebar and the missing content container are modelled, because the script checks for them.
- `urljoin`: a foreign call, taken as an uninterpreted function parameter.
- The `print` diagnostics: console output only.
- The `__main__` block (cfscraper.py:156-161): glue code with a hard-coded contest URL.
- Unicode: `\s`, `\d`, `lower` and `strip` are modelled on ASCII only. A character outside ASCII is never a letter, digit or space, and `Lower` leaves it unchanged.
- The file names built from display names, and a later write to the same name replacing an earlier file: the log keeps every write.
- RemoveAll: the contract covers only the length bound and the case without occurrences. RemoveLeadingLabel covers the label in front. Removal of occurrences elsewhere is described only by the definition.
- LimitValue: the contract covers a text without the label. LimitAfterLabel covers a text that starts with it. Other placements follow only from the definition.
- ProblemList.ProblemLinks: the order of the filtered links is not stated, because `sorted(set(...))` discards it.
