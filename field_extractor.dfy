/**
 The field extractor of `find_question_details`: given the texts that the
 problem page's containers hold, it builds the problem's display name, its
 statement text and its metadata record. Fetching the page, removing the math
 spans and locating the containers happen before this (the page arrives as a
 `ProblemPage`); writing the two files happens after it (their contents are
 the method's results).
 */
module FieldExtractor {
  import opened Wrappers
  import opened AsciiText
  import opened Identifiers

  /** The `.text` of each container the extractor reads, in page order. */
  datatype ProblemPage = ProblemPage(
    title: string,             // div.title
    paragraphs: seq<string>,   // the p elements of the unlabelled statement block
    timeLimitText: string,     // div.time-limit
    memoryLimitText: string,   // div.memory-limit
    tagTexts: seq<string>,     // every span.tag-box
    inputSpecText: string,     // div.input-specification
    outputSpecText: string,    // div.output-specification
    sampleTestsText: string)   // div.sample-test

  /** The metadata record, one field per key of the JSON document. */
  datatype ProblemMetadata = ProblemMetadata(
    problemId: Option<string>,  // None is written as JSON null
    contestId: string,
    name: string,
    url: string,
    difficulty: string,
    tags: seq<string>,
    timeLimit: string,
    memoryLimit: string,
    inputSpecification: string,
    outputSpecification: string,
    sampleTests: string)

  const UNKNOWN_DIFFICULTY := "unknown"
  const TIME_LABEL := "time limit per test"
  const MEMORY_LABEL := "memory limit per test"

  /** `tag.startswith('*')`: a rating tag such as "*2500". */
  predicate IsDifficultyTag(t: string) {
    |t| > 0 && t[0] == '*'
  }

  /** The tag list ends in a rating tag. */
  predicate EndsWithDifficulty(tags: seq<string>) {
    |tags| > 0 && IsDifficultyTag(tags[|tags| - 1])
  }

  /** Separates the rating from the tag list, popping it off the end. */
  method SplitDifficulty(tagTexts: seq<string>) returns (tags: seq<string>, difficulty: string)
    ensures EndsWithDifficulty(tagTexts) ==>
              difficulty == tagTexts[|tagTexts| - 1] && tags == tagTexts[..|tagTexts| - 1]
    ensures !EndsWithDifficulty(tagTexts) ==>
              difficulty == UNKNOWN_DIFFICULTY && tags == tagTexts
    ensures difficulty == UNKNOWN_DIFFICULTY <==> !EndsWithDifficulty(tagTexts)
    ensures tags + (if difficulty == UNKNOWN_DIFFICULTY then [] else [difficulty]) == tagTexts
  {
    tags := tagTexts;
    var lastTag := if |tags| > 0 then tags[|tags| - 1] else "";
    difficulty := if IsDifficultyTag(lastTag) then lastTag else UNKNOWN_DIFFICULTY;
    if difficulty != UNKNOWN_DIFFICULTY {
      tags := tags[..|tags| - 1];
    }
  }

  /** `[t.strip() for t in texts]` */
  function StripAll(texts: seq<string>): (r: seq<string>)
    ensures |r| == |texts| && forall i :: 0 <= i < |texts| ==> r[i] == Strip(texts[i])
  {
    seq(|texts|, i requires 0 <= i < |texts| => Strip(texts[i]))
  }

  /** `text.replace(prefix, "").strip()` of the time and memory limits. */
  function LimitValue(text: string, prefix: string): (r: string)
    requires prefix != []
    ensures (forall i :: !OccursAt(text, prefix, i)) ==> r == Strip(text)
  {
    Strip(RemoveAll(text, prefix))
  }

  /** The limit container reads "<prefix><value>": the prefix goes, the value
      stays, stripped. */
  lemma LimitAfterLabel(prefix: string, value: string)
    requires prefix != []
    requires !Contains(value, prefix)
    ensures LimitValue(prefix + value, prefix) == Strip(value)
  {
    RemoveLeadingLabel(prefix, value);
  }

  /** `find_question_details`: the display name it returns, the statement it
      writes to the statement file, and the record it writes to the metadata
      file. */
  method FindQuestionDetails(url: string, page: ProblemPage)
    returns (probName: string, statement: string, metadata: ProblemMetadata)
    ensures probName == Strip(page.title)
    ensures statement == Join(page.paragraphs, "\n")
    ensures metadata.problemId == ExtractProblemId(probName)
    ensures metadata.contestId == ExtractContestId(url)
    ensures metadata.name == probName && metadata.url == url
    ensures var stripped := StripAll(page.tagTexts);
            && (EndsWithDifficulty(stripped) ==>
                  metadata.difficulty == stripped[|stripped| - 1] && metadata.tags == stripped[..|stripped| - 1])
            && (!EndsWithDifficulty(stripped) ==>
                  metadata.difficulty == UNKNOWN_DIFFICULTY && metadata.tags == stripped)
    ensures metadata.timeLimit == LimitValue(page.timeLimitText, TIME_LABEL)
    ensures metadata.memoryLimit == LimitValue(page.memoryLimitText, MEMORY_LABEL)
    ensures metadata.inputSpecification == Strip(page.inputSpecText)
    ensures metadata.outputSpecification == Strip(page.outputSpecText)
    ensures metadata.sampleTests == Strip(page.sampleTestsText)
  {
    probName := Strip(page.title);
    statement := Join(page.paragraphs, "\n");
    var timeLimit := LimitValue(page.timeLimitText, TIME_LABEL);
    var memoryLimit := LimitValue(page.memoryLimitText, MEMORY_LABEL);
    var stripped := StripAll(page.tagTexts);
    var tags, difficulty := SplitDifficulty(stripped);
    metadata := ProblemMetadata(
      ExtractProblemId(probName),
      ExtractContestId(url),
      probName,
      url,
      difficulty,
      tags,
      timeLimit,
      memoryLimit,
      Strip(page.inputSpecText),
      Strip(page.outputSpecText),
      Strip(page.sampleTestsText));
  }

  /** Texts that neither start nor end with whitespace. */
  predicate Unpadded(texts: seq<string>) {
    forall i :: 0 <= i < |texts| ==> texts[i] != [] ==> !IsSpace(texts[i][0]) && !IsSpace(texts[i][|texts[i]| - 1])
  }

  /** Texts without surrounding whitespace come through `StripAll` unchanged. */
  lemma StripAllUnchanged(texts: seq<string>)
    requires Unpadded(texts)
    ensures StripAll(texts) == texts
  {
    forall i | 0 <= i < |texts| ensures StripAll(texts)[i] == texts[i] {
      StripUnchanged(texts[i]);
    }
  }

  /** A page URL "<host>/contest/<digits>...", the digits followed by a
      non-digit or by nothing, under a host in which every '/' is followed by
      at least three characters other than "con" (the site root
      "https://codeforces.com" is one, see `SiteHost`). */
  predicate ContestUrlOf(url: string, host: string, digits: string) {
    && digits != [] && (forall i :: 0 <= i < |digits| ==> IsDigit(digits[i]))
    && NoContestIn(host)
    && host + CONTEST_SEGMENT + digits <= url
    && (|url| > |host + CONTEST_SEGMENT + digits| ==> !IsDigit(url[|host + CONTEST_SEGMENT + digits|]))
  }

  lemma ContestUrlFields(url: string, host: string, digits: string)
    requires ContestUrlOf(url, host, digits)
    ensures ExtractContestId(url) == digits
  {
    var n := |host + CONTEST_SEGMENT + digits|;
    var tail := url[n..];
    assert url == host + CONTEST_SEGMENT + digits + tail;
    if tail != [] {
      assert tail[0] == url[n];
    }
    ContestAfterHost(host, digits, tail);
  }

  /** A title that strips to "<id>. <name>" yields the id, whatever the name. */
  lemma TitleFields(title: string, id: string, name: string)
    requires IsProblemId(id)
    requires Strip(title) == id + ". " + name
    ensures ExtractProblemId(Strip(title)) == Some(id)
  {
    assert id + ". " + name == id + "." + (" " + name);
    IdBeforeDot(id, " " + name);
  }

  /** Tag boxes whose stripped texts end in a rating split into the other
      stripped tags and that rating. */
  lemma TagFields(tagTexts: seq<string>, tags: seq<string>, rating: string)
    requires IsDifficultyTag(rating) && StripAll(tagTexts) == tags + [rating]
    ensures var stripped := StripAll(tagTexts);
            EndsWithDifficulty(stripped) && stripped[|stripped| - 1] == rating && stripped[..|stripped| - 1] == tags
  {
    var stripped := StripAll(tagTexts);
    assert stripped[..|stripped| - 1] == tags;
  }

  /** A problem page as the site serves it: the URL is "<host>/contest/<digits>/..."
      the title strips to "<id>. <name>", and the stripped tag boxes end in the
      rating. The record then carries that id, that contest, the whole
      stripped title, the other tags and the rating. */
  method WellFormedPage(url: string, page: ProblemPage, host: string, digits: string, id: string, name: string,
                        tags: seq<string>, rating: string)
    returns (metadata: ProblemMetadata)
    requires ContestUrlOf(url, host, digits)
    requires IsProblemId(id) && Strip(page.title) == id + ". " + name
    requires IsDifficultyTag(rating) && StripAll(page.tagTexts) == tags + [rating]
    ensures metadata.problemId == Some(id) && metadata.contestId == digits
    ensures metadata.name == id + ". " + name && metadata.url == url
    ensures metadata.tags == tags && metadata.difficulty == rating
  {
    ContestUrlFields(url, host, digits);
    TitleFields(page.title, id, name);
    TagFields(page.tagTexts, tags, rating);
    var _, _, md := FindQuestionDetails(url, page);
    metadata := md;
  }
}
