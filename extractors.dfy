/**
 * TechnicalExtractor (extractors.py): choosing the AI provider, cleaning the
 * paper text, truncating it, filling the extraction prompt, shaping the
 * provider request, turning a failed call into an error text, and assembling
 * the summary record.
 *
 * The provider call itself is a function parameter `send` from a request to
 * either the reply text or the exception's message.
 */
module Extractors {
  import opened Wrappers
  import opened Text

  // ---------------------------------------------------------------------------
  // Construction
  // ---------------------------------------------------------------------------

  datatype Provider = OpenAI | Anthropic

  /** The configuration keys the extractor reads; None is a missing key. */
  datatype Config = Config(openaiModel: Option<string>, anthropicModel: Option<string>, maxTokens: Option<int>)

  /** A constructed extractor; its fields are never changed after construction. */
  datatype Extractor = Extractor(provider: Provider, config: Config, verbose: bool)

  /**
   * The exceptions the constructor raises: its own ImportError and ValueError,
   * and whatever the client library's constructor raises (ClientError).
   */
  datatype InitError = ImportError(message: string) | ValueError(message: string) | ClientError(message: string)

  function ProviderName(p: Provider): string {
    match p
    case OpenAI => "openai"
    case Anthropic => "anthropic"
  }

  const OpenAIMissing := "OpenAI package not installed. Run: pip install openai"
  const AnthropicMissing := "Anthropic package not installed. Run: pip install anthropic"

  /**
   * The constructor: "openai" and "anthropic" need their client package to be
   * importable and then build the client; every other provider name is refused
   * with a ValueError. The client library's constructor is outside the model:
   * clientError is the message of the exception it raises, or None when it
   * returns a client.
   */
  function NewExtractor(name: string, config: Config, verbose: bool, openaiInstalled: bool, anthropicInstalled: bool,
                        clientError: Option<string>)
    : (r: Result<Extractor, InitError>)
    ensures r.Ok? <==> ((name == "openai" && openaiInstalled) || (name == "anthropic" && anthropicInstalled)) && clientError.None?
    ensures r.Ok? ==> ProviderName(r.value.provider) == name && r.value.config == config && r.value.verbose == verbose
    ensures r.Err? ==> (r.error.ValueError? <==> name != "openai" && name != "anthropic")
    ensures r.Err? ==> (r.error.ImportError? <==> (name == "openai" && !openaiInstalled) || (name == "anthropic" && !anthropicInstalled))
    ensures r.Err? && r.error.ValueError? ==> r.error.message == "Unsupported model provider: " + name
    ensures r.Err? && r.error.ClientError? ==> clientError == Some(r.error.message)
  {
    if name == "openai" then
      if !openaiInstalled then Err(ImportError(OpenAIMissing))
      else if clientError.Some? then Err(ClientError(clientError.value))
      else Ok(Extractor(OpenAI, config, verbose))
    else if name == "anthropic" then
      if !anthropicInstalled then Err(ImportError(AnthropicMissing))
      else if clientError.Some? then Err(ClientError(clientError.value))
      else Ok(Extractor(Anthropic, config, verbose))
    else
      Err(ValueError("Unsupported model provider: " + name))
  }

  /** Each provider's own name constructs an extractor for exactly that provider. */
  lemma ProviderNameRoundTrip(p: Provider, config: Config, verbose: bool)
    ensures NewExtractor(ProviderName(p), config, verbose, true, true, None) == Ok(Extractor(p, config, verbose))
  {
  }

  /** A missing client package is reported as an ImportError naming the package, before any client is built. */
  lemma MissingPackageReported(p: Provider, config: Config, verbose: bool, openaiInstalled: bool, anthropicInstalled: bool,
                               clientError: Option<string>)
    requires p == OpenAI ==> !openaiInstalled
    requires p == Anthropic ==> !anthropicInstalled
    ensures NewExtractor(ProviderName(p), config, verbose, openaiInstalled, anthropicInstalled, clientError)
      == Err(ImportError(if p == OpenAI then OpenAIMissing else AnthropicMissing))
  {
  }

  // ---------------------------------------------------------------------------
  // Section removal patterns
  // ---------------------------------------------------------------------------

  /**
   * One of the case-insensitive patterns `Word(s)?\s*([A-Z])?\s*\n.*`: the
   * word, whether a trailing `s` is optional, and whether one letter may follow.
   */
  datatype SectionPattern = SectionPattern(word: string, plural: bool, letter: bool)

  const SectionsToRemove: seq<SectionPattern> := [
    SectionPattern("References", false, false),
    SectionPattern("Bibliography", false, false),
    SectionPattern("Acknowledgment", true, false),
    SectionPattern("Appendix", false, true)
  ]

  /** `\s*\n` matches at the start of x. */
  predicate SpaceThenNewline(x: string) {
    x != [] && (x[0] == '\n' || (x[0] in Whitespace && SpaceThenNewline(x[1..])))
  }

  /** `\s*[A-Z]?\s*\n` (or `\s*\n` without the letter) matches at the start of x. */
  predicate Gap(x: string, letter: bool) {
    SpaceThenNewline(x)
    || (letter && var t := LStrip(x, Whitespace); t != [] && IsAsciiLetter(t[0]) && SpaceThenNewline(t[1..]))
  }

  /** What follows the word matches, with or without the optional `s`. */
  predicate AfterWord(x: string, p: SectionPattern) {
    Gap(x, p.letter) || (p.plural && x != [] && (x[0] == 's' || x[0] == 'S') && Gap(x[1..], p.letter))
  }

  /**
   * The pattern matches s starting at position i (the trailing `.*` matches
   * anything); the match always reaches past the word, at least to a newline.
   */
  predicate MatchAt(s: string, p: SectionPattern, i: int)
    requires 0 <= i <= |s|
    ensures MatchAt(s, p, i) ==> i + |p.word| < |s|
  {
    i + |p.word| <= |s| && Upper(s[i..i + |p.word|]) == Upper(p.word) && AfterWord(s[i + |p.word|..], p)
  }

  /** The leftmost position at or after i where the pattern matches. */
  function FirstMatch(s: string, p: SectionPattern, i: nat): (r: Option<nat>)
    requires i <= |s|
    ensures r.Some? ==> i <= r.value <= |s| && MatchAt(s, p, r.value)
    ensures r.Some? ==> forall j :: i <= j < r.value ==> !MatchAt(s, p, j)
    ensures r.None? ==> forall j :: i <= j <= |s| ==> !MatchAt(s, p, j)
    decreases |s| - i
  {
    if MatchAt(s, p, i) then Some(i)
    else if i == |s| then None
    else FirstMatch(s, p, i + 1)
  }

  lemma NoNewlineNoSpaceRun(x: string)
    requires forall j :: 0 <= j < |x| ==> x[j] != '\n'
    ensures !SpaceThenNewline(x)
  {
    if x != [] {
      NoNewlineNoSpaceRun(x[1..]);
    }
  }

  lemma NoNewlineNoGap(x: string, letter: bool)
    requires forall j :: 0 <= j < |x| ==> x[j] != '\n'
    ensures !Gap(x, letter)
  {
    NoNewlineNoSpaceRun(x);
    var t := LStrip(x, Whitespace);
    if t != [] {
      assert forall j :: 0 <= j < |t[1..]| ==> t[1..][j] == x[|x| - |t| + 1 + j];
      NoNewlineNoSpaceRun(t[1..]);
    }
  }

  /** Nothing follows the end of the text, so no pattern matches there. */
  lemma NoMatchAtEnd(s: string, p: SectionPattern)
    ensures !MatchAt(s, p, |s|)
  {
    var x := s[|s|..];
    assert x == [] && !AfterWord(x, p);
  }

  /** Every pattern needs a newline, so on text without one it matches nowhere. */
  lemma NoNewlineNoMatch(s: string, p: SectionPattern, i: int)
    requires forall j :: 0 <= j < |s| ==> s[j] != '\n'
    requires 0 <= i <= |s|
    ensures !MatchAt(s, p, i)
  {
    if i + |p.word| <= |s| {
      var x := s[i + |p.word|..];
      assert forall j :: 0 <= j < |x| ==> x[j] == s[i + |p.word| + j];
      NoNewlineNoGap(x, p.letter);
      if x != [] {
        assert forall j :: 0 <= j < |x[1..]| ==> x[1..][j] == s[i + |p.word| + 1 + j];
        NoNewlineNoGap(x[1..], p.letter);
      }
    }
  }

  /**
   * re.sub(pattern, '', s, flags=DOTALL|IGNORECASE): the trailing `.*` runs to
   * the end of the text, so everything from the leftmost match on is removed.
   */
  function RemoveSection(s: string, p: SectionPattern): (r: string)
    ensures |r| <= |s| && r == s[..|r|]
    ensures r == s <==> forall i :: 0 <= i <= |s| ==> !MatchAt(s, p, i)
    ensures r != s ==> MatchAt(s, p, |r|) && forall j :: 0 <= j < |r| ==> !MatchAt(s, p, j)
  {
    NoMatchAtEnd(s, p);
    match FirstMatch(s, p, 0)
    case Some(i) => s[..i]
    case None => s
  }

  /** Text without a newline is left unchanged by every removal pattern. */
  lemma NoNewlineNoRemoval(s: string, p: SectionPattern)
    requires forall j :: 0 <= j < |s| ==> s[j] != '\n'
    ensures RemoveSection(s, p) == s
  {
    forall i | 0 <= i <= |s| ensures !MatchAt(s, p, i) {
      NoNewlineNoMatch(s, p, i);
    }
  }

  /**
   * Wherever "References" is directly followed by a newline, the references
   * pattern matches, so the removal cuts the text there or earlier.
   */
  lemma ReferencesHeaderRemoved(s: string, i: nat)
    requires i + 11 <= |s| && s[i..i + 11] == "References\n"
    ensures |RemoveSection(s, SectionsToRemove[0])| <= i
    ensures RemoveSection(s, SectionsToRemove[0]) == s[..|RemoveSection(s, SectionsToRemove[0])|]
  {
    var p := SectionsToRemove[0];
    assert s[i..i + 10] == s[i..i + 11][..10] == p.word;
    var x := s[i + 10..];
    assert x[0] == s[i..i + 11][10] == '\n';
    assert SpaceThenNewline(x) && AfterWord(x, p);
    assert MatchAt(s, p, i);
  }

  /** An example: a references section at the start of the text removes all of it. */
  lemma ReferencesSectionRemoved()
    ensures RemoveSection("References\n[1] A. Author", SectionsToRemove[0]) == []
  {
    var s := "References\n[1] A. Author";
    var p := SectionsToRemove[0];
    assert s[10..] == "\n[1] A. Author";
    assert Upper(s[0..10]) == Upper(p.word);
    assert MatchAt(s, p, 0);
  }

  // ---------------------------------------------------------------------------
  // Preprocessing
  // ---------------------------------------------------------------------------

  /** Runs of newlines become one newline, then runs of whitespace become one space. */
  function Collapsed(content: string): string {
    CollapseRuns(CollapseRuns(content, {'\n'}, '\n'), Whitespace, ' ')
  }

  /** The cleaned content: collapsed, then stripped of surrounding whitespace. */
  function Preprocess(content: string): string {
    Strip(Collapsed(content), Whitespace)
  }

  /** Every character of the collapsed text is a space or not whitespace at all. */
  lemma CollapsedShape(content: string)
    ensures forall i :: 0 <= i < |Collapsed(content)| ==> Collapsed(content)[i] == ' ' || Collapsed(content)[i] !in Whitespace
    ensures forall i :: 0 <= i < |Collapsed(content)| ==> Collapsed(content)[i] != '\n'
  {
    CollapsedChars(CollapseRuns(content, {'\n'}, '\n'), Whitespace, ' ');
    assert '\n' in Whitespace;
  }

  /**
   * The preprocessing loop: the four removals run on text without a newline,
   * so the result is the collapsed, stripped content.
   */
  method PreprocessContent(content: string) returns (r: string)
    ensures r == Preprocess(content)
  {
    var c := CollapseRuns(content, {'\n'}, '\n');
    c := CollapseRuns(c, Whitespace, ' ');
    CollapsedShape(content);
    for k := 0 to |SectionsToRemove|
      invariant c == Collapsed(content)
    {
      NoNewlineNoRemoval(c, SectionsToRemove[k]);
      c := RemoveSection(c, SectionsToRemove[k]);
    }
    r := Strip(c, Whitespace);
  }

  /**
   * Stripping keeps "only sp from the class cs, never two class characters in
   * a row", and a class character nl other than sp is then nowhere left.
   */
  lemma {:induction false} StrippedShape(x: string, cs: set<char>, sp: char, nl: char)
    requires forall i :: 0 <= i < |x| ==> x[i] == sp || x[i] !in cs
    requires forall i :: 0 <= i < |x| - 1 ==> !PairIn(x, i, cs)
    requires nl in cs && nl != sp
    ensures forall i :: 0 <= i < |Strip(x, cs)| ==> Strip(x, cs)[i] == sp || Strip(x, cs)[i] !in cs
    ensures forall i :: 0 <= i < |Strip(x, cs)| ==> Strip(x, cs)[i] != nl
    ensures forall i :: 0 <= i < |Strip(x, cs)| - 1 ==> !PairIn(Strip(x, cs), i, cs)
  {
    var r := Strip(x, cs);
    var k := |x| - |LStrip(x, cs)|;
    assert TrimmedSlice(x, r, k, cs, cs);
    forall i | 0 <= i < |r| ensures (r[i] == sp || r[i] !in cs) && r[i] != nl {
      assert r[i] == x[k + i];
    }
    forall i | 0 <= i < |r| - 1 ensures !PairIn(r, i, cs) {
      assert !PairIn(x, k + i, cs);
      assert r[i] == x[k + i] && r[i + 1] == x[k + i + 1];
    }
  }

  /**
   * Preprocessed text has no newline, its only whitespace is the plain space,
   * it has no two adjacent whitespace characters, and it neither starts nor
   * ends with whitespace.
   */
  lemma PreprocessShape(content: string)
    ensures forall i :: 0 <= i < |Preprocess(content)| ==> Preprocess(content)[i] != '\n'
    ensures forall i :: 0 <= i < |Preprocess(content)| ==> Preprocess(content)[i] == ' ' || Preprocess(content)[i] !in Whitespace
    ensures forall i :: 0 <= i < |Preprocess(content)| - 1 ==> !PairIn(Preprocess(content), i, Whitespace)
    ensures Preprocess(content) == [] || (Preprocess(content)[0] !in Whitespace && Preprocess(content)[|Preprocess(content)| - 1] !in Whitespace)
  {
    CollapsedShape(content);
    assert '\n' in Whitespace;
    StrippedShape(Collapsed(content), Whitespace, ' ', '\n');
  }

  /** Cleaning already clean text changes nothing. */
  lemma {:induction false} PreprocessIdempotent(content: string)
    ensures Preprocess(Preprocess(content)) == Preprocess(content)
  {
    var r := Preprocess(content);
    PreprocessShape(content);
    NoNewlineRunsUnchanged(r);
    CollapseRunsUnchanged(r, Whitespace, ' ');
    StripUnchanged(r, Whitespace);
  }

  lemma NoNewlineRunsUnchanged(r: string)
    requires forall i :: 0 <= i < |r| ==> r[i] != '\n'
    ensures CollapseRuns(r, {'\n'}, '\n') == r
  {
    assert forall i :: 0 <= i < |r| - 1 ==> !PairIn(r, i, {'\n'});
    CollapseRunsUnchanged(r, {'\n'}, '\n');
  }


  // ---------------------------------------------------------------------------
  // Truncation
  // ---------------------------------------------------------------------------

  const MaxContent := 100000
  const TruncationMarker := "\n[Content truncated for processing]"

  /** Content over the limit keeps its first MaxContent characters and gets the marker. */
  function Truncate(content: string): (r: string)
    ensures |r| <= MaxContent + |TruncationMarker|
    ensures |content| <= MaxContent ==> r == content
    ensures |content| > MaxContent ==>
      |r| == MaxContent + |TruncationMarker| && r[..MaxContent] == content[..MaxContent] && r[MaxContent..] == TruncationMarker
  {
    if |content| > MaxContent then content[..MaxContent] + TruncationMarker else content
  }

  /** Truncating twice is truncating once. */
  lemma TruncateIdempotent(content: string)
    ensures Truncate(Truncate(content)) == Truncate(content)
  {
    if |content| > MaxContent {
      var r := Truncate(content);
      assert r == r[..MaxContent] + r[MaxContent..];
    }
  }

  // ---------------------------------------------------------------------------
  // Prompt and requests
  // ---------------------------------------------------------------------------

  /**
   * The extraction template up to its {title} field, one entry per line: the
   * template starts with a newline and its first text line keeps a trailing space.
   */
  const TemplateLines: seq<string> := [
    "",
    "You are a technical reviewer tasked with extracting the core technical details from a research paper. ",
    "",
    "Focus on extracting:",
    "1. **Core Methods**: The fundamental approaches, algorithms, or techniques",
    "2. **Technical Implementation**: Specific algorithms, mathematical formulations, architectural details",
    "3. **Key Innovations**: Novel technical contributions or improvements",
    "4. **Technical Parameters**: Important hyperparameters, model configurations, technical specifications",
    "5. **Experimental Setup**: Technical aspects of experiments (not results/benchmarks)",
    "",
    "IGNORE:",
    "- Marketing language and promotional content",
    "- Extensive benchmark comparisons and results tables",
    "- Related work sections (unless they contain technical details for the current work)",
    "- General background information",
    "- Detailed experimental results and performance metrics",
    "",
    "Extract the information and structure it with clear headings. Be concise but comprehensive for technical details.",
    "",
    "Paper Title: "
  ]

  /** Lines joined with newlines, as they stand in the template. */
  function JoinLines(lines: seq<string>): string
    decreases |lines|
  {
    if lines == [] then [] else if |lines| == 1 then lines[0] else lines[0] + "\n" + JoinLines(lines[1..])
  }

  /**
   * A str.format template with a {title} and then a {content} field, as its
   * three fixed pieces: before {title}, between the fields, and after {content}.
   */
  datatype Template = Template(head: string, middle: string, tail: string)

  /** EXTRACTION_PROMPT. */
  const ExtractionPrompt := Template(
    JoinLines(TemplateLines),
    "\n\nPaper Content:\n",
    "\n\nExtract the technical details following the structure above:\n")

  /**
   * template.format(title=title, content=content): the title and the content
   * are inserted verbatim between the template's fixed pieces.
   */
  function BuildPrompt(t: Template, title: string, content: string): (r: string)
    ensures |r| == |t.head| + |title| + |t.middle| + |content| + |t.tail|
    ensures r[..|t.head|] == t.head
    ensures r[|t.head|..|t.head| + |title|] == title
    ensures r[|t.head| + |title|..|t.head| + |title| + |t.middle|] == t.middle
    ensures r[|t.head| + |title| + |t.middle|..|r| - |t.tail|] == content
    ensures r[|r| - |t.tail|..] == t.tail
  {
    t.head + title + t.middle + content + t.tail
  }

  /** For a given title, different contents give different prompts. */
  lemma PromptDeterminesContent(t: Template, title: string, c1: string, c2: string)
    requires BuildPrompt(t, title, c1) == BuildPrompt(t, title, c2)
    ensures c1 == c2
  {
    var r := BuildPrompt(t, title, c1);
    assert c1 == r[|t.head| + |title| + |t.middle|..|r| - |t.tail|];
  }

  datatype Role = System | User

  datatype Message = Message(role: Role, content: string)

  /** The parts of a provider call the model keeps (temperature is left out). */
  datatype Request = Request(model: string, messages: seq<Message>, maxTokens: int)

  const SystemPrompt := "You are a technical reviewer extracting core technical details from research papers."
  const DefaultOpenAIModel := "gpt-4"
  const DefaultAnthropicModel := "claude-3-sonnet-20240229"
  const DefaultMaxTokens := 4000

  /** The chat request each provider is sent for a prompt. */
  function BuildRequest(e: Extractor, prompt: string): (q: Request)
    ensures q.maxTokens == e.config.maxTokens.GetOr(DefaultMaxTokens)
    ensures q.messages != [] && q.messages[|q.messages| - 1] == Message(User, prompt)
    ensures e.provider == OpenAI ==>
      q.model == e.config.openaiModel.GetOr(DefaultOpenAIModel) && q.messages == [Message(System, SystemPrompt), Message(User, prompt)]
    ensures e.provider == Anthropic ==>
      q.model == e.config.anthropicModel.GetOr(DefaultAnthropicModel) && q.messages == [Message(User, prompt)]
  {
    match e.provider
    case OpenAI =>
      Request(e.config.openaiModel.GetOr(DefaultOpenAIModel), [Message(System, SystemPrompt), Message(User, prompt)],
              e.config.maxTokens.GetOr(DefaultMaxTokens))
    case Anthropic =>
      Request(e.config.anthropicModel.GetOr(DefaultAnthropicModel), [Message(User, prompt)],
              e.config.maxTokens.GetOr(DefaultMaxTokens))
  }

  /** Every user message of a request carries the prompt, and nothing else does. */
  lemma OnlyUserMessageIsPrompt(e: Extractor, prompt: string)
    ensures forall i :: 0 <= i < |BuildRequest(e, prompt).messages| ==>
      (BuildRequest(e, prompt).messages[i].role == User <==> BuildRequest(e, prompt).messages[i] == Message(User, prompt))
  {
  }

  const ErrorPrefix := "Error extracting technical content: "

  /**
   * _extract_with_openai and _extract_with_anthropic: the reply text, or the
   * error text built from the exception's message; no exception escapes.
   */
  function CallProvider(e: Extractor, prompt: string, send: Request -> Result<string, string>): (r: string)
    ensures send(BuildRequest(e, prompt)).Ok? ==> r == send(BuildRequest(e, prompt)).value
    ensures send(BuildRequest(e, prompt)).Err? ==> r == ErrorPrefix + send(BuildRequest(e, prompt)).error
  {
    match send(BuildRequest(e, prompt))
    case Ok(text) => text
    case Err(message) => ErrorPrefix + message
  }

  /** A failed call's text starts with the error prefix and ends with the exception's message. */
  lemma FailureMessageRecoverable(e: Extractor, prompt: string, send: Request -> Result<string, string>)
    requires send(BuildRequest(e, prompt)).Err?
    ensures |ErrorPrefix| <= |CallProvider(e, prompt, send)|
    ensures CallProvider(e, prompt, send)[..|ErrorPrefix|] == ErrorPrefix
    ensures CallProvider(e, prompt, send)[|ErrorPrefix|..] == send(BuildRequest(e, prompt)).error
  {
  }

  /**
   * _extract_with_ai: fill the template and call the extractor's provider. The
   * result is the reply to the provider's request for the paper's prompt, or
   * the error text for the exception that request raised.
   */
  function ExtractWithAi(e: Extractor, title: string, content: string, send: Request -> Result<string, string>): (r: string)
    ensures var q := BuildRequest(e, BuildPrompt(ExtractionPrompt, title, content));
      (send(q).Ok? ==> r == send(q).value) && (send(q).Err? ==> r == ErrorPrefix + send(q).error)
  {
    CallProvider(e, BuildPrompt(ExtractionPrompt, title, content), send)
  }

  /**
   * The request sent for a paper ends with the user message holding the
   * prompt, and the content stands in that prompt unchanged, between the
   * template's middle part and its tail; for ExtractionPrompt these are
   * "Paper Content:\n" and the closing line.
   */
  lemma RequestCarriesContent(e: Extractor, t: Template, title: string, content: string)
    ensures var m := BuildRequest(e, BuildPrompt(t, title, content)).messages;
      var last := m[|m| - 1];
      last.role == User
      && |t.head| + |title| + |t.middle| <= |last.content| - |t.tail|
      && last.content[|t.head| + |title| + |t.middle|..|last.content| - |t.tail|] == content
  {
  }

  // ---------------------------------------------------------------------------
  // extract
  // ---------------------------------------------------------------------------

  /** The fields of a parsed paper that extract reads. */
  datatype Paper = Paper(title: string, authors: seq<string>, source: string, url: string, abstractText: string, content: string)

  /** The record extract returns. */
  datatype Summary = Summary(title: string, authors: seq<string>, source: string, url: string, abstractText: string,
                             technicalContent: string)

  /** Clean and truncate the content, ask the provider, and copy the paper's fields. */
  method Extract(e: Extractor, paper: Paper, send: Request -> Result<string, string>) returns (s: Summary)
    ensures s.title == paper.title && s.authors == paper.authors && s.source == paper.source
    ensures s.url == paper.url && s.abstractText == paper.abstractText
    ensures s.technicalContent == ExtractWithAi(e, paper.title, Truncate(Preprocess(paper.content)), send)
  {
    var content := PreprocessContent(paper.content);
    if |content| > MaxContent {
      content := content[..MaxContent] + TruncationMarker;
    }
    assert content == Truncate(Preprocess(paper.content));
    var technical := ExtractWithAi(e, paper.title, content, send);
    s := Summary(paper.title, paper.authors, paper.source, paper.url, paper.abstractText, technical);
  }
}
