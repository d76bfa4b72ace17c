# Winnower: a verified model of its naming, cleaning and dispatch rules

Winnower takes a research paper (a file, a directory of files, a URL or an
arXiv id). It extracts the paper's text, asks an AI provider to pull out the
technical content, and writes the answer next to the paper. This project models the parts of
Winnower that decide what goes where and what is sent:

- `WinnowerCore` (`winnower_core.dfy`): `WinnowerProcessor._generate_safe_filename`,
  the security-hardened file-name generator. It:
  - replaces dangerous characters, `..` and `~`;
  - turns whitespace runs into `_`;
  - trims the ends, cuts to 50 characters and falls back to `paper`;
  - prefixes Windows device names with `paper_`;
  - appends the suffix.

  It also models `_collect_papers`, the file/directory dispatch.
- `LegacyCore` (`legacy_core.dfy`): the older processor's `_generate_output_filename`.
  It keeps alphanumerics, spaces, `-` and `_`, right-strips the title, turns spaces
  into `_`, cuts to 50 characters, falls back to `paper` and puts the
  `_technical_summary.md` file into the output directory. Its `_collect_papers` is
  the same dispatch as `WinnowerCore.CollectPapers`.
- `Extractors` (`extractors.dfy`): `TechnicalExtractor`, covering:
  - the provider check in its constructor;
  - content preprocessing, with the four section-removal patterns and the loop that applies them;
  - truncation to 100000 characters plus a marker;
  - the extraction prompt template;
  - the request each provider is sent;
  - the error text that replaces a failed call;
  - the record `extract` returns.
- `Text` (`text.dfy`): the Python string operations these use:
  - `isspace`/`\s`;
  - ASCII `isalnum` and `upper`;
  - `lstrip`/`rstrip`/`strip` with a character set;
  - single-character `replace`;
  - `re.sub` of a character-class run by one character.
- `Wrappers` (`wrappers.dfy`): `Option` for a missing configuration key and
  `Result` for a raised exception.

Strings are `seq<char>`. The filesystem predicates `is_file`/`is_dir`, the
parser's directory listing and the provider call are parameters. The call is a
function from the request to either the reply text or the exception's message.

Three consequences of the code that its comments and names do not suggest:

- The section-removal patterns never fire, because whitespace has already been
  collapsed, and each pattern needs a newline after its header. References and
  appendices are therefore not removed.
  - `Extractors.NoNewlineNoRemoval` and `Extractors.PreprocessContent` prove this.
  - `Extractors.ReferencesHeaderRemoved` shows that the pattern does work on text that still has its newline.
- The title "My Paper!!" with suffix "summary" gives `My_Paper!!_summary`, not
  `My_Paper_summary`, because `!` is not a character the generator replaces
  (`WinnowerCore.SpacedTitleKeepsPunctuation`).
- Content over 100000 characters is sent as its first 100000 characters plus the
  35-character marker, so what is sent can exceed 100000 characters (`Extractors.Truncate`).

## Model

| member | source | states |
|---|---|---|
| WinnowerCore.ReplaceUnsafe | winnower/core.py:120 | same length; each of `<`, `>`, `:`, `"`, `/`, `\`, `?`, `*`, the vertical bar and 0x00-0x1F becomes `_` at its place, and every other character is kept at its place |
| WinnowerCore.ReplaceDoubleDot | winnower/core.py:123 | left-to-right `replace('..','_')`: no `..` remains, every character is `_` or came from the input, the first character is `_` when the input starts with `..` and the input's first character otherwise, and input without `..` is unchanged |
| WinnowerCore.ReplaceDoubleDotKeepsRest | winnower/core.py:123 | the characters other than `.` and `_` come out in the same order; the `_` count grows by the number of characters removed, and the `.` count falls by twice that number |
| WinnowerCore.ReplaceDoubleDotLeftmost | winnower/core.py:123 | matches are taken leftmost first: for any `a` without `..` and not ending in `.`, `a + ".." + b` becomes `a + "_"` followed by the replacement of `b`; with the unchanged case this fixes the result for every input |
| WinnowerCore.PrefixCopied | winnower/core.py:123 | a prefix without `..` and not ending in `.` is copied unchanged in front of the replacement of the rest |
| WinnowerCore.Replaced | winnower/core.py:120-123 | after the three replacements no unsafe character, no `~` and no `..` remains |
| WinnowerCore.TildeReplacedIsSafe | winnower/core.py:123 | replacing `~` keeps the text free of unsafe characters and of `..` |
| WinnowerCore.CollapseKeepsNoDoubleDot | winnower/core.py:126 | collapsing whitespace runs to `_` cannot create `..` |
| WinnowerCore.CollapseIsSafe | winnower/core.py:126 | after the collapse no whitespace is left, and the text is safe |
| WinnowerCore.CollapsedCharAllowed | winnower/core.py:126 | every character of the collapse is an allowed name character |
| WinnowerCore.Scrub | winnower/core.py:120-126 | the scrubbed title is safe: no unsafe character, no `~`, no whitespace, no `..` |
| WinnowerCore.ScrubKeepsSafe | winnower/core.py:120-126 | an already safe text passes through the scrubbing unchanged |
| WinnowerCore.ScrubSingleSpace | winnower/core.py:120-126 | two safe words joined by one space become the words joined by `_` |
| WinnowerCore.CollapseKeepsPrefix | winnower/core.py:126 | a prefix without whitespace passes through the collapse unchanged |
| WinnowerCore.TrimEnds | winnower/core.py:129 | the trimmed text neither starts nor ends with `_`, `-` or space; it is the slice of the dot-stripped text where `strip` stops, with only `_`, `-` and space dropped on either side; trimming keeps a safe text safe |
| WinnowerCore.StrippedIsSafe | winnower/core.py:129 | `lstrip` and `strip` keep a safe text safe |
| WinnowerCore.Clamp | winnower/core.py:132-137 | the stem has 3 to 50 characters; a text shorter than 3 becomes `paper`; a text of 3 to 50 is kept; a longer one becomes a prefix of it not ending in `_` whose cut-off part up to character 50 is all `_`, or `paper` only when characters 3 to 50 are all `_`; safety is kept |
| WinnowerCore.BaseName | winnower/core.py:140 | `split('.')[0]`: the longest prefix without `.`, followed by `.` in the text when shorter |
| WinnowerCore.BaseNameOfPrefixed | winnower/core.py:140-147 | a prefix without `.` stays at the front of the base name |
| WinnowerCore.ReservedShape | winnower/core.py:141-145 | every reserved device name has 3 or 4 characters and no `_` |
| WinnowerCore.GuardReserved | winnower/core.py:139-147 | a name whose upper-cased base is a device name gets `paper_` in front, any other is unchanged, and the result is never a device name |
| WinnowerCore.StemGuardIsSafe | winnower/core.py:146-147 | the guard keeps a stem of 3 to 50 characters safe, with length between 3 and 56 |
| WinnowerCore.PrefixedIsSafe | winnower/core.py:147 | `paper_` in front of a safe stem is safe |
| WinnowerCore.Finish | winnower/core.py:132-147 | the cut, fallback and guard give a safe name of 3 to 56 characters that is not a device name and starts with `.` only if the trimmed text did |
| WinnowerCore.SafeName | winnower/core.py:118-147 | the name before the suffix is safe, has 3 to 56 characters and is not a device name |
| WinnowerCore.WithSuffix | winnower/core.py:150-152 | an empty suffix returns the name; otherwise the result is `name + "_" + suffix`; with a safe suffix the result is safe and never a device name |
| WinnowerCore.SafeFilename | winnower/core.py:114-152 | the file name: name alone or `name_suffix`; safe when the suffix is; at most 6 + 50 + 1 + length of the suffix characters; never a device name |
| WinnowerCore.SuffixedIsSafe | winnower/core.py:150-151 | joining a safe name and a safe suffix with `_` is safe |
| WinnowerCore.SuffixedNotReserved | winnower/core.py:150-151 | appending `_suffix` to a name that is not a device name keeps it from being one |
| WinnowerCore.TrimmedSafeTitleKept | winnower/core.py:129-147 | a safe title of 3 to 50 characters with nothing to trim comes out with only the device prefix possibly added |
| WinnowerCore.DeviceTitleIsPrefixed | winnower/core.py:140-147 | such a title whose base is a device name comes out as `paper_` + title |
| WinnowerCore.ShortTitleIsPlaceholder | winnower/core.py:136-137 | a title that trims to fewer than 3 characters gives exactly `paper` |
| WinnowerCore.PlaceholderNotReserved | winnower/core.py:137-146 | the placeholder `paper` is not a device name |
| WinnowerCore.ConIsPrefixed | winnower/core.py:140-147 | `"CON"` gives `"paper_CON"` |
| WinnowerCore.NulTxtIsPrefixed | winnower/core.py:140-147 | `"nul.txt"` gives `"paper_nul.txt"` |
| WinnowerCore.TraversalTitleDefused | winnower/core.py:120-123 | `"../../etc/passwd"` gives a name with no `/` and no `..` |
| WinnowerCore.JoinedFilename | winnower/core.py:120-152 | two safe words joined by a space, with a suffix, give `a_b_suffix` |
| WinnowerCore.SpacedTitleKeepsPunctuation | winnower/core.py:120-151 | `"My Paper!!"` with suffix `summary` gives `"My_Paper!!_summary"` |
| WinnowerCore.SpacePrefixedFilename | winnower/core.py:126-129 | a leading space becomes `_` and is trimmed away again |
| WinnowerCore.HiddenNameAsWritten | winnower/core.py:128-129 | `" .hidden"` with suffix `summary` gives `".hidden_summary"`, a hidden file name |
| WinnowerCore.TrimEndsNoHidden | winnower/core.py:128-129 | corrected trim: the result starts with none of `.`, `_`, `-` and space and ends with none of `_`, `-` and space; it is a slice of the text with only those characters dropped in front and only `_`, `-` and space after; safety is kept |
| WinnowerCore.SafeNameNoHidden | winnower/core.py:118-147 | corrected name: safe, 3 to 56 characters, not a device name, and never starting with `.` |
| WinnowerCore.SafeFilenameNoHidden | winnower/core.py:114-152 | corrected file name: as `SafeFilename`, and never starting with `.` |
| WinnowerCore.NoHiddenAgrees | winnower/core.py:129 | where the written trim does not leave a leading `.`, the corrected name equals the written one |
| WinnowerCore.DotPrefixedFilenameCorrected | winnower/core.py:128-129 | with the correction, `" ." + c` with a suffix gives `c_suffix` |
| WinnowerCore.HiddenNameCorrected | winnower/core.py:128-129 | with the correction, `" .hidden"` with suffix `summary` gives `"hidden_summary"` |
| WinnowerCore.CollectPapers | winnower/core.py:100-112 | a file, or a path that is neither a file nor a directory, gives `[inputSource]`; a directory gives the parser's listing in order (core.py:57-67 is the same dispatch) |
| WinnowerCore.NoPapersOnlyForEmptyDirectory | core.py:57-67 | the list is empty exactly when the source is a directory whose listing is empty |
| LegacyCore.Underscored | core.py:73 | a kept character becomes a name character |
| LegacyCore.KeepChars | core.py:72 | the filter keeps only alphanumerics, spaces, `-` and `_`, and never lengthens |
| LegacyCore.KeepCharsAppend | core.py:72 | filtering a text with one more character adds that character exactly when it is kept |
| LegacyCore.KeepCharsOfKept | core.py:72 | a text of kept characters is its own filter |
| LegacyCore.Cut | core.py:72-73 | at most 50 characters, each the filtered title's character at the same place with a space turned into `_` |
| LegacyCore.CutLength | core.py:72-73 | the cut is as long as the filtered, right-stripped title, up to 50 |
| LegacyCore.SafeTitle | core.py:71-76 | 1 to 50 characters, each alphanumeric, `-` or `_`, so no `.`, `/` or `\`; the filtered title's cut when that is not empty, and `paper` exactly when it is |
| LegacyCore.OutputFile | core.py:78 | the path is the output directory plus one segment, `safe_title + "_technical_summary.md"`, which has no separator and is neither `.` nor `..` |
| LegacyCore.FallbackWhenNothingKept | core.py:72-76 | a title without a letter, digit, `-` or `_` gives `paper`; with one, the cut is not empty and is the name |
| LegacyCore.TrailingIgnored | core.py:72 | a trailing space or dropped character does not change the name, because spaces are removed before they become `_` |
| LegacyCore.CutOfKept | core.py:72-73 | a text of at most 50 kept characters not ending in a space is its own filter and keeps its length |
| LegacyCore.NameIsOwnTitle | core.py:71-76 | a text of 1 to 50 name characters is its own safe title |
| LegacyCore.SafeTitleIdempotent | core.py:71-76 | the generator is idempotent |
| LegacyCore.HelloWorldExample | core.py:72-73 | `"Hello World"` gives `"Hello_World"` |
| Extractors.NewExtractor | extractors.py:48-62 | construction succeeds exactly for `openai` or `anthropic` with the package installed and a client constructor that does not raise, keeping config and verbosity; a missing package is an ImportError; the client constructor's exception is passed on; any other name is a ValueError naming it |
| Extractors.ProviderNameRoundTrip | extractors.py:53-60 | each provider's name constructs an extractor for that provider |
| Extractors.MissingPackageReported | extractors.py:53-59 | a missing client package gives the ImportError text naming that package |
| Extractors.MatchAt | extractors.py:91-94 | a pattern match at a position always reaches past the word (`\s*\n` needs at least the newline) |
| Extractors.FirstMatch | extractors.py:98 | the leftmost position where the pattern matches, or none at all |
| Extractors.RemoveSection | extractors.py:90-98 | the result is a prefix of the text; it is the whole text exactly when no pattern match exists, and otherwise it ends where the leftmost match starts |
| Extractors.NoMatchAtEnd | extractors.py:90-95 | no pattern matches at the end of the text |
| Extractors.NoNewlineNoMatch | extractors.py:90-95 | each pattern needs a newline, so on text without one it matches nowhere |
| Extractors.NoNewlineNoRemoval | extractors.py:90-98 | text without a newline is unchanged by every removal |
| Extractors.ReferencesHeaderRemoved | extractors.py:91-98 | wherever `References` is followed directly by a newline, the first removal cuts the text to a prefix that ends at or before that word |
| Extractors.ReferencesSectionRemoved | extractors.py:91 | example: a text that starts with `References` and a newline is removed entirely |
| Extractors.CollapsedShape | extractors.py:87-88 | after the two collapses every character is a space or not whitespace, so no newline is left |
| Extractors.PreprocessContent | extractors.py:85-100 | the loop over the four patterns leaves the collapsed text as it is; the result is that text stripped |
| Extractors.StrippedShape | extractors.py:100 | `strip()` keeps "only the space from the class, never two class characters in a row", so a class character other than the space, such as the newline, stays absent |
| Extractors.PreprocessShape | extractors.py:87-100 | preprocessed text has no newline, its only whitespace is the space, no two whitespace characters are adjacent, and it neither starts nor ends with whitespace |
| Extractors.PreprocessIdempotent | extractors.py:85-100 | preprocessing preprocessed text changes nothing |
| Extractors.Truncate | extractors.py:71-72 | content of at most 100000 characters is unchanged; longer content becomes its first 100000 characters followed by the marker |
| Extractors.TruncateIdempotent | extractors.py:71-72 | truncating twice is truncating once |
| Extractors.BuildPrompt | extractors.py:104 | `format` of the template (the one at extractors.py:21-46): the prompt is the template's head, the title, the middle, the content and the tail, each at its own place, so the content is a contiguous part of the prompt |
| Extractors.PromptDeterminesContent | extractors.py:104 | for one template and title, different contents give different prompts |
| Extractors.BuildRequest | extractors.py:114-137 | OpenAI: system message then the prompt, model defaulting to `gpt-4`. Anthropic: the prompt alone, model defaulting to `claude-3-sonnet-20240229`. Both: max_tokens defaulting to 4000 |
| Extractors.OnlyUserMessageIsPrompt | extractors.py:116-136 | every user message of a request is the prompt |
| Extractors.CallProvider | extractors.py:111-142 | a successful call returns the reply; a failed one returns `"Error extracting technical content: " + message` instead of raising |
| Extractors.FailureMessageRecoverable | extractors.py:124-127 | a failed call's text starts with the error prefix and ends with the exception's message |
| Extractors.ExtractWithAi | extractors.py:102-109 | the result is the provider's reply to the request for the filled extraction prompt, or the error text for that request's exception |
| Extractors.RequestCarriesContent | extractors.py:102-109 | for any template, and so for the extraction prompt, the request sent ends with the user message holding the prompt, with the content unchanged between the template's middle (`Paper Content:`) and its closing line |
| Extractors.Extract | extractors.py:64-83 | title, authors, source, url and abstract are copied unchanged; the technical content is the provider's answer for the preprocessed, truncated content |
| Text.LStrip | winnower/core.py:129 | `lstrip`: a suffix that does not start with a character of the set, with only set characters dropped |
| Text.RStrip | core.py:72 | `rstrip`: a prefix that does not end with a character of the set, with only set characters dropped |
| Text.Strip | winnower/core.py:129 | `strip`: neither end is a character of the set, and the result is the slice of the text starting where `lstrip` stops, with only set characters before and after it |
| Text.CollapseRuns | extractors.py:87-88 | `re.sub` of a class run: no two class characters are adjacent, and the first character is the replacement when the text starts with a class character and the text's own first character otherwise |
| Text.CollapsedChars | winnower/core.py:126 | every character of the collapse is the replacement or a character of the text outside the class |
| Text.CollapseRunsIsScan | extractors.py:87-88 | the collapse equals a character-by-character reading: a class character gives the replacement unless the previous one was a class character, and any other character is copied |
| Text.CollapseKeepsOthers | winnower/core.py:126 | the characters outside the class and other than the replacement come out in the same order |
| Text.CollapseRunsUnchanged | extractors.py:87-88 | a text whose class characters are all the replacement and never adjacent is its own collapse |

## Left out

- `process` in both processors: directory creation, file writes and copies, printing and tracebacks are I/O.
- `PaperParser` and `MarkdownFormatter` are not part of this model. Directory listing is the parameter `findPapers`, and `str(f)` of each listed path is taken to be that path.
- config.py, cli.py, the test runner and the test fixtures are not part of this model.
- The OpenAI and Anthropic clients, API keys from the environment, and response objects are foreign code. The call is the parameter `send`, and an exception is its message.
- `temperature` is a float and is not part of the modelled request.
- Verbose printing in `extract` and in the error paths is output only.
- The client constructors `openai.OpenAI(...)` and `anthropic.Anthropic(...)` are foreign code. Their outcome is the parameter `clientError` of Extractors.NewExtractor.
- `TechnicalExtractor` is a value. Its fields are never changed after construction, so the constructor is a function returning the extractor or the exception.
- A missing key in the paper dictionary is a KeyError in the source. The model's `Paper` record always has every field.
- A configuration given as `None` is the configuration with every key missing.
- Text.IsAlnum and Text.UpperChar cover ASCII only. Python's `isalnum` and `upper` also act on other Unicode letters and digits.
- Extractors.MatchAt matches the section words and the `[A-Z]` letter on ASCII only. Python's IGNORECASE also lets a few non-ASCII characters match, such as the Kelvin sign for `K`.
- Extractors.PreprocessContent applies the section removals one after another, as the loop does. Removals on text that still contains newlines are modelled by Extractors.RemoveSection but never occur here.

## Findings

| source | as written | input that shows it | evidently intended | confidence | as-written member | corrected member |
|---|---|---|---|---|---|---|
| winnower/core.py:129 | `lstrip('.')` runs before `strip('_- ')`. A dot that follows a leading space, `_` or `-` survives, once whitespace has been turned into `_`. | title `" .hidden"`, suffix `"summary"` gives `".hidden_summary"` | the comment on line 128 says leading dots are removed to prevent hidden files, so no generated name should start with `.` (`"hidden_summary"` here) | high, not executed | WinnowerCore.HiddenNameAsWritten | WinnowerCore.SafeFilenameNoHidden |
