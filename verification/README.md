# Heuristic dependency inference over Power Query M text

This project models the analysis core of a Power BI model extractor. It is
written in Dafny and proved with the Dafny verifier. The extractor reads
the definitions of a `.pbix` model: queries, functions and parameters, each
with an id, a name, a kind and its M source text. From them it infers which
definition refers to which.

The core has five parts:

- **The `let ... in` locator**, shared by both extractors. It searches for
  `let\s+(.*?)\s+in\s+` with DOTALL and IGNORECASE and returns the captured
  body.
  - A match is a triple `LetSpan(start, gap, len)`. `LetMatch` says when
    the pattern matches along a triple.
  - `Precedes` is the order in which a backtracking matcher tries triples:
    leftmost start, then the longer whitespace run after `let`, then the
    shorter body.
  - `FindLet` is proved to return the first match in that order. `LetBody`
    is the captured text.
  - `let` needs no word boundary before it, so `Outlet` matches too.
- **`extract_local_names`**, as `LocalNames.ExtractLocalNames`. It cuts the
  body at every comma, ignoring nesting. Each piece that holds `=` gives
  the stripped text before its first `=`, with `#"..."` removed.
- **Evidence positions.** `get_line_number` is the 1-based line number.
  The `col_start` expression is the 0-based distance back to the start of
  the line.
- **`detect_dependencies_regex`**, as `Dependency.DetectDependencies`.
  - It builds an insertion-ordered name-to-definitions map. This is an
    association list, because the order of the edges depends on it.
  - For every definition and every map entry it skips the definition's own
    name and its local names. Both comparisons are exact.
  - It then looks for the name, case-insensitively: first as `#"\s*NAME\s*"`,
    then as `\bNAME\b`. When the name is found, it emits one edge per
    definition carrying that name.
  - Each edge gets a type: `calls` when `\bNAME\s*\(` occurs anywhere,
    otherwise `uses_parameter` or `references`. It also gets a confidence
    and the evidence of the reporting match.
- **`parse_m_steps`**, as `StepExtractor.ParseMSteps`. It reads the same
  body line by line. Blank lines and comment lines are skipped. From every
  line that `^([^=\n]+)\s*=` matches, it keeps the stripped, dequoted text
  before the first `=`.

Every regular expression is stated as a predicate "the pattern matches at
this position". The regex engine's choices, such as how many whitespace
characters `\s*` takes, are existential witnesses. `Patterns.Search` is
`re.search`: the leftmost start where the pattern matches.

The source's loops become Dafny methods, each proved equal to a
specification function:

- `BuildNameMap` is proved equal to `NameMapOf`.
- `DetectDependencies` is proved equal to `Detect`. Its three nested loops
  (nodes, map entries, targets) are the methods `DetectDependencies`,
  `ScanNode` and `ScanName`.
- `ExtractLocalNames` is proved equal to `LocalNameSet`.
- `ParseMSteps` is proved equal to `Steps`.

The properties of the source are then proved about these functions.

## Model

| member | source | states |
|---|---|---|
| Text.TrimStartShape | src/dependency.py:78 | `lstrip` removes exactly a leading whitespace run: the result is a suffix that does not start with whitespace |
| Text.TrimEndShape | src/dependency.py:80 | `rstrip` removes exactly a trailing whitespace run: the result is a prefix that does not end with whitespace |
| Text.StripShape | src/generator.py:22 | `strip` keeps the slice between leading and trailing whitespace runs, and that slice neither starts nor ends with whitespace |
| Text.StripMembership | src/dependency.py:78-79 | stripping adds no character, and every non-space character survives it, so `"=" in line` is unchanged by the strip |
| Text.IndexOf | src/dependency.py:80 | the first index holding the character; none exactly when the character does not occur |
| Text.RFind | src/dependency.py:54 | `rfind("\n", 0, pos)`: the last index below `pos` holding the character, or -1 when none does |
| Text.CountChar | src/dependency.py:90 | `count` is at most the length, and zero exactly when the character does not occur |
| Text.CountConcat | src/dependency.py:90 | counting distributes over concatenation |
| Text.Split | src/dependency.py:77 | `split(c)` gives at least one piece, no piece holds `c`, and joining the pieces with `c` gives the text back |
| Text.SplitJoin | src/generator.py:20 | the other half of the round trip: splitting a join of separator-free pieces gives the pieces back |
| Text.JoinMembership | src/dependency.py:77 | a character other than the separator occurs in the text exactly when it occurs in some piece |
| Text.Dequote | src/dependency.py:82-83 | the text is unchanged, or it was the quoted form of the result; the text `#"` alone gives the empty string, as `[2:-1]` does |
| Text.DequoteQuote | src/generator.py:31-32 | removing the delimiters undoes adding them |
| LetBlock.TailInRun | src/dependency.py:73 | inside a whitespace run, `\s+in\s+` matches exactly when `in` and a whitespace character follow the run |
| LetBlock.TailStartsWithSpace | src/dependency.py:73 | `\s+in\s+` can only start on whitespace |
| LetBlock.FirstTail | src/dependency.py:73 | the lazy body stops at the first position where `\s+in\s+` matches; none when it matches nowhere after |
| LetBlock.GapBound | src/dependency.py:73 | the whitespace taken after `let` never exceeds the maximal run |
| LetBlock.NoGapNoMatch | src/dependency.py:73 | no match starts at a `let` that is not followed by whitespace |
| LetBlock.LongestGapFirst | src/dependency.py:73 | with the longest run and the first tail after it, no other match at that start comes earlier |
| LetBlock.ShorterGap | src/dependency.py:73 | when no tail follows the longest run, every match at that start gives whitespace back and needs `in` right after the run |
| LetBlock.LetAt | src/dependency.py:73 | among the matches starting at one position, the one the backtracking matcher reports; none exactly when no match starts there |
| LetBlock.FindLetFrom | src/generator.py:10 | the first match, in backtracking order, whose `let` starts at or after a position; none exactly when every match starts before it |
| LetBlock.FindLet | src/dependency.py:73 | `re.search`: the first match in backtracking order, none exactly when the pattern matches nowhere |
| LetBlock.FirstMatchUnique | src/generator.py:10 | the reported match is unique |
| LetBlock.LetBodyMeaning | src/dependency.py:73-75 | `LetBody` (`match.group(1)`): a body exists exactly when the pattern matches, and it is the text the first match captures |
| LetBlock.LetBodyOfFirstMatch | src/generator.py:10-13 | a match known to be first determines `group(1)` |
| LetBlock.NoInFollowedBySpace | src/generator.py:10-12 | text in which no `in` (any case) is followed by whitespace has no body, e.g. text ending in `in` |
| Position.SlicePrefix | src/dependency.py:90 | `text[:pos]` is a prefix of the text for every integer `pos` |
| Position.LineNumber | src/dependency.py:88-90 | the line number is at least 1 |
| Position.LineNumberBounds | src/dependency.py:88-90 | for `0 <= pos <= len(text)` the line number lies in `[1, 1 + count of newlines]` |
| Position.LineNumberStep | src/dependency.py:90 | moving one character forward raises the line number exactly when that character is a newline |
| Position.ColStart | src/dependency.py:54 | the column is in `[0, pos]`; no newline lies between the line start and `pos`; the line start is the text start or follows a newline; the column equals `pos` exactly when no newline precedes `pos` |
| Position.ColumnOnSameLine | src/dependency.py:53-54 | the start of the column lies on the line `get_line_number` reports |
| Patterns.MatchWithinText | src/dependency.py:25-29 | none of the three patterns matches past the end of the text |
| Patterns.Search | src/dependency.py:28-29 | `re.search`: a start where the pattern matches with no earlier one; none exactly when it matches nowhere |
| Patterns.SearchFindsLeftmost | src/dependency.py:28-29 | the search from 0 succeeds exactly when the pattern occurs, and then at the leftmost occurrence |
| Patterns.QuotedFormMatches | src/dependency.py:25 | text holding `#"name"` is matched there by the quoted pattern |
| Catalog.KeyIndex | src/dependency.py:11 | the dictionary lookup finds the entry with that key, or reports that no entry has it |
| Catalog.NodesNamed | src/dependency.py:10-11 | the definitions called `key`, all from the input; empty exactly when no definition has that name |
| Catalog.FirstIndexOfName | src/dependency.py:10-11 | the first definition called `key`, with none before it |
| Catalog.FirstIndexExtend | src/dependency.py:10-11 | appending a definition keeps first occurrences, and a new name first occurs at the new definition |
| Catalog.SetDefaultAppendShape | src/dependency.py:11 | `SetDefaultAppend`, i.e. `setdefault(...).append(n)`, keeps every key in place, grows only the list under `n`'s name, and puts a new name at the end |
| Catalog.ExtendFacts | src/dependency.py:10-11 | how first indices and per-name lists change when a definition is appended |
| Catalog.NewNameIsNew | src/dependency.py:11 | a name that is not yet a key has not occurred among the definitions seen so far |
| Catalog.StepKeysAreNames | src/dependency.py:10-11 | one loop step keeps every key the name of a definition seen |
| Catalog.StepKeysInOrder | src/dependency.py:10-11 | one loop step keeps the keys in order of first occurrence |
| Catalog.StepListsAreNodesNamed | src/dependency.py:10-11 | one loop step keeps each list equal to the definitions of that name, in input order |
| Catalog.StepCoversNodes | src/dependency.py:10-11 | one loop step keeps every name seen a key |
| Catalog.IndexesNodesStep | src/dependency.py:10-11 | one loop step preserves the whole map invariant |
| Catalog.NameMapOfIndexesNodes | src/dependency.py:9-11 | the built map has distinct keys in first-occurrence order, each holding exactly the definitions of that name in input order, and covers every definition |
| Catalog.NameMapEntries | src/dependency.py:9-11 | keys are distinct, and every list is non-empty and holds input definitions carrying that key |
| Catalog.BuildNameMap | src/dependency.py:9-11 | the loop builds exactly the map whose properties `NameMapOfIndexesNodes` states |
| LocalNames.DeclaredNameRule | src/dependency.py:78-83 | `DeclaredName`: a comma piece declares a name exactly when it holds `=`; the name is the dequoted, stripped text before its first `=` |
| LocalNames.Declarations | src/dependency.py:77 | one declaration result per comma piece |
| LocalNames.DeclarationAt | src/dependency.py:77-83 | entry `i` is what piece `i` declares |
| LocalNames.NamesOfMembership | src/dependency.py:84 | a name is in the set exactly when some piece declares it |
| LocalNames.DeclarationsMembership | src/dependency.py:77-84 | a name is gathered exactly when some comma piece declares it |
| LocalNames.LocalNameMembership | src/dependency.py:73-85 | `LocalNameSet`, the value of `extract_local_names`: with a body, the local names are exactly the names the comma pieces of the body declare |
| LocalNames.LocalNamesNonEmpty | src/dependency.py:77-84 | with a body, there is a local name exactly when the body holds `=` |
| LocalNames.ExtractLocalNames | src/dependency.py:69-85 | the loop returns the local-name set, and the empty set when no body is found |
| StepExtractor.MatchAssignIsGreedyMatch | src/generator.py:27-29 | `MatchAssign`: on a line without line breaks, `^([^=\n]+)\s*=` matches exactly when `=` occurs after the first character, and the greedy group then runs to the first `=` |
| StepExtractor.StepOfLineRule | src/generator.py:22-33 | `StepOfLine`: a line gives a step exactly when, stripped, it is non-blank, opens no comment and holds `=` after its first character; the step is the stripped, dequoted greedy group |
| StepExtractor.LineStepsSnoc | src/generator.py:21-33 | one more line appends that line's step, if any |
| StepExtractor.LineStepsAppend | src/generator.py:20-35 | steps keep the order of the lines: consecutive blocks of lines give consecutive blocks of steps |
| StepExtractor.LineStepsBound | src/generator.py:20-35 | there are at most as many steps as lines |
| StepExtractor.LineStepsMembership | src/generator.py:21-33 | a name is a step exactly when some line declares it, duplicates included |
| StepExtractor.NoInFollowedBySpaceNoSteps | src/generator.py:10-12 | with no `in` followed by whitespace there is no body and no steps |
| StepExtractor.StepsImplyLocalNames | src/generator.py:10-33 | when steps are found, the local-name set of the same text is not empty |
| StepExtractor.ExampleFirstMatch | src/generator.py:10 | in the example the first match is `let`, a newline and a space, then a 17-character body |
| StepExtractor.ExampleBody | src/generator.py:13 | the example's body is the text between the first newline and the newline before `in` |
| StepExtractor.ExampleSteps | src/generator.py:7-35 | the steps of `let\n a = 1,\n b = a + 2\nin b` are `["a", "b"]` |
| StepExtractor.ParseMSteps | src/generator.py:7-35 | the loop returns `Steps`, the steps of the body's lines, and `[]` when no body is found |
| Sequences.FlatMapAppend | src/generator.py:21-33 | appending one block per input keeps the input order: blocks of consecutive parts follow one another |
| Sequences.FlatMapMembership | src/dependency.py:13-64 | an appended element belongs to the block of some input |
| Sequences.FlatMapBound | src/generator.py:21-33 | blocks of at most `n` elements give at most `n` per input |
| Dependency.FindReference | src/dependency.py:28-33 | the reporting match lies within the text |
| Dependency.FindReferenceRule | src/dependency.py:25-33 | a name is found exactly when the quoted or the bare pattern occurs; the hit is quoted exactly when the quoted pattern occurs, at the leftmost match of its pattern |
| Dependency.EdgeTypeRule | src/dependency.py:38-43 | `EdgeTypeOf`: `calls` exactly when `\bNAME\s*\(` occurs, whatever the target's kind; otherwise `uses_parameter` exactly for parameters, else `references` |
| Dependency.ConfidenceOf | src/dependency.py:46-49 | `high` exactly for a quoted match, whatever the number of targets; otherwise `low` for more than one target and `medium` for one |
| Dependency.EvidenceAt | src/dependency.py:51-55 | evidence carries the catalog name, the line `get_line_number` gives for the match start (a line that exists) and the `col_start` of that start (in `[0, pos]`, equal to `pos` exactly when no newline precedes it, and leading back to the same line) |
| Dependency.FanOutShape | src/dependency.py:36-64 | `FanOut`, the loop over the targets: one edge per target, the `j`-th going to the `j`-th target |
| Dependency.NameEdgesFanOut | src/dependency.py:18-64 | `NameEdges`, one pass over a map entry: no edges for the own name, a local name or a name not found; otherwise exactly one edge per target, in list order, all from the source with identical evidence |
| Dependency.SourceEdgesSnoc | src/dependency.py:18-64 | scanning one more map entry appends that entry's edges |
| Dependency.AllEdgesSnoc | src/dependency.py:13-64 | scanning one more definition appends its edges |
| Dependency.AllEdgesAppend | src/dependency.py:13-64 | edges are grouped by source definition, in input order |
| Dependency.SourceEdgesAppend | src/dependency.py:18-64 | within a source, edges follow the map's insertion order |
| Dependency.SourceEdgesMembership | src/dependency.py:18-64 | an edge of one source comes from one map entry |
| Dependency.AllEdgesMembership | src/dependency.py:13-64 | an edge of the output comes from one source definition |
| Dependency.NameEdgeJustified | src/dependency.py:18-64 | an edge of one entry is justified by a definition that carries the entry's name |
| Dependency.DetectSound | src/dependency.py:5-66 | `Detect`, the value of `detect_dependencies_regex`: every edge leaves an input definition and is justified: target name not skipped, found in the text, with the type, confidence (over all definitions of that name) and evidence of that finding |
| Dependency.DetectComplete | src/dependency.py:5-66 | `Detect`: every justified edge from an input definition to an input definition is emitted |
| Dependency.NodesNamedHas | src/dependency.py:10-11 | a definition called `key` is in the list for `key` |
| Dependency.NoSelfLoops | src/dependency.py:19-60 | with unique ids no edge goes from a definition to itself |
| Dependency.LocalNamesNotTargeted | src/dependency.py:16-22 | every edge goes from a definition to a definition whose name is neither a local name of the source nor the source's own name, and its evidence names that target |
| Dependency.ScanName | src/dependency.py:18-64 | one pass over a map entry appends exactly that entry's edges |
| Dependency.ScanNode | src/dependency.py:13-64 | one pass over a definition appends exactly its edges over the whole map |
| Dependency.DetectDependencies | src/dependency.py:5-66 | the nested loops return exactly the edges `DetectSound`, `DetectComplete` and the ordering lemmas describe |

## Left out

- Python's `\s`, `\w`, `str.strip`, `str.isspace` and IGNORECASE follow Unicode. Here `IsSpace`, `IsWordChar` and `Lower` cover ASCII only: characters 9-13 and 28-32 are whitespace; letters, digits and `_` are word characters; only `A`-`Z` are case-folded. Non-ASCII text may match differently.
- A general regex engine. Only the four fixed patterns and the locator are modelled, each as its own predicate. `re.escape(name)` is modelled as matching every character of the name literally, ignoring case.
- src/cli.py: argument parsing, file-system checks and logging are not part of this model.
- src/extractor.py: reading `.pbix` files through the PBIXRay library and uuid hashing are not part of this model. Definitions are inputs, and their kind is one of query, function and parameter.
- Dependency.DetectDependencies: definitions are records with every field present. A definition without a `kind`, or with another kind, is covered only as far as it behaves like a non-parameter. A missing `name`, `id` or `m_code`, which raises `KeyError` in the source, is not modelled.
- The report writers `generate_queries_md` and `generate_dependency_graph_json` in src/generator.py: file output, Markdown/JSON rendering and the clock are not part of this model.
- StepExtractor.MatchAssignIsGreedyMatch: the correspondence with `^([^=\n]+)\s*=` is proved for lines without line breaks only. That always holds here, because the lines come from splitting on `\n`.
- Catalog.BuildNameMap: its contract ties the result to `NameMapOf`. The invariant of the map is stated by `NameMapOfIndexesNodes` about that function, not repeated on the method.
- Position.LineNumber accepts any integer position with Python's slice semantics. The detector only calls it with a match start inside the text.
