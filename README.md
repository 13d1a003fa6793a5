# Context packer and secret redactor, modelled in Dafny

This project models the core of a small tool that packs a source tree into
one Markdown document for a language model, together with its companion
secret redactor.

The packer (`src/pack.py`):

- reads the ignore rules from `.gptignore`, or uses built-in defaults;
- walks the tree and drops every path an ignore rule matches;
- keeps the files whose extension is listed, the extension-less dotfiles
  and the files under a forced prefix;
- sorts the kept files by relative path;
- writes a document with a header, an indented tree, a note, and one fenced
  block per file, cutting each file text at 250 000 characters;
- cuts the document's UTF-8 bytes into chunks of at most `max_bytes` bytes;
- counts what the manifest reports.

The redactor (`src/redact_secrets.py`) decides which files are text and
rewrites `KEY="value"` and `KEY: value` occurrences with two regular
expressions.

Modules:

- `Text`: Python string operations (`split`, `join`, `strip`, `rstrip`,
  `replace`, `lower`, string order).
- `Paths`: `pathlib` parts, name and suffix, and the backslash replacement.
- `Ignore`: the ignore rules and `match_ignore`.
- `Selection`: file selection and sorting.
- `Tree`: `render_tree`.
- `Assembly`: the Markdown document.
- `Utf8`: the encoding.
- `Chunker`: `split_by_bytes_utf8`, as written and corrected.
- `Pack`: `build_pack` and the manifest counts.
- `Redact`: the redactor.

The file system walk, file reading and the clock are parameters. The walk is
a list of entries, reading is a function from path to text or error, and the
build time is a string.

## Model

| member | source | states |
|---|---|---|
| Text.StripIsTrimmed | src/pack.py:71 | `strip()` keeps a stretch of the line with only whitespace around it |
| Text.Strip | src/pack.py:71 | the stripped line is no longer than the line and neither starts nor ends with whitespace |
| Text.JoinSplit | src/pack.py:174 | splitting a `"\n".join` on the separator and joining again gives the text back |
| Text.SplitJoin | src/pack.py:115 | splitting a join of separator-free lines gives the lines back |
| Text.Lt | src/pack.py:159 | Python string order: code-point lexicographic, a proper prefix first (proved a strict total order by `LtIrreflexive`, `LtAsymmetric`, `LtTransitive`, `LtTotal`) |
| Text.LeTransitive | src/pack.py:159 | the string order used by the sort is transitive (with `LtTotal`, `LtAsymmetric`, it is a total order) |
| Text.LtTotal | src/pack.py:159 | any two different relative paths are ordered one way or the other |
| Text.PrefixSortsFirst | src/pack.py:159 | a directory's path sorts before every longer path it prefixes |
| Paths.Name | src/pack.py:113 | `Path(rel).name`: the last component behind the anchor, or empty when there is none; it never holds `/` |
| Paths.NameIsLastPart | src/pack.py:112-113 | the name is the last of the parts, and is empty exactly when there are no parts or the only part is the anchor |
| Paths.Suffix | src/pack.py:103-105 | `Path.suffix`: from the last dot on, when that dot is neither first nor last (characterised by `SuffixShape`) |
| Paths.FenceLang | src/pack.py:171 | `suffix.lstrip(".")` (characterised by `FenceLangOfSuffix`) |
| Paths.Unix | src/pack.py:76 | every backslash becomes `/`, every other character is kept, the length is unchanged |
| Paths.UnixIdempotent | src/pack.py:93-97 | replacing backslashes twice changes nothing more |
| Paths.Anchor | src/pack.py:112 | the anchor is empty exactly when the path does not start with `/`; otherwise it is `/` or `//` and made of the leading slashes |
| Paths.Tail | src/pack.py:112 | every component behind the anchor is non-empty, not `.`, and has no `/` |
| Paths.Parts | src/pack.py:112 | `Path(rel).parts`: one more part than the components behind the anchor exactly when the path starts with `/`; that first part is the anchor, and every other part is a proper component |
| Paths.SlashAnchor | src/pack.py:97-113 | one leading slash in front of a relative path adds the part `/` and leaves the name unchanged |
| Paths.DoubleSlashAnchor | src/pack.py:112 | exactly two leading slashes add the single part `//` and leave the name unchanged |
| Paths.TripleSlashAnchor | src/pack.py:112 | three leading slashes add the single part `/` and leave the name unchanged |
| Paths.PartsOfJoin | src/pack.py:112-113 | the components of a `/`-joined path are the joined components, and its name is the last one |
| Paths.RFind | src/pack.py:103 | the index of the last occurrence of the character, or -1 when there is none |
| Paths.SuffixShape | src/pack.py:103-105 | a suffix starts with its only dot, is shorter than the name and ends it; there is none exactly when the name is shorter than two characters, has no dot after its first character, or ends in a dot |
| Paths.SuffixHasOneDot | src/pack.py:36 | an extension with two dots is never a suffix |
| Paths.FenceLangOfSuffix | src/pack.py:171 | the fence tag has no dot; it is empty exactly when there is no suffix, and is otherwise the suffix without its dot |
| Ignore.Classify | src/pack.py:78-87 | a pattern is a prefix rule iff it ends in `/`, a glob iff not and it holds `*`, else an exact rule; the rule's text is the pattern |
| Ignore.ClassifyRuleText | src/pack.py:78-87 | classifying the text of a well-formed rule gives the rule back |
| Ignore.GlobLiteral | src/pack.py:82 | a star-free glob matches exactly its own text |
| Ignore.GlobStarSuffix | src/pack.py:82-83 | `*ext` matches exactly the paths that end in `ext` with no line feed before it, at any depth |
| Ignore.GlobPrefixStar | src/pack.py:82-83 | `pre*` matches exactly the paths that start with `pre` with no line feed after it |
| Ignore.StarAlone | src/pack.py:82-83 | a lone `*` matches exactly the texts without a line feed |
| Ignore.AnyRuleMatches | src/pack.py:77-88 | the loop with early return is true iff some pattern's rule matches the path |
| Ignore.PatternKinds | src/pack.py:78-87 | a `d/` pattern matches the paths that start with `d`; a starred pattern matches as a whole-path glob; any other pattern matches only the identical path |
| Ignore.MatchIgnore | src/pack.py:75-88 | `match_ignore`: backslashes become `/`, then some pattern, classified by kind, matches (see `AnyRuleMatches`, `PatternKinds`) |
| Ignore.MatchIgnoreOrderFree | src/pack.py:75-88 | only the set of patterns matters, not their order or repetition |
| Ignore.DirRuleExamples | src/pack.py:78-80 | `build/` matches `build/a.py` and `buildx.py` but not `src/build/a.py` |
| Ignore.GlobRuleExamples | src/pack.py:76-84 | `*.png` matches `a/b/c.png`, also when it is written with backslashes |
| Ignore.ExactRuleExamples | src/pack.py:85-88 | `.env` matches `.env` but not `sub/.env`, and no pattern means no match |
| Ignore.StripAll | src/pack.py:71 | every line is stripped, in order |
| Ignore.IgnoreLines | src/pack.py:71-72 | the rules are the stripped lines that are neither empty nor `#` comments, and none starts with whitespace |
| Ignore.LoadIgnore | src/pack.py:68-73 | without a `.gptignore` the built-in rules; with one, a rule for exactly those of its lines that stripping leaves neither empty nor a `#` comment, none starting with whitespace, and no more rules than lines |
| Selection.IsAllowedFile | src/pack.py:102-107 | `is_allowed_file`: the suffix is listed, or the name is a dotfile without a suffix |
| Selection.EnvExampleNotAllowed | src/pack.py:102-107 | a file named `.env.example` is not admitted by the default extensions |
| Selection.TwoDotExtensionsNeverAdmit | src/pack.py:36 | the listed extensions `.env.example` and `.env.sample` never equal a suffix |
| Selection.AllowedFileExamples | src/pack.py:102-107 | `a.py` and `.gitignore` are admitted; `Makefile` and `logo.png` are not |
| Selection.OneTrailingSlash | src/pack.py:155 | the trailing slashes are replaced by exactly one; the text before them is kept |
| Selection.NormalizePrefix | src/pack.py:155 | a normalised forced prefix ends in `/` and has no backslash |
| Selection.NormalizePrefixIdempotent | src/pack.py:155 | normalising a normalised prefix changes nothing |
| Selection.FilterMapMembers | src/pack.py:155 | a filtered map holds exactly the images of the kept entries |
| Selection.NormalizedMembers | src/pack.py:155 | the forced prefixes are exactly the normal forms of the non-blank entries |
| Selection.ForcedInNormalized | src/pack.py:157 | a path is under a forced prefix iff it starts with the normal form of some non-blank entry |
| Selection.Wanted | src/pack.py:90-100 | the filter of the walk and the selection loop: a file, not ignored, and allowed or under a forced prefix (unfolded by `SelectionRule`) |
| Selection.SelectionRule | src/pack.py:90-100 | a walked entry is selected iff it is a file, no ignore rule matches it, and it has a listed extension, is an extension-less dotfile, or is under a forced prefix |
| Selection.Candidates | src/pack.py:154-158 | the unsorted selection holds exactly the selected entries |
| Selection.CandidatesConcat | src/pack.py:90-100 | each entry is decided on its own path, so what a stretch of the walk contributes does not depend on the entries before it |
| Selection.IgnoredDirectoryCoversFiles | src/pack.py:78-80 | a `d/` rule that matches a directory path with its trailing `/` also matches every path below that directory |
| Selection.IgnoredDirectoryFilesNotWanted | src/pack.py:90-100 | no file below a directory that a `d/` rule ignores is selected, whatever the extensions and forced prefixes |
| Selection.DirectoryContributesNothing | src/pack.py:92-96 | a directory entry is never selected |
| Selection.InsertSorted | src/pack.py:159 | inserting a path at its place keeps the list sorted and adds exactly that file |
| Selection.InsertStable | src/pack.py:159 | inserting a file in front of the entries above it puts it behind every file of the same path and keeps the order of the files of every other path |
| Selection.InsertKeepsPathOrder | src/pack.py:159 | one step of the sort keeps, for every path, the files of that path in the order they came in |
| Selection.SortByRel | src/pack.py:159 | the result is sorted by relative path, is a permutation of the input, and is stable: for every path, the files with that path keep their input order |
| Selection.StableSortUnique | src/pack.py:159 | two lists that are sorted by path and agree on the order of the files of every path are equal, so the stable sort has exactly one possible result |
| Selection.SelectFiles | src/pack.py:154-159 | the files are sorted by relative path, are a permutation of the walk-order selection that keeps files of equal path in walk order, and are exactly the selected entries |
| Tree.Indent | src/pack.py:113 | two spaces per level, and none for a negative count |
| Tree.RenderTreeFileLine | src/pack.py:109-115 | read back line by line, the tree has the fence, the root line, one line per file and the closing fence, and the line of a file `n` directories deep is its name behind `2n` spaces |
| Tree.RenderTree | src/pack.py:109-115 | `render_tree`: the fence, the root line, one line per file indented by its pathlib depth, anchor included, the closing fence, joined by line feeds (read back by `RenderTreeLines`) |
| Tree.RootBackslashFileLine | src/pack.py:97-113 | a root-level file named `\name` gets the path `/name` and is drawn as its name behind two spaces, since the anchor counts as a part |
| Tree.TreeLineOfPath | src/pack.py:112-113 | a file below `n` directories is drawn as its name behind `2n` spaces |
| Tree.RenderTreeLines | src/pack.py:109-115 | reading the rendered tree back line by line gives the line list |
| Tree.EmptyTree | src/pack.py:109-115 | with no files the tree is the root line between the fences |
| Assembly.ReadText | src/pack.py:62-66 | `read_text_safe`: the text, or `<<UNREADABLE name: error>>` |
| Assembly.Header | src/pack.py:163 | the first section: title, root and build time |
| Assembly.Truncate | src/pack.py:169-170 | a text of at most 250 000 characters is kept; a longer one keeps its first 250 000 characters and ends in the marker |
| Assembly.TruncateIdempotent | src/pack.py:169-170 | cutting twice changes nothing, and no cut text is longer than the limit plus the marker |
| Assembly.FileSection | src/pack.py:172 | a file block ends in a line break |
| Assembly.Blocks | src/pack.py:167-172 | one block per file |
| Assembly.BlocksAt | src/pack.py:167-172 | the `k`-th block is the block of the `k`-th file |
| Assembly.FileSectionsAt | src/pack.py:167-172 | the `k`-th file section is built from the `k`-th file's read, cut text and fence tag |
| Assembly.AssembleDocument | src/pack.py:162-174 | the loop builds the fixed sections and the file blocks, then joins them into the document |
| Assembly.Document | src/pack.py:162-174 | the fixed sections and one block per file, joined by line feeds (laid out by `DocumentLayout`) |
| Assembly.DocumentLayout | src/pack.py:162-174 | the document is header, tree, note and files heading, each followed by a line break, then every file block behind a line break |
| Assembly.DocumentEndsWithNewline | src/pack.py:174 | the document always ends in a line break |
| Utf8.IsContRange | src/pack.py:125 | the mask test holds exactly for the bytes 0x80 to 0xBF |
| Utf8.EncodeChar | src/pack.py:119 | one to four bytes; the first is not a continuation byte and the rest are; one byte exactly for ASCII |
| Utf8.Encode | src/pack.py:119 | at least one byte per character, and the first byte is not a continuation byte |
| Utf8.EncodeAppend | src/pack.py:119 | encoding distributes over concatenation |
| Utf8.EncodeNoContRun | src/pack.py:119 | an encoding never holds four continuation bytes in a row |
| Utf8.EncodeNeverEndsInLead | src/pack.py:119 | an encoding ends in an ASCII byte or a continuation byte, never in a lead byte |
| Utf8.EncodeLastAscii | src/pack.py:119 | a text ending in an ASCII character ends in that byte |
| Chunker.BackOff | src/pack.py:125-126 | the cut is the largest position in the window whose previous byte is not a continuation byte, or the window start |
| Chunker.Next | src/pack.py:123-128 | one pass of the outer loop: the window end, backed off unless the window is empty |
| Chunker.ProgressOk | src/pack.py:122-128 | empty data, or a positive limit, a last byte that is not a continuation byte and no window of continuation bytes only (shown to be exactly termination by `HaltsIffProgress`) |
| Chunker.NextAdvances | src/pack.py:122-128 | under the progress condition each pass advances, stays within the window, and does not cut after a continuation byte |
| Chunker.ChunksFrom | src/pack.py:117-129 | the chunks put back together are the data, and there are none exactly for empty data |
| Chunker.ChunksFromOk | src/pack.py:117-129 | every chunk is non-empty, within the limit, and does not end in a continuation byte |
| Chunker.CutAt | src/pack.py:123-126 | the inner loop computes the next cut |
| Chunker.SplitByBytes | src/pack.py:117-129 | the loop returns the chunk list, whose concatenation is the data |
| Chunker.HaltsIffProgress | src/pack.py:122-128 | the loop ends iff the data is empty or the limit is positive, the last byte is not a continuation byte, and no window is all continuation bytes |
| Chunker.StuckWithoutLimit | src/pack.py:122-128 | with a limit of zero or less the loop never ends on non-empty data |
| Chunker.StuckOnLastByte | src/pack.py:125-128 | data ending in a continuation byte makes the loop run forever |
| Chunker.EncodedTextProgresses | src/pack.py:117-129 | the encoding of a text ending in ASCII, under a limit of four bytes or more, meets the progress condition |
| Chunker.HelloWorldChunks | src/pack.py:117-129 | "héllo wörld" under a 10-byte limit is cut after byte 9, which is the lead byte 0xC3 |
| Chunker.LeadByteCut | src/pack.py:125 | that first chunk is the encoding of no text at all |
| Chunker.SafeBackOff | src/pack.py:125 | the corrected cut lies between characters, or at the window start |
| Chunker.SafeChunksFrom | src/pack.py:117-129 | the corrected chunks put back together are the data |
| Chunker.BetweenBoundaries | src/pack.py:117-129 | the bytes between two character boundaries are the encoding of a piece of the text |
| Chunker.SafeChunkCountAgrees | src/pack.py:117-129 | the chunk count follows the corrected chunker: it gives up exactly when the chunker does and otherwise equals the number of chunks |
| Chunker.SafeChunkCountPast | src/pack.py:122-126 | the corrected cut from a position lies at or beyond every character boundary within `max_bytes` of it, and the count drops by one across it |
| Chunker.GreedyFewest | src/pack.py:122-128 | from any position no earlier than a cut of an aligned split, the corrected chunker needs no more pieces than that split has left |
| Chunker.SafeChunksFewest | src/pack.py:117-129 | no split of an encoded text into whole-character pieces of at most `max_bytes` bytes has fewer pieces than the corrected chunker makes |
| Chunker.SafeChunksKeepCharacters | src/pack.py:117-129 | with the corrected back-off and a limit of at least four, the chunks rebuild the encoding, each is within the limit, and each is the encoding of a piece of the text |
| Pack.TotalSizeOfConcat | src/pack.py:190 | the chunk sizes add up to the length of the concatenation |
| Pack.ManifestCounts | src/pack.py:190-196 | the counted manifest fields of a document, its files and chunks |
| Pack.ManifestFacts | src/pack.py:186-197 | chunk sizes add up to `total_bytes`; chunk count is between `total_bytes / max_bytes` and `total_bytes`; a first chunk exists iff the document is non-empty; the sample lists the first paths |
| Pack.BuildPack | src/pack.py:132-197 | the files are sorted and are a permutation of the selection that keeps files of equal path in walk order, which fixes them (`StableSortUnique`); the document is built from them; chunking ends iff the progress condition holds, and then gives the chunks and the manifest; a limit of four or more always produces at least one chunk |
| Redact.TextFileRule | src/redact_secrets.py:37-43 | a file with a suffix is text exactly when the lower-cased suffix is listed; one without a suffix exactly when its name starts with a dot |
| Redact.TextFileExamples | src/redact_secrets.py:37-43 | `A.PY` is text because the suffix is lower-cased; `.env` is an extension-less dotfile |
| Redact.NonTextFileExamples | src/redact_secrets.py:37-43 | `Makefile` and `x.png` are not text |
| Redact.KeyEnd | src/redact_secrets.py:32 | a found key word ends after its start and within the text |
| Redact.KeyEndSound | src/redact_secrets.py:32 | what the key scanner finds is one of the key words in any case |
| Redact.KeyEndComplete | src/redact_secrets.py:32 | any key word at a position is found, and it ends where the scanner says |
| Redact.KeyExamples | src/redact_secrets.py:32 | `API_KEY`, `Api-Key`, `api key`, `ApiKey`, `PassWord` are keys; `api__key`, `passwd`, `tokens` are not |
| Redact.MatchAssign | src/redact_secrets.py:32 | the first expression tried at one position; a match ends after the key, with the opening quote before the closing one |
| Redact.MatchAssignSound | src/redact_secrets.py:32 | what the first scanner finds is a match of the first expression |
| Redact.MatchAssignComplete | src/redact_secrets.py:32 | the first expression matches in one way only, and the scanner finds it |
| Redact.BacktrackSound | src/redact_secrets.py:34 | the backtracking search behind the `:` finds a way to match that gives back no more than the whitespace |
| Redact.MatchColon | src/redact_secrets.py:34 | the second expression tried at one position, in the engine's order; a match ends after its key |
| Redact.MatchColonSound | src/redact_secrets.py:34 | what the second scanner finds is a match of the second expression |
| Redact.MatchColonFirst | src/redact_secrets.py:34 | whenever the second expression can match, the scanner finds the match the engine tries first |
| Redact.SubAssign | src/redact_secrets.py:32 | `re.sub` with the first expression: matches replaced left to right, the rest copied |
| Redact.SubColon | src/redact_secrets.py:34 | `re.sub` with the second expression: matches replaced left to right, the rest copied |
| Redact.RedactString | src/redact_secrets.py:50-54 | `redact_string`: the second substitution over the result of the first (see `RedactKeepsUnmatched`, `AssignLineRedacted`, `ColonLineRedacted`) |
| Redact.SubAssignSkip | src/redact_secrets.py:50-54 | text where the first expression matches nowhere is copied as it is |
| Redact.SubColonSkip | src/redact_secrets.py:50-54 | text where the second expression matches nowhere is copied as it is |
| Redact.NoQuoteKeepsAssign | src/redact_secrets.py:32 | without a quote the first substitution changes nothing |
| Redact.NoEqualsKeepsAssign | src/redact_secrets.py:32 | without `=` the first substitution changes nothing |
| Redact.NoColonKeepsColon | src/redact_secrets.py:34 | without `:` the second substitution changes nothing |
| Redact.RedactKeepsKeylessText | src/redact_secrets.py:50-54 | text with no key word at a word start comes back unchanged |
| Redact.RedactKeepsUnmatched | src/redact_secrets.py:50-54 | text where neither expression matches comes back unchanged |
| Redact.AssignLineRedacted | src/redact_secrets.py:32 | `KEY = 'value'` becomes `KEY='<REDACTED>'`: whitespace dropped, both quotes kept |
| Redact.ColonLineRedacted | src/redact_secrets.py:34 | `KEY: value` becomes `KEY: <REDACTED>` |
| Redact.ColonLineQuoted | src/redact_secrets.py:32-34 | `KEY: "value"` becomes `KEY: <REDACTED>"`: the opening quote is swallowed and the closing quote stays |
| Redact.ColonLineEmptyQuoted | src/redact_secrets.py:32-34 | `KEY: ""` with whitespace before the quotes becomes `KEY: <REDACTED>""`: the engine gives back one space to match it |
| Redact.EmptyQuotedValueNoAssign | src/redact_secrets.py:32 | `token = ""` is not matched by the first expression |
| Redact.KeyInsideWordNoMatch | src/redact_secrets.py:32-34 | a key word inside a longer word (`mysecret`) is matched by neither expression |
| Redact.KeyThenQuoteNoMatch | src/redact_secrets.py:32-34 | a key word directly followed by a quote (`"password": "x"`) is matched by neither expression |

## Left out

- File system: the recursive walk, its order, `exists`, reading and writing files, and creating directories. The walk is an input list and reading is a function parameter.
- The clock (`datetime.utcnow()`) is the `builtAt` parameter. The root path's text is a parameter too.
- SHA-256 of the document, the ZIP archive, the chunk file names (`0001.md`, …), `first_chunk_path` as a path (only whether it is set), JSON serialisation, and the console messages.
- Command-line parsing in `main`, including the comma splitting of `--include-exts` and `--force-include`. `BuildPack` takes the resulting set and list.
- `read_text_safe`'s decoding with `errors="replace"`. A read yields a text or an error message; the message text is a parameter.
- `.gptignore` line splitting: the file is given as its list of lines. `splitlines` also splits on separators other than `\n`, and that is not modelled.
- The model's lower-casing and its `\w` cover ASCII only. Unicode case folding and Unicode word characters are not modelled.
- `str.strip` follows Python's whitespace set for code points; Unicode normalisation is not modelled.
- The model's text holds no surrogate code points, since a Dafny `char` cannot be one. A Python string can hold them (a file name that is not valid UTF-8, carried in a relative path); encoding such a document raises `UnicodeEncodeError` at src/pack.py:119 and :175. That crash is not modelled.
- Chunker.SplitByBytes: requires the progress condition, because without it the source loop runs forever. `HaltsIffProgress` proves that this condition is exactly when the loop ends, and `BuildPack` returns `NonTerminating` otherwise.
- Chunker.ChunksFromOk: the as-written chunker is not proved to make the fewest chunks; that is proved of the corrected one (`SafeChunksFewest`).
- Pack.BuildPack: uses the chunker as written, since that is what the source runs. The corrected chunker is proved separately (see Findings).
- `redact_file_inplace`, the mirror mode, and the redactor's own file walk are I/O and are not part of this model. Only `is_text_file` and `redact_string` are.
- The code, not its description, decides two points. First, the first expression replaces `KEY = "v"` by `KEY="<REDACTED>"`, without spaces around `=`. Second, the walk still visits the contents of an ignored directory, because the test of a directory prunes nothing. Its files are still dropped, each by its own path: a `d/` rule that matches the directory matches every path below it (`Selection.IgnoredDirectoryFilesNotWanted`).

## Findings

| source | as written | input that shows it | evidently intended | confidence | as-written member | corrected member |
|---|---|---|---|---|---|---|
| src/pack.py:125 | the back-off tests the byte before the cut, `data[j-1]`, so a cut after a lead byte stays where it is | "héllo wörld" with `max_bytes` 10: the first chunk is bytes 0-8, ending in the lead byte 0xC3 of "ö", so it is not valid UTF-8 | test the byte at the cut, `data[j]`, and step back while it is a continuation byte, so that chunks keep characters whole | not executed | Chunker.LeadByteCut | Chunker.SafeChunksKeepCharacters |
