# dir2prompt core, modelled in Dafny

`dir2prompt` is a command-line tool. It turns a selection of files and
directories into one Markdown "prompt" document. The document has a fixed
preamble, then one `## From: <name>` section per selected path, in
selection order.

- A selected file gives one block: a `---` / `File: <path>` / `---` header,
  then a code fence tagged with a language hint and holding the file's
  trimmed text. If the read fails, the block holds an error line instead.
- A selected directory is walked depth-first in listing order, and each
  eligible regular file gives one block, with its path relative to the
  selected directory.
  - The walk skips `node_modules`, `.git` and every name starting with a
    dot.
  - The `--ext` option, a comma-separated list of extensions, restricts
    which files inside directories are formatted.

The model covers the pure core of `index.ts`:

- `getLanguageHint`: module `Language`. It includes Node's `path.extname`
  for one name.
- `processFile`: module `Format`. The file read is an input value
  (`ReadResult`).
- `scanDirectory`: module `Walker`. The file system is a tree value.
  - `ScanDirectory` is a recursive method with a loop, proved equal to the
    function `Walk`.
  - `Records` lists the files the walk reports. It gives the "which
    files, exactly once, in which order" view.
- `--ext` parsing and the final document: module `Prompt`. `BuildPrompt`
  is the action's loop, proved equal to `PromptText`.
- `Text` models the JavaScript string operations these rely on:
  - `trim`, with the full ECMAScript whitespace set;
  - `toLowerCase`;
  - `replace(/\\/g, '/')`;
  - `split(',')`.
- `Examples` holds a few concrete classifications.

Two `--ext` behaviours follow from the code as written and are proved as
such:

- A trailing comma adds the empty extension, so files without an extension
  pass the filter.
- An element written without its dot, such as `js`, matches no file.

## Model

| member | source | states |
|---|---|---|
| Text.Trim | index.ts:33 | the result is a slice of the input; everything cut from both ends is ECMAScript whitespace; neither end of the result is whitespace |
| Text.TrimStart | index.ts:33 | the result is a suffix of the input, the cut prefix is all whitespace, and the result does not start with whitespace |
| Text.TrimEnd | index.ts:33 | the result is a prefix of the input, the cut suffix is all whitespace, and the result does not end with whitespace |
| Text.TrimSplit | index.ts:33 | every string is whitespace + its trim + whitespace |
| Text.TrimUnique | index.ts:33 | a string padded with whitespace on both sides and tight at both ends trims back to itself |
| Text.TrimIgnoresSurroundingSpace | index.ts:33 | extra leading/trailing whitespace never changes the trim |
| Text.TrimIdempotent | index.ts:101 | trimming twice is trimming once |
| Text.Lower | index.ts:11 | same length; each character is lower-cased pointwise (ASCII letters only) |
| Text.LowerIdempotent | index.ts:101 | lower-casing twice is lower-casing once |
| Text.LowerKeepsSpace | index.ts:101 | lower-casing neither creates nor removes whitespace at any position |
| Text.LowerTrimCommute | index.ts:101 | trimming and lower-casing commute, so the order in `e.trim().toLowerCase()` does not matter |
| Text.Slashed | index.ts:30 | same length, no backslash left, each backslash becomes '/' and every other character is kept |
| Text.SlashedKeepsPlainText | index.ts:30 | a path without backslashes is unchanged |
| Text.Split | index.ts:101 | one piece more than there are commas; no piece holds a comma; rejoining the pieces with the separator gives the input back |
| Text.SplitJoin | index.ts:101 | splitting undoes joining pieces that hold no separator (the inverse direction of `Split`'s rejoin property) |
| Text.JoinEndsWithLast | index.ts:101 | the last piece is a suffix of the joined string |
| Text.LowerSplitCommute | index.ts:101 | lower-casing before or after splitting on ',' gives the same pieces |
| Language.LastDot | index.ts:11 | the index of the last '.' or -1; no dot after it |
| Language.ExtName | index.ts:11 | `path.extname` of one name: a suffix of the name that is empty or starts with its only dot; empty exactly when the name is ".." or has no dot after its first character |
| Language.ExtNameOfSuffix | index.ts:11 | a non-empty stem followed by "." and a dot-free tail has exactly that extension |
| Language.ExtNameSameDots | index.ts:11 | the extension's length depends only on where the dots are |
| Language.ExtNameLower | index.ts:11 | lower-casing a name lower-cases its extension: `extname(lower(n)) == lower(extname(n))` |
| Language.HintOfExtension | index.ts:10-21 | a name with extension `ext` gets the table's hint for lower-cased `ext`, or "" when `ext` is not a key |
| Language.LanguageHint | index.ts:10-21 | `getLanguageHint` over the 22-entry table `Hints` (index.ts:12-19): the hint is empty exactly when the lower-cased extension is not a key or is ".txt"; `HintOfExtension` gives the lookup for every other name |
| Language.HintIgnoresCase | index.ts:11 | names equal up to ASCII case get the same hint |
| Format.Header | index.ts:29-31 | the header is exactly `---\nFile: ` + the path in '/' form + `\n---\n` (the path itself when it has no backslash), and it holds no backslash |
| Format.ProcessFile | index.ts:24-41 | every block, success or error, starts with the header of its relative path and ends with a blank line ("\n\n") |
| Format.ContentBlockShape | index.ts:29-34 | a successful read gives header, fence with the hint, a body that is exactly the content with surrounding whitespace cut, closing fence, blank line |
| Format.BlockIgnoresPadding | index.ts:33 | whitespace padding of the content never reaches the block |
| Format.ErrorBlockShape | index.ts:35-39 | a failed read gives the same header followed by `Error reading file: <message>` and a blank line, with no fence |
| Format.HeaderIgnoresSeparatorStyle | index.ts:30 | paths that differ only in '\\' versus '/' give the same block |
| Walker.Skipped | index.ts:49 | the skip test of the loop; `SkippedIff` gives its contract |
| Walker.SkippedIff | index.ts:49 | an entry is skipped exactly when it is `node_modules` or its name starts with '.' (the `.git` test is subsumed) |
| Walker.Allowed | index.ts:54-55 | the extension filter: an empty list allows every file, otherwise the lower-cased extension must be listed; `DotlessNeverMatches`, `FilterIgnoresCase` and `TrailingCommaAllowsBareNames` state its behaviour |
| Walker.RelPath | index.ts:25 | the path of a file relative to the walked directory, its names joined with '/' (`path.join` at index.ts:50, then `path.relative`); `RecordsShape` and `Format.Header` state what it carries |
| Walker.DotlessNeverMatches | index.ts:54-55 | an `--ext` element that is non-empty and does not start with '.' never matches any file's extension |
| Walker.EntryOutput | index.ts:49-58 | the output of one listing entry; `EntryOutputIsBlocks` gives its contract |
| Walker.Walk | index.ts:44-62 | `scanDirectory` as a function; `ScanDirectory` is proved equal to it, and `WalkAppend` and `WalkIsBlocksOfRecords` give its contract |
| Walker.WalkAppend | index.ts:48-59 | the walk of a listing is the walk of its first part followed by the walk of the rest |
| Walker.ScanDirectory | index.ts:44-62 | the loop with its recursion into subdirectories produces exactly `Walk` of the listing |
| Walker.BlocksAppend | index.ts:56 | the blocks of two record lists concatenate |
| Walker.WalkIsBlocksOfRecords | index.ts:44-62 | the walk's output is exactly the formatted block of each reported file, concatenated in report order; directories add nothing of their own |
| Walker.EntryOutputIsBlocks | index.ts:49-58 | the same for one entry: a skipped entry or other node gives nothing, a directory gives its walk, a passing file gives its one block |
| Walker.Records | index.ts:44-62 | the files the walk reports, in report order; `RecordsShape` and `RecordsExactlyOnce` give its contract |
| Walker.EntryRecords | index.ts:49-58 | the files reported under one entry; `EntryRecordsShape` and `EntryRecordsOnce` give its contract |
| Walker.RecordsShape | index.ts:49-56 | every reported file lies under the walked directory, below one of its entries, every name on its way is visible, and its own name passes the filter |
| Walker.EntryRecordsShape | index.ts:49-56 | the same for the files reported under one entry, which all lie below that entry's name |
| Walker.SubdirectoryRecordsShape | index.ts:51-52 | files reported under a visible subdirectory lie below its name |
| Walker.RecordsExactlyOnce | index.ts:44-62 | with unique names per listing, each regular file reached through visible names that passes the filter is reported exactly once with its read result; every other path (skipped, hidden ancestor, directory, other node, filtered out) is reported zero times |
| Walker.EntryRecordsOnce | index.ts:49-58 | the exactly-once count for the entry the path starts at |
| Walker.SubdirectoryRecordsOnce | index.ts:51-52 | the exactly-once count for a path that continues below a visible subdirectory |
| Prompt.NormalizeExt | index.ts:101 | one `--ext` element, trimmed and then lower-cased; `ParseExtsNormalized` and `NormalizeExtKeepsOut` give its contract |
| Prompt.NormalizeExtKeepsOut | index.ts:101 | normalising a piece introduces no character that is neither whitespace nor a letter, in particular no comma |
| Prompt.ParseExts | index.ts:100-102 | an empty option gives the empty list; otherwise one element per comma-separated piece (commas + 1) and no element holds a comma |
| Prompt.ParseExtsElement | index.ts:101 | element k of the list is piece k trimmed and lower-cased |
| Prompt.ParseExtsNormalized | index.ts:101 | every element is already trimmed and lower-case |
| Prompt.ParseExtsIgnoresCase | index.ts:100-102 | the option is read without regard to case |
| Prompt.FilterIgnoresCase | index.ts:54-55 | filtering ignores case both in the option and in the file name |
| Prompt.ParseSinglePiece | index.ts:100-102 | an option without a comma is a single normalized element |
| Prompt.TrailingCommaAllowsBareNames | index.ts:100-102 | a trailing comma puts "" in the list, so files without an extension pass the filter |
| Prompt.SplitEndsEmpty | index.ts:101 | a string ending with the separator splits into pieces whose last one is empty |
| Prompt.Section | index.ts:109-115 | one selected path's section: heading, then the directory walk, the file block, or nothing; `SelectedFileIgnoresFilter` and `SectionsStep` give its contract |
| Prompt.Sections | index.ts:106-116 | the sections of a selection, in order; `SectionsAppend` gives its contract |
| Prompt.PromptText | index.ts:104-116 | the whole document; `BuildPrompt` is proved equal to it and `PromptInSelectionOrder` gives its contract |
| Prompt.SectionsAppend | index.ts:106-116 | the sections of a selection in two parts are the first part's sections followed by the second's |
| Prompt.SectionsStep | index.ts:106-116 | one loop step appends exactly the next item's section |
| Prompt.BuildPrompt | index.ts:100-116 | the action's loop produces exactly `PromptText`: the preamble, then each selected path's section, in selection order |
| Prompt.PromptInSelectionOrder | index.ts:104-116 | the document starts with the preamble, and the sections follow the selection order |
| Prompt.SelectedFileIgnoresFilter | index.ts:113-114 | a directly selected file is formatted whatever `--ext` says, with its base name as path and hint source |
| Examples.HintUpperCase | index.ts:10-21 | "main.TS" is "typescript" |
| Examples.HintTxt | index.ts:18-20 | "readme.txt" gets the empty hint |
| Examples.HintNoExtension | index.ts:10-21 | "Makefile" and ".bashrc" have no extension and so no hint |

## Left out

- File-system I/O is not modelled: `fs.readdirSync`, `fs.readFileSync`, `fs.statSync` and `fs.writeFileSync`.
  - A directory is the sequence of entries its listing returns, in that order.
  - A file carries the outcome of reading it: the decoded text, or the error message.
  - UTF-8 decoding happens before the model.
  - Exceptions thrown by `readdirSync` or `statSync` abort the command. They are not modelled.
- `selectFilesOrDirs` (index.ts:65-88) is an interactive `inquirer` prompt, so it is not modelled. The selection is an input: a sequence of base name and node.
  - Its own filter on names starting with '.' is therefore not modelled.
- Command-line parsing by `commander` is not modelled: the `--output` default and the empty `--ext` default. The option's string is an input.
- Console output through `chalk` is not modelled.
- Text.Lower: only the ASCII letters A-Z are lower-cased. JavaScript's `toLowerCase` also maps other Unicode letters, such as the Kelvin sign to 'k'.
  - So an option or extension written with such letters can classify differently in the model.
- Paths use the POSIX separator '/'. `path.join`, `path.relative` and `path.basename` are modelled as joining or picking names.
  - Windows drive letters and `..` segments are not modelled.
- Prompt.BuildPrompt: the source appends the `## From:` heading and then the directory walk or file block to the document in two steps. The model builds that section and appends it in one step. The resulting string is the same.
- Walker.RecordsExactlyOnce: requires that no two entries in a listing share a name. Every real file system guarantees this.
  - Without it, the count can exceed 1. `RecordsShape` still holds.
