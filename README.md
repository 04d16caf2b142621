# frmb in Dafny

frmb describes a Windows Explorer context menu as a directory tree of small `.frmb` records.
Each record holds one menu entry. A record `x.frmb` may have a sibling directory `x` that holds
the records of the entries nested under it. The tool does four things:

- it reads such a tree into menu entries, optionally resolving the `@CWD` and `@ROOT` tokens in
  icons and commands;
- it checks a hierarchy for errors and warnings;
- it writes entries back as records;
- it turns a hierarchy into the lines of a `Windows Registry Editor Version 5.00` script that
  installs the menu, or removes it again.

This project models that core and proves what it promises.

| module | file | models |
|---|---|---|
| `Wrappers` | `wrappers.dfy` | `Option` and `Result` |
| `Strings` | `strings.dfy` | `str.replace`, splitting and joining, backslash doubling, `str(n)` |
| `Tokens` | `tokens.dfy` | `_resolve_tokens` and `FrmbTokenResolver` (`frmb/_tokens.py`) |
| `Menu` | `menu.dfy` | the frozen entry record `FrmbMenuItem` and its `__str__` (`frmb/_menu.py`) |
| `Files` | `files.dfy` | paths as component lists; the disk as records, directories and listings |
| `Read` | `read.dfy` | `FrmbFile`, `read_menu_item_from_file`, `read_menu_hierarchy_as_file`, `read_menu_hierarchy` (`frmb/_read.py`) |
| `Validation` | `validate.dfy` | `validate_menu_hierarchy` (`frmb/_read.py`) |
| `Windows` | `windows.dfy` | `_generate_reg_from_entry` and `generate_reg_from_hierarchy` (`frmb/_windows.py`) |
| `Write` | `write.dfy` | `write_menu_item_to_file` over a mutable filesystem object (`frmb/_write.py`) |
| `Parsing` | `parsing.dfy` | the behaviour of the older single-file copy `frmb/_parsing.py` |

## How the code is modelled

- **Imperative code is modelled as methods.** The loops of the source are `method`s with loop
  invariants, each proved equal to a specification function:
  - `Tokens.ResolveTokens` and `Tokens.TokenResolver.Resolve`;
  - `Read.ReadMenuHierarchyAsFile`;
  - `Validation.ValidateMenuHierarchy`;
  - `Windows.GenerateRegFromEntry` and `Windows.GenerateRegFromHierarchy`.

  The properties are proved as lemmas about those functions.
- **The writer updates a filesystem in place.** `Write.FileSystem` is a class whose records,
  directories and listings change as entries are written. `WriteMenuItemToFile` is proved to leave
  the disk that the function `Write.Written` describes.
- **Values are datatypes.** Menu entries, records and provenance nodes are datatypes, and equality
  is structural, as for the frozen dataclasses.
- **The filesystem is abstract.** A directory listing is an input: the stems of its records, in the
  order the listing gives them. The source does not sort what `glob` returns. A record created by
  the writer is listed after the ones already there.
- **Outside calls are parameters.** Two calls into code outside the core become function
  parameters:
  - `quote` stands for `subprocess.list2cmdline`;
  - `iconIsFile` stands for `Path.is_file`.
- **The class name in messages is a parameter.** The validator takes the class name that appears in
  its messages: `FrmbMenuItem` in `frmb/_read.py`, `FrmbFormat` in `frmb/_parsing.py`. Apart from
  that name, the two copies of each function in `frmb/_parsing.py` are the same code as in the split
  modules. A row below that cites the split module also covers its copy.

### Behaviour kept as written

- **The `@@` sentinel.** `@@` is parked as `%%TMP%%` while tokens are substituted, and that text is
  not itself escaped. So a text that already holds `%%` can be mangled: `%%TMP%@@` resolves to
  `@%TMP%%` (`Tokens.SentinelCollision`). Keeping the source and the values free of `%%TMP%%` does
  not prevent this. The structural theorem `Tokens.ResolutionStructure` therefore assumes instead
  that no piece between `@@` pairs holds `%%` after substitution. `Tokens.PercentFreeIsSafe` shows
  that this holds whenever the text and the values hold no `%`.
- **Removal scripts.** The child recursion of `_generate_reg_from_entry` does not pass `add_keys`
  on. So a removal script (`add_keys=False`) marks only the top key and its command key with `-`, and
  nested blocks stay in installation form. This is modelled as written and proved
  (`Windows.UninstallMarksOnlyTopKeys`, `Windows.BlockDeclaresKeys`).
- **The depth counter of the validator.** It stays 0 along the top level. A nested level entered
  with `n` gives its `k`-th entry (counting from 1) the counter `n + k`. Roots enter their children
  with 1 (`Validation.LevelCounter`). So "16 nested entries" counts siblings as well as depth.

## Model

| member | source | states |
|---|---|---|
| Strings.HalveUndoesDouble | frmb/_read.py:64-65 | doubling every backslash of a directory path loses nothing: the doubled text reads back as the original path |
| Strings.ReplaceAllIsJoin | frmb/_tokens.py:23 | `str.replace` equals splitting the text at the left-to-right, non-overlapping occurrences and joining the pieces with the replacement |
| Strings.ReplaceAllAbsent | frmb/_tokens.py:33 | replacing a pattern that does not occur returns the text unchanged |
| Strings.NatToStringRoundTrip | frmb/_menu.py:61 | `str(n)` of a child count is made of digits and reads back as the same number |
| Strings.NatToStringInjective | frmb/_menu.py:61 | different child counts are rendered differently |
| Tokens.UpperChar | frmb/_tokens.py:27 | an upper-cased character is never a lower-case letter, and `%` is kept (and only `%` maps to `%`) |
| Tokens.PatternIsUpperCase | frmb/_tokens.py:27 | the token pattern is `@` followed by the upper-cased key, holds no lower-case letter and never matches `@` followed by a lower-case letter; keys `foo` and `FOO` give the same pattern |
| Tokens.SubstituteIsLiteral | frmb/_tokens.py:26-31 | doubling the value's backslashes and then letting `re.sub` expand its template inserts the value verbatim: each round is a literal replace-all of the token pattern |
| Tokens.ResolveTokens | frmb/_tokens.py:8-34 | the loop computes the resolution: park `@@`, substitute each token in the given order, restore `@` (the same code is in frmb/_parsing.py at lines 12-38) |
| Tokens.TokenResolver.Resolve | frmb/_tokens.py:53-70 | the resolver substitutes exactly its two fields `CWD` and `ROOT`, in declaration order |
| Tokens.ResolutionStructure | frmb/_tokens.py:23-33 | every `@@` comes out as one literal `@` and never takes part in a token: the result is the pieces between `@@` pairs, each substituted on its own, joined with `@` |
| Tokens.PercentFreeIsSafe | frmb/_tokens.py:23-33 | a text and values without `%` always meet the sentinel condition of the structural theorem (which also asks that token names hold no `%`) |
| Tokens.NoTokensCollapsesEscapes | frmb/_tokens.py:23-33 | with no tokens, a text without `%%` comes out with each `@@` collapsed into `@` |
| Tokens.UnknownTokensKept | frmb/_tokens.py:25-31 | a text that spells none of the token patterns and holds no `@@` and no `%%` resolves to itself: unknown tokens and the text around them are kept, and resolution never fails |
| Tokens.TokenFreeUnchanged | frmb/_tokens.py:23-33 | a text without `@` and without `%%` resolves to itself |
| Tokens.SentinelCollision | frmb/_tokens.py:23-33 | `%%TMP%@@` resolves to `@%TMP%%` although collapsing `@@` would give `%%TMP%@`: the sentinel is not escaped |
| Menu.SameItemIsEquality | frmb/_menu.py:9-57 | two entries are equal exactly when name, identifier, icon, command, paths, enabled and the children (recursively, in order) are all equal |
| Menu.Describe | frmb/_menu.py:59-62 | the text of an entry starts with `<Class "name": `, ends with ` children>`, and between them holds a run of digits that reads as the number of direct children |
| Menu.DescribeDetermines | frmb/_menu.py:59-62 | two entries with the same text have the same name and the same number of direct children |
| Files.RecordPathParts | frmb/_read.py:135 | a record file `dir\stem.frmb` lies in `dir`; its stem is `stem`, except for the file named just `.frmb`, which has no suffix and is its own stem; the record path without its suffix is the directory the loader looks in |
| Read.ReadMenuItemFromFile | frmb/_read.py:82-107 | fails exactly when the file is missing or has no `name`; otherwise the identifier is the file's stem, never taken from the content, and the defaults apply: command and paths empty, enabled true, icon absent when missing or empty; the given children are kept in order (the same code is `FrmbFormat.from_file` in frmb/_parsing.py at lines 133-159) |
| Read.LoadNode | frmb/_read.py:132-146 | the node of a listed record lies in the directory it was listed in, records the root of the walk, has the file's stem, and has one child per record of the directory beside it (the record path without suffix), none when that directory is missing |
| Read.LoadTree | frmb/_read.py:128-148 | one node per listed record, in listing order, each built from the record and the same-named directory |
| Read.ReadMenuHierarchyAsFile | frmb/_read.py:110-148 | the loop returns the tree of the root directory, the initial root threaded unchanged into every recursive call (the same code is in frmb/_parsing.py at lines 224-262) |
| Read.LoadTreePlaced | frmb/_read.py:141-145 | every node records the root it was given and sits in the directory its parent's stem names |
| Read.FrmbFile.AtRoot | frmb/_read.py:45-49 | a file is at the root exactly when its path is the root directory followed by one more name |
| Read.DeepNodesNotAtRoot | frmb/_read.py:45-49 | nodes found below the root directory are not at the root |
| Read.AtRootExactlyTopLevel | frmb/_read.py:45-49 | in a tree read from a root directory, every node records that root, the top-level nodes are at the root, and no nested node is |
| Read.ResolverFor | frmb/_read.py:63-66 | the resolver of a file holds its directory and the root, each rendered with every backslash doubled: halving them gives the rendered paths back |
| Read.Content | frmb/_read.py:51-79 | reading a file whose record is missing fails; a file that reads gives an entry named by its record, identified by its stem, with one child per nested file |
| Read.ContentAll | frmb/_read.py:57-59 | a list of files that reads gives one entry per file, in order, each identified by its file's stem |
| Read.ResolveItem | frmb/_read.py:62-77 | resolution changes only the icon and each command argument: each is resolved with `CWD` and `ROOT`, and an icon that resolves to the empty text becomes no icon |
| Read.ContentAllSucceeds | frmb/_read.py:55-60 | reading a list of files succeeds exactly when each file reads, and then gives one entry per file, in order |
| Read.ContentAllFirstFailure | frmb/_read.py:55-60 | a list that fails to read fails with the error of its first failing file |
| Read.ContentChildren | frmb/_read.py:55-60 | an entry read from a file has one child per nested file, each read with the same flag |
| Read.ResolutionOnlyTouchesIconAndCommand | frmb/_read.py:51-79 | resolving tokens neither makes reading fail nor succeed; at every depth it changes only the icon and command, using the file's own directory and the root, backslashes doubled (the same code is `FrmbFile.content` in frmb/_parsing.py at lines 193-221) |
| Read.ResolutionOnlyTouchesAll | frmb/_read.py:174-175 | for a list of files, resolving tokens neither makes reading fail nor succeed, and each entry read with resolution differs from the one read without it only in icons and command arguments, at every depth |
| Read.ReadMenuHierarchy | frmb/_read.py:151-175 | reading a hierarchy fails when a listed record file is missing; when it succeeds it gives one entry per listed record, in listing order, identified by the record's stem |
| Read.ReadMenuHierarchyEntries | frmb/_read.py:151-175 | a hierarchy read from a root has one entry per listed record, in listing order, each identified by the record's stem and named by the record's name |
| Validation.Add | frmb/_read.py:211-213 | `setdefault(entry, []).append(msg)` appends the message to that entry's list and leaves the other entries alone |
| Validation.ValidateMenuHierarchy | frmb/_read.py:178-237 | the loop, with its per-sibling counter and right-biased merge of the children's maps, computes the report of the recursive walk (the same code is in frmb/_parsing.py at lines 292-351) |
| Validation.LevelCounter | frmb/_read.py:207-208 | the counter stays 0 along the top level and grows by one per sibling on a nested level |
| Validation.ForestSplit | frmb/_read.py:205-235 | the entries of a hierarchy are those of all but the last root, that root, and its descendants |
| Validation.OwnErrorsShape | frmb/_read.py:210-218 | an entry files an error exactly when its counter is over 16, or the counter is 0 and it has no paths; other entries' errors are kept |
| Validation.OwnWarningsShape | frmb/_read.py:220-228 | an entry files a warning exactly when it has both children and a command, or its icon holds a separator and is not a file |
| Validation.KeysWithin | frmb/_read.py:202-237 | messages are only filed under entries of the hierarchy |
| Validation.WarningsExactly | frmb/_read.py:220-234 | an entry of the hierarchy, at any depth, has warnings in the report exactly when it has both children and a command, or an icon path with no file: the walk always descends, and the merge of the children's report never drops an entry |
| Validation.LevelMessages | frmb/_read.py:205-235 | for an entry of a level that does not also occur nested: it has errors exactly when it is filed at a counter that triggers one, and warnings exactly when it triggers one |
| Validation.NestedOnlyDepthErrors | frmb/_read.py:210-218 | in the report of a nested level (walked from a counter of 1 or more) every message is the depth error, never the missing-paths one |
| Validation.NestedEntriesOnlyDepthErrors | frmb/_read.py:202-237 | in the report on the roots, every entry that is not itself a root carries only depth errors: the nested reports laid over the roots' messages bring no missing-paths error |
| Validation.RootErrors | frmb/_read.py:207-218 | a top-level entry (not also nested) has errors exactly when it has no paths |
| Validation.RootMessages | frmb/_read.py:210-218 | the errors of a top-level entry (not also nested) are only the missing-paths message, never the depth error |
| Windows.EscapeWindowsPath | frmb/_windows.py:11-12 | every backslash of the path is doubled: halving them gives the path back |
| Windows.GenerateRegFromEntry | frmb/_windows.py:19-54 | the loop over children builds the block of an entry, as a list of lines |
| Windows.GenerateRegFromHierarchy | frmb/_windows.py:57-97 | the loops over roots and their paths build the header followed by one block per (root, registry path) pair |
| Windows.HeaderLayout | frmb/_windows.py:76-86 | the header is the banner, a blank line, the generator line with version 0.1.2, one line per comment in order (kept as it is exactly when it starts with `;`, otherwise prefixed with `; `), then a blank line |
| Windows.EntryLayout | frmb/_windows.py:29-52 | a block has a `; name` line and `"subCommands"=""` exactly when the entry has children; its key is `parent\shell\identifier`, then the verb line, the icon line exactly when there is an icon, then either the nested blocks or the command key and value |
| Windows.UninstallMarksOnlyTopKeys | frmb/_windows.py:30-52 | the removal block is the installation block with `-` added only to the entry's own key and, for a leaf, its command key; nested blocks are identical |
| Windows.BlockDeclaresKeys | frmb/_windows.py:31-52 | a block declares the entry's key, its command key when it has no children, and, in installation form, every key of its nested entries, each below its parent's key |
| Windows.EntryLengthIndependent | frmb/_windows.py:29-54 | the number of lines of a block depends neither on its parent key nor on the form |
| Windows.RootBlocks | frmb/_windows.py:88-95 | a root produces one blank line plus one block per registry path, in the order of its paths |
| Windows.RootLinesEmpty | frmb/_windows.py:89-95 | a root adds no line exactly when it has no registry path |
| Windows.BodyEmptyWithoutPaths | frmb/_windows.py:88-95 | the script is only the header exactly when no root has a registry path |
| Write.FileSystem.PutRecord | frmb/_write.py:37-38 | the record file `dir\stem.frmb` is created or overwritten; a new file is listed after the existing ones |
| Write.FileSystem.MakeDir | frmb/_write.py:44-45 | the directory exists afterwards, whether or not it did before |
| Write.FileSystem.WriteMenuItemToFile | frmb/_write.py:10-48 | returns `directory\identifier.frmb`, and leaves the disk with the entry's record (name, command, paths and enabled, plus the icon only when set, never the identifier) and, when asked, each child written in order into `directory\identifier`, created before each child |
| Write.ShallowWriteOneRecord | frmb/_write.py:40-41 | without children exactly one record file is written and no directory is created |
| Write.ChildlessCreatesNoDir | frmb/_write.py:43-46 | an entry without children creates no directory |
| Write.WriteNode | frmb/_write.py:28-46 | writing one entry into a directory where its own directory is clean puts its record and its nested entries in place, lists it after the existing records unless it already was listed, and touches nothing but its own record, that listing and its own directory |
| Write.WriteAllHolds | frmb/_write.py:43-46 | writing entries into a clean directory leaves it listing exactly their records, in order, each directory of a nested entry holding its children in the same way, and nothing outside the directory changed |
| Write.WriteThenRead | tests/test_write.py:13-27 | writing entries with distinct sibling identifiers that are plain names (not empty, `.` or `..`, and without `\` or `/`) and non-empty icons into a clean directory, then reading it back without resolution, gives the same entries; without children it gives the entries stripped of their children, creates no directory, and so reads back something else as soon as one entry has children |
| Write.WriteThenReadResolved | tests/test_write.py:13-17 | when no icon or command argument holds `@` or `%%`, the round trip also holds with tokens resolved |
| Parsing.Chain | tests/test_parsing.py:66-71 | the nested test hierarchy: each level has one child except the innermost, no command and no icon |
| Parsing.SingleEntry | frmb/_parsing.py:319-349 | the report of a one-entry level is the entry's own messages with its children's report laid over them |
| Parsing.ChainBelow | frmb/_parsing.py:319-349 | every inner part of a 16-deep chain, entered with the counter the walk gives it, reports only the depth error of the innermost entry |
| Parsing.ChainOfSixteen | tests/test_parsing.py:66-76 | 16 entries nested under a root with a path give exactly one error, which says `16 nested entry`, and no warning |
| Parsing.DepthMessageNamesLimit | frmb/_parsing.py:324-327 | the depth error spells out `16 nested entry` |
| Parsing.ChainsCompare | tests/test_parsing.py:99-125 | two chains are equal exactly when they have the same depth, and renaming the outermost entry keeps the chain equal only when the new name is the one it had |

## Left out

- JSON encoding and decoding are not modelled. A record is a datatype of optional fields; a field
  of the wrong JSON type is not modelled.
- `glob` is not modelled. Its order comes from the operating system, so the listing of a directory
  is an input. Directories named like `*.frmb` are not modelled either.
- `Path.is_dir` follows symbolic links, so the source's walk can loop forever on a link to an
  enclosing directory. The model's disk is a finite set of directories with no links, and the
  loader only descends into a deeper one, so its walk always ends.
- Files and directories are separate namespaces. A record `x.frmb` and a directory named `x.frmb`
  cannot clash.
- `pathlib` normalisation is not modelled. Paths are lists of components, rendered with `\`; the
  empty path renders as `.`.
- `subprocess.list2cmdline` (the Microsoft C runtime argument quoting) is the parameter `quote`.
- `Path.is_file` is the parameter `iconIsFile`. `os.sep` is the constant `\`, as on Windows.
- Tokens.UpperChar: upper-cases only ASCII letters, not Unicode case mapping.
- Tokens.ReSub: treats the token pattern literally. A token name holding a regular-expression
  metacharacter is not modelled. Only the `\\` escape of a replacement template is modelled; any
  other escape gives no result. The values `SubstituteOne` passes only ever hold doubled
  backslashes.
- Tokens.ResolutionStructure: proved under two conditions: no token name holds `%`, and no
  piece between `@@` pairs holds `%%` after substitution. Without it the sentinel can collide with the text
  (`Tokens.SentinelCollision`).
- The concrete vectors of tests/test_tokens.py are not proved: no lemma computes their outputs.
  The general lemmas `ResolutionStructure`, `PatternIsUpperCase`, `UnknownTokensKept` and
  `SubstituteIsLiteral` state the properties those vectors exercise.
- Write.WriteThenRead: holds when the operating system lists records in the order they were
  written. The model lists a new record after the existing ones, but `glob` promises no order (on
  NTFS, for example, names come back sorted); with another order the same entries come back in
  that order.
- Write.WriteThenRead: requires distinct sibling identifiers. Two siblings with the same
  identifier overwrite one record.
- Write.WriteThenRead: requires identifiers that are plain names at every depth: not `.` or
  `..`, and holding neither `\` nor `/`. Joined to a directory, `.` is the directory itself and
  `..` its parent, so the source writes the nested entries beside the entry or above it. A name
  with a separator names a record inside a directory that does not exist, and the source fails
  to open it. The model's paths do not resolve names, so it would write one record.
- Write.WriteThenRead: requires non-empty identifiers at every depth. An entry with the empty
  identifier is written to the file `.frmb`, whose stem is `.frmb`, so it reads back with another
  identifier. Its nested entries are written beside it (`directory / ""` is `directory`), not into
  a directory of their own.
- Write.WriteThenRead: requires no empty icon. Icons are strings here, and `""` reads back as no
  icon, so `Some("")` does not round-trip. In the source an icon is a path, and an empty path is
  `.`, which is written as `.` and reads back equal.
- Write.WriteThenReadResolved: requires entries without `@` or `%%` in icons and commands.
  Otherwise resolution changes them on reading.
- `hash()` values are not modelled; equality of entries is. Python's string hashes are randomised
  per process, and `ChainsCompare` states the equalities the hash test relies on.
- Determinism of the generated script follows from the generator being a function of its inputs.
  There is no separate lemma.
- The command-line front end, the module re-exports and the writing of the script to a file are
  not part of this model: `frmb/__main__.py`, `frmb/_cli.py` and `frmb/__init__.py`. The version
  `0.1.2` of `frmb/__init__.py` is a constant.
- Logging is not modelled.
- The report maps of the validator are unordered. Python's dictionaries keep the order in which
  entries were first added, which only affects the order of logged messages.
- Validation.NestedOnlyDepthErrors: that a nested entry gets the depth error exactly when its
  counter is over 16 is proved for the report of the level it sits in (`LevelMessages`). It is
  not carried to the report on the roots, where a duplicate of the entry elsewhere can replace its
  messages through the right-biased merge. On that report only the kind of message is stated
  (`NestedEntriesOnlyDepthErrors`).
