# Auto snippet generator, modelled in Dafny

The auto snippet generator is one C# class, `ASGenerator`. It scans the `.cs` files of
a project directory for types. A type counts when a file declares a default
constructor (`public Name()`) or a struct (`struct Name {`). For every type name found,
the generator writes a Visual Studio code snippet into a snippet directory. The snippet
is `<Name>.snippet`, and it inserts `Name $varName$ = new Name();`.

The generator also keeps a manifest, `SNIPPET_DATA.txt` in the project directory, that
lists the names it generated snippets for. On a later run it uses the manifest to delete
the snippets of types that have disappeared. `RemoveAllCustomSnipets` deletes every
snippet the manifest lists and then empties the manifest.

The model has these modules:

- `Strings` (`strings.dfy`): the .NET string operations the class relies on, on
  `seq<char>`. These are `TrimStart`, `TrimEnd`, `Trim`, `Split(char)`,
  `Replace(c, "")` and ordinal `EndsWith`.
- `TextFiles` (`textfiles.dfy`): how `File.WriteAllLines` frames lines into a file's text
  and how `File.ReadAllLines` cuts the text back into lines.
- `Patterns` (`patterns.dfy`): the two regular expressions, written as hand-made
  matchers.
  - The default-constructor pattern is `public[ ]+\S+([ ]|NL|\t)*\([ ]*\)` and the
    struct pattern is `struct[ ]+\S+([ ]|NL|\t)*{`, where NL is `Environment.NewLine`.
  - `IsHit` reads a pattern as it is written.
  - `MatchAt` is the backtracking search from one position.
  - `Scan` is `Regex.Matches`: leftmost matches, and each search resumes where the last
    match ended.
- `Extraction` (`extraction.dfy`): `GetConstructors` without its I/O.
  - Each match is post-processed: `Trim`, `Split(" ")[1]`, then `Split("(")[0]` or
    `Trim().Replace("{","")`.
  - Within a file, struct names come before constructor names.
  - Files are filtered to `.cs` files, and files that no longer exist are skipped.
  - The names of all files are concatenated in listing order, duplicates kept.
- `Declarations` (`declarations.dfy`): what the extractor makes of concrete
  declarations, quirks included.
- `Snippets` (`snippets.dfy`):
  - the path normalisation done by the constructor;
  - the manifest path and the snippet path;
  - the snippet template.
- `Sync` (`sync.dfy`): the effect of `Generate`, `RemoveUnneededSnippet` and
  `RemoveAllCustomSnipets` on the disk, as functions on a `map<string, string>` from
  path to text, with the lemmas about them.
- `Generator` (`generator.dfy`): the classes.
  - `FileSystem` holds the disk in a mutable field and has the `File.*` operations as
    methods.
  - `ASGenerator` has the source's constructor and methods, with the source's loops.
    Each method is proved against the `Sync` and `Extraction` functions.

The model differs from the source in three ways:

- The file system is passed to the constructor as an object.
- `Environment.NewLine` is passed to the constructor as a string (LF or CR LF).
- The directory listing that `DirectoryInfo.GetFiles` would return is passed to
  `GetConstructors` and `Generate`. It is `None` when the directory does not exist.

## Model

| member | source | states |
|---|---|---|
| Strings.EndsWith | AutoSnippetGenerator.cs:117 | ordinal `EndsWith`: the string is at least as long as the suffix and its last characters are the suffix |
| Strings.TrimStart | AutoSnippetGenerator.cs:134 | the result starts with no white space |
| Strings.TrimEnd | AutoSnippetGenerator.cs:134 | the result ends with no white space |
| Strings.Untrimmed | AutoSnippetGenerator.cs:134 | trimming leaves a string alone if it starts and ends with non-white-space |
| Strings.Trim | AutoSnippetGenerator.cs:134 | the result is no longer than the input, holds only characters of the input and has no white space at either end; it is the input itself when the input already has none |
| Strings.Split | AutoSnippetGenerator.cs:134 | at least one piece, two when the separator occurs; no piece holds the separator |
| Strings.SplitCount | AutoSnippetGenerator.cs:134 | there is one more piece than there are separators |
| Strings.JoinSplit | AutoSnippetGenerator.cs:134 | joining the pieces with the separator gives the split string back |
| Strings.SplitJoin | AutoSnippetGenerator.cs:134 | splitting a join of separator-free pieces gives the pieces back |
| Strings.SplitFree | AutoSnippetGenerator.cs:138 | a string without the separator splits into itself, so `Split("(")[0]` of a string without `(` is the string |
| Strings.SplitAround | AutoSnippetGenerator.cs:134 | a separator-free first piece comes out first, then the split of the rest |
| Strings.SplitTwo | AutoSnippetGenerator.cs:134 | two separator-free pieces around one separator split into exactly those two |
| Strings.SplitThree | AutoSnippetGenerator.cs:134 | three separator-free pieces around two separators split into exactly those three |
| Strings.RemoveChar | AutoSnippetGenerator.cs:134 | `Replace("{","")` leaves no `{`, shortens the string by the number of `{` and adds no character |
| Strings.RemoveCharAppend | AutoSnippetGenerator.cs:134 | removing a character distributes over concatenation |
| Strings.RemoveCharAbsent | AutoSnippetGenerator.cs:134 | a string without the character is unchanged |
| TextFiles.WriteLines | AutoSnippetGenerator.cs:48 | writing no lines gives an empty file |
| TextFiles.ReadLines | AutoSnippetGenerator.cs:88 | every line read holds no line break; an empty file reads as no lines and only an empty file does |
| TextFiles.LineEnd | AutoSnippetGenerator.cs:88 | where `ReadAllLines` ends the first line: no line break before it, and a break or the end of the text at it |
| TextFiles.NextLineStart | AutoSnippetGenerator.cs:88 | where the next line starts: after the break, CR LF counting as one, and past the start of a non-empty text |
| TextFiles.FirstLine | AutoSnippetGenerator.cs:88 | in `line + nl + rest`, the first line ends at `line`'s end and the next starts after `nl` |
| TextFiles.ReadFirstLine | AutoSnippetGenerator.cs:88 | reading `line + nl + rest` gives `line` followed by the lines of `rest` |
| TextFiles.ReadWriteFirst | AutoSnippetGenerator.cs:61 | reading written lines gives the first line followed by what the rest reads as |
| TextFiles.ReadWriteLines | AutoSnippetGenerator.cs:61 | reading the manifest `WriteAllLines` wrote gives the same lines back, provided no line holds a line break |
| TextFiles.BrokenLineSplits | AutoSnippetGenerator.cs:61 | a written line `"A\n"` reads back as the two lines `"A"` and `""` |
| Patterns.Keyword | AutoSnippetGenerator.cs:127-130 | both patterns start with a six-character literal (`public`, `struct`) |
| Patterns.Opener | AutoSnippetGenerator.cs:127-130 | the character after the `(ws)*` part (`(` or `{`) is not white space |
| Patterns.WsTokens | AutoSnippetGenerator.cs:127 | the definition of `([ ]\|NL\|\t)*`: a stretch of text made of spaces, tabs and platform newlines, one alternative after another |
| Patterns.IsTail | AutoSnippetGenerator.cs:127-130 | the definition of what follows the opening character: `[ ]*\)` for the constructor pattern, nothing for the struct pattern |
| Patterns.IsHit | AutoSnippetGenerator.cs:127-130 | the reference reading of each pattern: the keyword, one or more spaces, a non-empty run of non-white-space, a `(ws)*` stretch, the opening character and the tail, at the positions the hit records |
| Patterns.Value | AutoSnippetGenerator.cs:134 | `Match.Value`: the text from the start of the match to its end |
| Patterns.TokenAt | AutoSnippetGenerator.cs:127 | a `(ws)*` alternative found at `i` lies inside the text |
| Patterns.SkipSpaces | AutoSnippetGenerator.cs:127 | `[ ]+` greedy: only spaces are passed over, and a non-space or the end follows |
| Patterns.SkipWord | AutoSnippetGenerator.cs:127 | `\S+` greedy: only non-white-space characters are passed over, and white space or the end follows |
| Patterns.SkipWs | AutoSnippetGenerator.cs:127 | the greedy `(ws)*` part stays inside the text and stops where no alternative starts |
| Patterns.SkipWsTokens | AutoSnippetGenerator.cs:127 | what the greedy `(ws)*` part passes over is generated by `([ ]\|NL\|\t)*` |
| Patterns.SkipWsUnique | AutoSnippetGenerator.cs:127 | a `(ws)*` part that ends where no alternative starts is the greedy one |
| Patterns.TailEnd | AutoSnippetGenerator.cs:127-130 | the tail after the opening character (`[ ]*\)` or nothing) ends where the pattern says |
| Patterns.Attempt | AutoSnippetGenerator.cs:127-130 | an attempt that ends the `\S+` part at `len` gives, when it succeeds, a match with that start, that word start and that word end |
| Patterns.AttemptHit | AutoSnippetGenerator.cs:127-130 | a successful attempt is a match of the pattern |
| Patterns.BacktrackLongest | AutoSnippetGenerator.cs:127-130 | the backtracking over `\S+` returns the longest successful length, and it fails only when every length fails |
| Patterns.Backtrack | AutoSnippetGenerator.cs:127-130 | the order in which the engine gives back characters of the greedy `\S+`: longest first, one character at a time; `BacktrackLongest` states what it returns |
| Patterns.BacktrackHit | AutoSnippetGenerator.cs:127-130 | what the backtracking finds is a match |
| Patterns.MatchAt | AutoSnippetGenerator.cs:127-131 | a match found from position `i` is a match of the pattern that starts at `i` |
| Patterns.HitDeterminedByWord | AutoSnippetGenerator.cs:127-130 | two matches with the same start and the same `\S+` end are the same match |
| Patterns.AttemptAtWordEnd | AutoSnippetGenerator.cs:127-130 | trying a match's own `\S+` length gives that match back |
| Patterns.BacktrackFinds | AutoSnippetGenerator.cs:127-130 | backtracking from any length at least a match's own finds a match at least as long |
| Patterns.MatchAtFinds | AutoSnippetGenerator.cs:127-131 | the search is complete and greedy: wherever a match starts, one is found there whose `\S+` part is at least as long |
| Patterns.Scan | AutoSnippetGenerator.cs:127-131 | `Matches` gives matches of the pattern, each the one the search finds at its start, in order and without overlap |
| Patterns.PrependHitValid | AutoSnippetGenerator.cs:127-131 | a match followed by the matches found after it are all matches from the search start |
| Patterns.PrependHitFound | AutoSnippetGenerator.cs:127-131 | each of them is what the search finds at its start |
| Patterns.PrependHitOrdered | AutoSnippetGenerator.cs:127-131 | they are in order and do not overlap |
| Patterns.ScanMissesNothing | AutoSnippetGenerator.cs:127-131 | every match of the pattern that starts after the search start lies within a match `Matches` returns |
| Patterns.ScanAt | AutoSnippetGenerator.cs:127-131 | from a position where no match starts the search moves one character on; otherwise the match comes first and the search resumes at its end |
| Patterns.StepsCover | AutoSnippetGenerator.cs:127-131 | any search that steps as `Matches` does covers every position where a match starts |
| Patterns.ScanCovers | AutoSnippetGenerator.cs:127-131 | every position after the search start where a match starts lies within a match `Matches` returns |
| Patterns.WsTokensFirst | AutoSnippetGenerator.cs:127 | a non-empty `(ws)*` part starts with the alternative found at its start |
| Patterns.NewLineBreaks | AutoSnippetGenerator.cs:127 | a platform newline starts with a line break |
| Patterns.NoTokenAtWord | AutoSnippetGenerator.cs:127 | no `(ws)*` alternative starts at a non-white-space character |
| Patterns.SpacesUnique | AutoSnippetGenerator.cs:127 | a run of spaces followed by a non-space has one end |
| Patterns.CoversFirst | AutoSnippetGenerator.cs:127-131 | a position in the first match is covered |
| Patterns.CoversRest | AutoSnippetGenerator.cs:127-131 | a position covered by the later matches is covered |
| Extraction.ConstructorName | AutoSnippetGenerator.cs:137-138 | a constructor name holds no space and no `(`; it is the part of the second space-separated field before its first `(` |
| Extraction.StructName | AutoSnippetGenerator.cs:134 | a struct name holds no space and no `{` |
| Extraction.JoinFirst | AutoSnippetGenerator.cs:134 | a join starts with its first piece, followed by the separator when there are more pieces |
| Extraction.HitValueShape | AutoSnippetGenerator.cs:127-138 | a match's value starts with `public`/`struct` and a space, and trimming leaves it alone |
| Extraction.Names | AutoSnippetGenerator.cs:134-138 | one name per match |
| Extraction.NamesNone | AutoSnippetGenerator.cs:134-138 | no match gives no name |
| Extraction.NamesOne | AutoSnippetGenerator.cs:134-138 | one match gives the one name of its value |
| Extraction.NamesCons | AutoSnippetGenerator.cs:134-138 | names come in match order |
| Extraction.NameIsWord | AutoSnippetGenerator.cs:134-138 | a name holds no space and not its pattern's opening character |
| Extraction.NamesAreWords | AutoSnippetGenerator.cs:134-138 | no name of any match holds a space or its pattern's opening character |
| Extraction.NameOf | AutoSnippetGenerator.cs:134-138 | the post-processing a match gets by its pattern: line 134 for a struct, line 138 for a constructor |
| Extraction.ExtractText | AutoSnippetGenerator.cs:125-138 | the names of one file: every struct name in match order, then every constructor name in match order |
| Extraction.ExtractedNamesAreWords | AutoSnippetGenerator.cs:127-138 | a file's struct names hold no `{`, its constructor names no `(`, and none holds a space |
| Extraction.CsFiles | AutoSnippetGenerator.cs:117 | the files kept are exactly the listed files whose name ends in `.cs` |
| Extraction.CsFilesAppend | AutoSnippetGenerator.cs:117 | the filter keeps listing order |
| Extraction.FileNames | AutoSnippetGenerator.cs:123-125 | the names of one listed file: its `ExtractText` if it still exists, none otherwise |
| Extraction.SourceNames | AutoSnippetGenerator.cs:121-141 | the per-file extractor gives each file's names |
| Extraction.Collect | AutoSnippetGenerator.cs:121-141 | the `foreach` over the files: each file's names appended to `ctorNames` in turn; `CollectAppend` and `CollectMembers` state its properties |
| Extraction.TypeNames | AutoSnippetGenerator.cs:112-144 | what `GetConstructors` returns: the names the `.cs` files of the listing give, in listing order; `ExtractionMembers` and `ExtractionAppend` state its properties |
| Extraction.CollectAppend | AutoSnippetGenerator.cs:121-141 | the names of two runs of files are the names of the first, then those of the second |
| Extraction.CollectMembers | AutoSnippetGenerator.cs:121-141 | a name is collected exactly when one of the files yields it |
| Extraction.CollectAgree | AutoSnippetGenerator.cs:121-141 | extractors that agree on the files collect the same names |
| Extraction.ExtractionAppend | AutoSnippetGenerator.cs:117-143 | the names of a listing split in two are the names of the first part, then those of the second |
| Extraction.ExtractionSingle | AutoSnippetGenerator.cs:117-141 | one listed file gives its struct names, then its constructor names, if it is a `.cs` file that exists, and nothing otherwise |
| Extraction.ExtractionPair | AutoSnippetGenerator.cs:117-141 | two existing `.cs` files give the names of the first, then those of the second |
| Extraction.ExtractionMembers | AutoSnippetGenerator.cs:117-143 | a name is found exactly when some listed, existing `.cs` file yields it |
| Extraction.ExtractedFromSomeSource | AutoSnippetGenerator.cs:117-143 | every name found comes from a listed, existing `.cs` file |
| Extraction.EverySourceContributes | AutoSnippetGenerator.cs:117-143 | every name of a listed, existing `.cs` file is found |
| Extraction.ExtractionReadsOnlySources | AutoSnippetGenerator.cs:117-143 | two disks that agree on the listed `.cs` files give the same names |
| Declarations.HitHasOpener | AutoSnippetGenerator.cs:127-130 | a match holds its pattern's opening character |
| Declarations.NoOpenerNoHit | AutoSnippetGenerator.cs:127-131 | a text without `(` has no constructor match, and one without `{` has no struct match |
| Declarations.ScanWhole | AutoSnippetGenerator.cs:127-131 | a match found at 0 that runs to the end is the only match |
| Declarations.SoleMatch | AutoSnippetGenerator.cs:127-131 | a whole-text match whose opening character occurs once is the one match `Matches` returns |
| Declarations.ExtractSoleConstructor | AutoSnippetGenerator.cs:127-138 | a text matched once by the constructor pattern and never by the struct pattern gives only that constructor's name |
| Declarations.ExtractSoleStruct | AutoSnippetGenerator.cs:127-138 | a text matched once by the struct pattern and never by the constructor pattern gives only that struct's name |
| Declarations.ConstructorShape | AutoSnippetGenerator.cs:127 | a constructor declaration, character by character |
| Declarations.ConstructorDeclarationHit | AutoSnippetGenerator.cs:127-128 | the constructor pattern matches a constructor declaration once, as a whole |
| Declarations.ConstructorDeclarationNoStruct | AutoSnippetGenerator.cs:130-131 | a constructor declaration has no struct match |
| Declarations.ConstructorDeclarationMatches | AutoSnippetGenerator.cs:127-131 | a constructor declaration is matched once, only as a constructor |
| Declarations.ConstructorNameOneSpace | AutoSnippetGenerator.cs:138 | `public Name()` gives `Name` |
| Declarations.ConstructorNameMoreSpaces | AutoSnippetGenerator.cs:138 | with two or more spaces after `public`, the name is the empty string |
| Declarations.ConstructorNameOf | AutoSnippetGenerator.cs:138 | `public` + a space + a name free of spaces and `(` + `()` gives that name |
| Declarations.ConstructorNameGap | AutoSnippetGenerator.cs:138 | `public Name` followed by a tab or newline and `()` gives `Name` with that tab or newline kept, because only the first `(` ends the name |
| Declarations.ConstructorDeclarationConstructorName | AutoSnippetGenerator.cs:138 | the name is the declared one after one space, and empty after more |
| Declarations.ConstructorDeclarationName | AutoSnippetGenerator.cs:127-138 | a file holding `public` + spaces + `Name()` gives exactly `[Name]` after one space and `[""]` after more |
| Declarations.GapTokens | AutoSnippetGenerator.cs:130 | nothing, a space, a tab or a newline is generated by `(ws)*` |
| Declarations.StructShape | AutoSnippetGenerator.cs:130 | a struct declaration, character by character |
| Declarations.StructDeclarationCandidate | AutoSnippetGenerator.cs:130 | a whole struct declaration is a match of the struct pattern |
| Declarations.StructDeclarationHit | AutoSnippetGenerator.cs:130-131 | the struct pattern matches a struct declaration once, as a whole |
| Declarations.StructDeclarationNoConstructor | AutoSnippetGenerator.cs:127-128 | a struct declaration has no constructor match |
| Declarations.StructDeclarationMatches | AutoSnippetGenerator.cs:127-131 | a struct declaration is matched once, only as a struct |
| Declarations.StructField | AutoSnippetGenerator.cs:134 | the second space-separated field of `struct` + a space + a space-free field is that field |
| Declarations.StructNameOfField | AutoSnippetGenerator.cs:134 | the struct name is that field with every `{` removed |
| Declarations.StructNameOf | AutoSnippetGenerator.cs:134 | `struct` + a space + `name{` gives `name` |
| Declarations.StructNameSpace | AutoSnippetGenerator.cs:134 | `struct Name {` gives `Name` |
| Declarations.StructNameGap | AutoSnippetGenerator.cs:134 | `struct Name{`, or `{` after a tab or newline, gives `Name` with that tab or newline kept, because the trim comes before the brace is removed |
| Declarations.StructNameMoreSpaces | AutoSnippetGenerator.cs:134 | with two or more spaces after `struct`, the name is the empty string |
| Declarations.StructDeclarationStructName | AutoSnippetGenerator.cs:134 | the struct name is the declared name, with the gap kept unless it is a space |
| Declarations.StructDeclarationName | AutoSnippetGenerator.cs:130-134 | a file holding `struct Name` + gap + `{` gives exactly `[Name]` with a space gap and `[Name + gap]` otherwise |
| Declarations.BothKindsContribute | AutoSnippetGenerator.cs:117-143 | a file declaring `public A()` listed before one declaring `struct B {` gives `[A, B]` |
| Snippets.EndsWithBackslash | AutoSnippetGenerator.cs:29-33 | `EndsWith('\\')`: the path is non-empty and its last character is a backslash |
| Snippets.SnippetDirectory | AutoSnippetGenerator.cs:29-30 | the snippet location ends with a backslash, is unchanged if it already did, and otherwise gains exactly one |
| Snippets.SnippetDirectoryIdempotent | AutoSnippetGenerator.cs:29-30 | normalising twice is normalising once |
| Snippets.ManifestPath | AutoSnippetGenerator.cs:33-34 | the manifest path starts with the project directory and ends with `\SNIPPET_DATA.txt`; the backslash is the directory's own when it already ends with one |
| Snippets.ManifestInProjectDirectory | AutoSnippetGenerator.cs:33-34 | the manifest path is the normalised project directory + `SNIPPET_DATA.txt`, so a backslash is added only when missing |
| Snippets.SnippetPath | AutoSnippetGenerator.cs:189 | a snippet path is the location, then the name, then `.snippet` |
| Snippets.SnippetPathInjective | AutoSnippetGenerator.cs:189 | two names share a snippet file exactly when they are equal |
| Snippets.DifferentEndings | AutoSnippetGenerator.cs:189 | paths with different endings differ |
| Snippets.SnippetPathNotManifest | AutoSnippetGenerator.cs:189 | no snippet file is the manifest |
| Snippets.GeneratedPathsNotSources | AutoSnippetGenerator.cs:189 | neither a snippet file nor the manifest is a `.cs` file |
| Snippets.ContainsEnd | AutoSnippetGenerator.cs:163-185 | a string holds what it ends with |
| Snippets.ContainsExtend | AutoSnippetGenerator.cs:163-185 | a string still holds a piece after text is appended |
| Snippets.ContainsPieces | AutoSnippetGenerator.cs:163-185 | a concatenation holds each of its pieces |
| Snippets.Render | AutoSnippetGenerator.cs:163-185 | the snippet template, character for character, with the title, author, description, shortcut and type name filled in; `RenderShows` states what it holds |
| Snippets.RenderShows | AutoSnippetGenerator.cs:163-185 | a rendered snippet holds its `<Title>`, its `<Shortcut>` and `typeName $varName$ = new typeName();` |
| Snippets.GeneratedSnippetShows | AutoSnippetGenerator.cs:155-189 | the snippet written for a type is titled and triggered by its name and inserts `Name $varName$ = new Name();` |
| Sync.Removed | AutoSnippetGenerator.cs:89-98 | the `removedClasses` list: the old manifest's names that are not among the new ones, in manifest order; `RemovedMembers` states its membership |
| Sync.RemovedMembers | AutoSnippetGenerator.cs:91-98 | a name is removed exactly when the old manifest lists it and the new names do not |
| Sync.DeleteSnippets | AutoSnippetGenerator.cs:100-104 | the disk after `File.Delete` of each name's snippet file in turn; `DeleteSnippetsRemovesPaths` states its effect |
| Sync.DeleteSnippetsRemovesPaths | AutoSnippetGenerator.cs:100-104 | deleting the snippets of some names removes exactly their files and keeps the rest |
| Sync.WriteSnippets | AutoSnippetGenerator.cs:56-59 | the disk after writing each name's snippet in turn; `WriteSnippetsEffect` states its effect |
| Sync.WriteSnippetsEffect | AutoSnippetGenerator.cs:56-59 | after writing, each name's snippet file holds its snippet, and every other file is as it was |
| Sync.WriteSnippetsUnchanged | AutoSnippetGenerator.cs:56-59 | rewriting snippets that are already in place changes nothing |
| Sync.Cleaned | AutoSnippetGenerator.cs:45-54 | the disk after the `if` of `Generate`: the manifest written on the first run, otherwise the snippets of the removed names deleted, the old manifest being read first |
| Sync.Generated | AutoSnippetGenerator.cs:41-62 | the disk after `Generate`: cleaned, every snippet written, then the manifest rewritten with the names; the `Generated*` lemmas state its effect |
| Sync.GeneratedManifest | AutoSnippetGenerator.cs:61 | after `Generate` the manifest reads back as the names found, in order and duplicates kept, when no name holds a line break |
| Sync.GeneratedSnippets | AutoSnippetGenerator.cs:56-59 | every name found has its snippet file, holding the snippet of that name |
| Sync.GeneratedDeletes | AutoSnippetGenerator.cs:45-104 | `Generate` deletes a file exactly when it is the snippet of a name the old manifest lists and the new names lack |
| Sync.GeneratedFrame | AutoSnippetGenerator.cs:41-62 | every file other than the manifest and the new snippets is kept as it was or deleted, and no other file is created |
| Sync.FirstRunDeletesNothing | AutoSnippetGenerator.cs:45-49 | without a manifest, `Generate` deletes no file |
| Sync.GeneratedKeepsSources | AutoSnippetGenerator.cs:41-62 | `Generate` changes no `.cs` file, so the names found do not change |
| Sync.RegenerateUnchanged | AutoSnippetGenerator.cs:41-62 | a disk whose manifest and snippets already match the names found is left as it is |
| Sync.GenerateIdempotent | AutoSnippetGenerator.cs:41-62 | running `Generate` twice on unchanged sources gives the disk one run gives, when no name holds a line break; the second run may see a different listing with the same `.cs` files, such as one that now holds the manifest |
| Sync.ManifestAddsNoSource | AutoSnippetGenerator.cs:117 | adding the manifest anywhere to a listing leaves its `.cs` files unchanged, so the listing after the first run meets `GenerateIdempotent`'s condition |
| Sync.BrokenNameDeletesForeignSnippet | AutoSnippetGenerator.cs:41-62 | a name with a line break, written to the manifest, reads back as two names, and the next run deletes a snippet the generator never wrote |
| Sync.Purged | AutoSnippetGenerator.cs:68-78 | the disk after `RemoveAllCustomSnipets`: every snippet the manifest lists deleted and the manifest emptied, or no result (the read fails) when the manifest is missing; `PurgedEffect` states its effect |
| Sync.PurgeNeedsManifest | AutoSnippetGenerator.cs:71 | `RemoveAllCustomSnipets` fails exactly when the manifest is missing |
| Sync.PurgedEffect | AutoSnippetGenerator.cs:71-78 | it empties the manifest, deletes exactly the snippets the manifest lists and keeps every other file, user-made snippets included |
| Sync.PurgeIdempotent | AutoSnippetGenerator.cs:71-78 | a second call changes nothing |
| Sync.PurgeAfterGenerate | AutoSnippetGenerator.cs:41-78 | purging right after `Generate` deletes every generated snippet and leaves an empty manifest |
| Generator.FileSystem.Exists | AutoSnippetGenerator.cs:123 | `File.Exists`: the path is on the disk |
| Generator.FileSystem.ReadAllText | AutoSnippetGenerator.cs:125 | `File.ReadAllText`: the text stored at the path, for a path that exists |
| Generator.FileSystem.ReadAllLines | AutoSnippetGenerator.cs:88 | no line read holds a line break, and a file reads as no lines exactly when it is empty |
| Generator.FileSystem.WriteAllText | AutoSnippetGenerator.cs:189 | the file is created or overwritten and nothing else changes |
| Generator.FileSystem.WriteAllLines | AutoSnippetGenerator.cs:61 | the file holds the lines, each followed by the newline, and nothing else changes |
| Generator.FileSystem.Delete | AutoSnippetGenerator.cs:103 | the file is gone, whether or not it existed, and nothing else changes |
| Generator.ASGenerator.constructor | AutoSnippetGenerator.cs:26-35 | the snippet location is normalised to end with a backslash, and the manifest is set to `SNIPPET_DATA.txt` in the project directory |
| Generator.ASGenerator.GetConstructors | AutoSnippetGenerator.cs:112-144 | without the directory it fails; otherwise it returns the names of the listed, existing `.cs` files in listing order, each file's struct names before its constructor names |
| Generator.ASGenerator.CreateNewSnippet | AutoSnippetGenerator.cs:155-192 | the snippet file of the type holds the rendered template, and nothing else changes |
| Generator.ASGenerator.RemoveUnneededSnippet | AutoSnippetGenerator.cs:85-105 | without a manifest it fails and changes nothing; otherwise it deletes the snippets of the names the manifest lists and `newSnippets` lacks, and nothing else |
| Generator.ASGenerator.Generate | AutoSnippetGenerator.cs:41-62 | without the directory it fails and changes nothing; otherwise the disk becomes `Generated` of the names found, which the `Sync` lemmas describe |
| Generator.ASGenerator.CreateSnippets | AutoSnippetGenerator.cs:56-59 | every name found gets its snippet, in turn |
| Generator.ASGenerator.RemoveAllCustomSnipets | AutoSnippetGenerator.cs:68-79 | without a manifest it fails and changes nothing; otherwise the disk becomes `Purged`, which the `Sync` lemmas describe |

## Left out

- `Main` (lines 17-20) is empty and is not modelled.
- Real file I/O is not modelled. The disk is a map from path to text held in `FileSystem`.
- `DirectoryInfo.GetFiles` is not modelled. Its listing is an input, in any order, and
  `None` stands for a missing directory.
- `Environment.NewLine` is a parameter, LF or CR LF.
- Exceptions are modelled only for a missing project directory (`DirectoryNotFound`) and
  a missing manifest (`FileNotFound`). Invalid paths, access and I/O errors, and the
  partial state an exception leaves behind are not modelled.
- Concurrent runs are not modelled; the class has no concurrency.
- Path syntax is not modelled. Paths are plain strings with no normalisation, and file
  names are compared exactly.
- Text encoding and byte order marks are not modelled. A file's text is its characters.
- `String.EndsWith(".cs")` is culture-sensitive in .NET, and `String.Trim` and the `\s`
  and `\S` classes rely on Unicode tables. The model uses ordinal comparison and a fixed
  set of white-space characters.
- What `File.ReadAllLines` does around a final line break follows the .NET
  documentation: no empty last line. This is the only framing the lemmas rely on.
- The snippet XML is not checked against the Visual Studio schema. The template's line
  breaks are line feeds, as in the source file.
- Generator.ASGenerator.CreateSnippets: this method is the `foreach` of `Generate`
  (lines 56-59) moved into a method of its own. It calls `CreateNewSnippet` exactly as
  the loop does.
- Generator.ASGenerator.constructor: the constructor also takes the file system and the
  newline, which the source reads from the environment.
- Sync.GeneratedManifest, Sync.GenerateIdempotent and Sync.PurgeAfterGenerate require
  that no name found holds a line break. A struct or constructor name can hold one (see
  `Declarations.StructNameGap` and `Declarations.ConstructorNameGap`). `Sync.BrokenNameDeletesForeignSnippet` shows what then
  happens.
