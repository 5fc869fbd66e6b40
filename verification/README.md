# Crater: storage paths, dataset relocation and front-end scripts

Crater's storage service serves one directory tree through virtual paths and keeps
a table that says where each dataset lives in it. Its front end is kept in shape by
a few Python scripts that extract translations from a model's answers, rename files
to kebab-case, align translation files and convert colours. This project models the
hand-written logic of both in Dafny and proves what it is relied on for.

**Storage service.** `PathNames` is `strings.Split`, `filepath.Clean` and the rooted
form of Clean with which `webdav.Dir` finds a place in the tree. `FileTree` is a tree
as a map from component lists to nodes, with `Stat` (found, not-exist, other error),
single-level `Mkdir` and `Rename`. `SpaceRouting` has `GetPermission`, which routes
by the first component of the cleaned path, and `Redirect`, which routes by string
prefix of the raw path; both are shown to follow one component-level table.
`DatasetService` is the state, a class that holds the tree and the dataset table,
and the methods that change it step by step, on the strings that the table and the
requests hold. Each is proved against a closed form of what it does. `DatasetRuns` puts
the closed forms together into runs and proves that every run keeps table and tree in
agreement.

**Extraction of code and JSON.** `TemplateCodec` is the hiding of `{{` and `}}`
under placeholders. `JsonText` is a JSON parser with the strictness of `json.loads`,
together with a two-state lexer (sections 4 and 7 of RFC 8259); the parser's contract
says that what it reads leaves the lexer outside a string. `JsonDocs` proves that it
reads whole documents back. `Extraction` is the four-step search. Its main theorem rests
on parity: from a brace inside a string, the quotes of the rest of the text cannot pair
up. `TrailingText` has the answers that go on after their object.

**Renaming files.** `Kebab` and `KebabStems` are the name function and what it
keeps. `TreeRename` is the bottom-up walk and the loop of renames. The invariant of the loop
is that the current tree is the original with each node at the place that the renames
done so far give it. `ImportRewrite` resolves and rewrites one import path.
`ImportScan` is the import expression as a scanner over any text, leftmost first and
not overlapping. `SourceImports` is the rewriting of one file's text, and what it
makes of a file seen as literals without quotes in them and any text between.
`RefactorRun` is a whole run: plan, rewriting of every source file, renames.
`RefactorImports` says exactly which imports lead to their files after a run.

**Translation files.** `Translations` has nested lookup, key enumeration and
flattening. `MissingKeys` builds nested dictionaries on the heap through a moving
reference, as the script does. The script puts dictionaries of the default file into
the result without copying them, so what it writes below them later is written into the
default file too, and read from there for the keys that follow; default file and result
are therefore two structures on one heap, with dictionaries in common. `KeyPlaces` is
what the two hold at which place after each key, and says exactly when the loop raises a
TypeError, which keys are found in the end, and which key lists are served.

**Colours.** `HslColor` is the sRGB to HSL conversion over the reals and the
algorithm in section 4.2.4 of CSS Color Module Level 3 that undoes it.

## What the proofs found

- `Redirect` is injective on a caller's own paths exactly when the roots of the
  spaces that the caller can reach are pairwise non-nested
  (`SpaceRouting.InjectiveExactlyWhenRootsApart`).
- The comment at `storage/service/file.go:772-773` has the role verified for all three
  admin names. In the code `Redirect` does so for `admin-user` only, and
  `GetPermission` for all three; the model follows the code.
- A dataset's URL stops naming a node as soon as a relocation goes through in the
  tree and the table update fails (`DatasetRuns.UpdateDecidesAgreement`, with an input
  in `DatasetRuns.FailedUpdateExample`).
- A move to a destination that does not end in a name, such as one with a trailing
  slash, always fails, and may leave the destination behind as an empty directory:
  `filepath.Dir` is then not the parent (`DatasetService.OnlyNamesAreMovedTo`, with an
  input in `DatasetService.TrailingSlashExample`).
- A restore whose destination lies two levels inside the dataset itself fails but
  leaves a new directory in the dataset. `DatasetRuns.RestoreIntoOwnTree` gives the
  exact condition, `DatasetRuns.RestoreIntoOwnTreeExample` an input.
- `MoveFile` answers a refused destination with an error and does not return; the
  move that follows has the empty path as destination and is refused because the
  root is taken, so nothing changes. Which permitted paths are refused is stated by
  `SpaceRouting.PermittedButRefused`, with an input in
  `SpaceRouting.PermittedButRefusedExample`.
- Restoring templates undoes hiding them on exactly the strings that
  `TemplateCodec.Survives` describes. Extraction inverts printing exactly when every
  value is one of them, no key holds a doubled brace, and the attempt at the last brace
  meets no integer of more than 4300 digits (`Extraction.ExtractInvertsPrinting`).
- Such an integer gets an error out of the whole search, as `int` raises a plain
  `ValueError`, exactly if one of the four attempts meets it and the ones before have
  failed (`Extraction.CrashExactly`). Nothing else in the model does. A plain object
  holding it is an example (`Extraction.LongIntegerCrashes`), and so is a printed string
  map whose digits follow a key that ends in a brace (`Extraction.LastBraceRaisesExample`).
- The import expression does not match every import of the language: not a bare
  `import './Foo'`, `from` without white space, `import( './Foo')` or
  `import('./Foo', x)` (`SourceImports.UnmatchedPlaces`). Such an import of a renamed
  file stays stale unless a matched import is written with the same quotes and text
  (`SourceImports.ImportsReachExactly`, with an input in
  `SourceImports.BareImportExample`).
- A match can also start where no import is, in a literal or other text that ends in
  "from" and white space, or in "import(", before a quote, and then swallow the next
  quote (`SourceImports.FoundAreImports`, with an input in
  `SourceImports.SwallowedImportExample`).
- An import of a renamed file by a path that ends in "", "." or ".." is rewritten to
  a path that does not lead to the file (`ImportRewrite.RewrittenReachesNewPath`, with
  an input in `ImportRewrite.RewriteMissesExample`).
- Only the last part of an import path is rewritten. So after a run an import leads to
  its file exactly if, besides, the folders that its path names keep their names
  (`RefactorImports.ImportsAfterRun`, with an input in
  `RefactorImports.FolderImportExample`). And the lookup goes by the path without its
  extension: an import of an ignored "Foo.ts" is rewritten, and goes stale, when a
  "Foo.css" beside it is renamed.
- A key that extends an earlier key of the list by dots raises a TypeError, unless the
  earlier key's value is a dictionary of the default file: then it is written into that
  dictionary, and so into the default file, or raises a TypeError at a value in the way
  there (`KeyPlaces.RaisesExactly`). A key that a later one stands above loses its text
  unless the default file has taken it up by then (`MissingKeys.FoundExactly`). So the
  order of the keys decides what is found
  (`MissingKeys.EveryKeyIsFound`, with inputs in `KeyPlaces.EmptyDefaultExample`,
  `KeyPlaces.FilledDefaultExample` and `KeyPlaces.TakenUpExample`).
- An ignored entry is a string prefix of relative paths: ignoring "ui" also keeps
  "uiKit" and all below it (`TreeRename.IgnoredFolderIsKept`).
- Placeholders in keys and in nested lists or objects are not taken back
  (`Extraction.OnlyTopStringsAreRestored`).
- An account or user space lies in the admin view exactly if its root is at or below
  the prefix, which a recorded ".." can undo (`SpaceRouting.AdminViewMissesOthers`).
- Two hyphen-free names have one kebab form exactly when they are equal or differ in
  the case of the first letter and are not a README (`Kebab.KebabCollisions`).

## Model

| member | source | states |
|---|---|---|
| `SpaceRouting.PermissionFollowsTable` | storage/service/file.go:655-687 | on a clean path the permission is the table's access of the space that the first component names, and not-allowed if it names none |
| `SpaceRouting.FirstTokenRoutes` | storage/service/file.go:407-415 | the first token shown to callers is the component that routes |
| `SpaceRouting.RedirectOfNamed` | storage/service/file.go:774-820 | for a space name followed by any ordinary components, the chain of prefix tests gives the table's route, error cases included |
| `SpaceRouting.RedirectRejectsUnnamed` | storage/service/file.go:774-820 | a path is called incorrect exactly when no space name is a string prefix of its first component; not being a name at all already forbids it |
| `SpaceRouting.PermittedPathsRedirect` | storage/service/file.go:655-820 | every permitted clean path redirects, against the same tables, to the root of the space its first component names, with the other components unchanged, both as a string and as a place in the tree |
| `SpaceRouting.WhereCallersGet` | storage/service/file.go:655-820 | name by name, with which access and to which place a clean path leads: a caller who is no administrator gets to the public prefix and the own user and account space only; an administrator anywhere below the three prefixes |
| `SpaceRouting.RefusedByName` | storage/service/file.go:774-820 | what Redirect refuses of what begins with a space name, and with which error |
| `SpaceRouting.RootIsNeverReached` | storage/service/file.go:811-820 | a path that cleans to "." is refused whatever its prefix, and as illegal if nothing else is wrong |
| `SpaceRouting.InjectiveExactlyWhenRootsApart` | storage/service/file.go:780-810 | Redirect is injective on permitted clean own paths if and only if the reachable roots are pairwise non-nested |
| `SpaceRouting.NestedRootsCollide` | storage/service/file.go:780-810 | from any two nested roots, two different permitted paths to one place |
| `SpaceRouting.AdminViewCommutes` | storage/service/file.go:780-810 | an administrator reaches the same place by the admin name and the own name of each own space that lies in the admin view, however it is recorded; by the same string if it is recorded plainly |
| `SpaceRouting.AdminViewMissesOthers` | storage/service/file.go:780-810 | an own space has a name in the admin view if and only if its root is at or below the prefix |
| `SpaceRouting.DescendingInAdminView` | storage/service/file.go:780-810 | spaces recorded without "..", plainly, with leading slashes, empty or as several components, lie in the admin view under their own components |
| `SpaceRouting.PermittedButRefused` | storage/service/file.go:655-820 | a permitted path is refused exactly when, not yet cleaned, it has no open space's name as a string prefix |
| `SpaceRouting.PermittedButRefusedExample` | storage/service/file.go:655-820 | "./user/x" is writable for its user and refused |
| `PathNames.CleanNameIsReduced` | storage/service/file.go:407-415 | what lexical cleanness of a relative name means for its components |
| `PathNames.ResolveOfClean` | storage/service/dataset.go:174-175 | cleaning a name does not change the place it leads to |
| `PathNames.HomeIsParent` | storage/service/dataset.go:174-175 | filepath.Dir of a destination names its parent exactly when the last part is an ordinary name or the directory is the root |
| `PathNames.JoinOrdinary` | storage/service/dataset.go:94 | filepath.Join with an ordinary name appends it to the place, and the result has that name as last part and base and the joined directory as its Dir |
| `PathNames.JoinOfDirAndBase` | storage/service/dataset.go:141-142 | joining a name's Dir and Base gives the cleaned name |
| `FileTree.RelocateConservesFiles` | storage/service/dataset.go:184 | renaming a subtree to a free place keeps, for every content, the number of files that hold it |
| `FileTree.RelocateBack` | storage/service/dataset.go:184 | renaming a subtree there and back is the identity on the tree |
| `DatasetService.StorageService.MoveFiles` | storage/service/dataset.go:157-185 | for any two strings, the two Stats, the Mkdir of filepath.Dir and the Rename leave exactly the closed form's tree, and succeed exactly when CanMove holds |
| `DatasetService.MoveConserves` | storage/service/dataset.go:157-185 | on every exit each content is held by as many files as before; on success exactly the source subtree is relocated and nothing is left at the source; on failure at most one empty directory is new |
| `DatasetService.OnlyNamesAreMovedTo` | storage/service/dataset.go:174-184 | a destination that does not end in a name is never moved to, and exactly when it is left behind as an empty directory |
| `DatasetService.FailedMoveLeaves` | storage/service/dataset.go:174-184 | for a destination that ends in a name, exactly which directory a failed move leaves behind |
| `DatasetService.TrailingSlashExample` | storage/service/dataset.go:174-184 | moving "a" to "b/" fails and leaves "b", moving it to "b" succeeds |
| `DatasetService.ManagedPlace` | storage/service/dataset.go:84-94 | the managed URL of a dataset whose URL ends in a name leads to prefix, ID and that name, and ends in that name |
| `DatasetService.MovedByKind` | storage/service/dataset.go:84-104 | a model moves to "crater-model", the ID and its own name, a dataset to "crater-dataset", the ID and its own name; exactly when it does, that all of it is there then, and that the table changes in its URL only |
| `DatasetService.RestoredPlace` | storage/service/dataset.go:137-149 | a restore leads to the destination itself, or inside it under the own name if it is a directory; exactly when it goes through, that all of the dataset is there then, and that the table changes in its URL only |
| `DatasetService.StorageService.MoveDatasetOrModel` | storage/service/dataset.go:61-106 | the new tree and table, and the answer in every case: bad ID, not an administrator, no such dataset, wrong type, move failed, update failed, success |
| `DatasetService.StorageService.RestoreDatasetOrModel` | storage/service/dataset.go:114-155 | the new tree and table for any destination string, an existing directory or not, and the answer in every case |
| `DatasetService.StorageService.MoveFile` | storage/service/dataset.go:22-59 | a permitted user move of clean paths always redirects; for any paths the new tree and the answer in every case, a refused destination included |
| `DatasetService.MovesNeedWriteAccess` | storage/service/dataset.go:37-43 | on clean paths a user move is let through exactly if both ends are in spaces that the caller may write |
| `DatasetService.MoveThenRestore` | storage/service/dataset.go:84-149 | a move followed by a restore into the original parent directory, under any name for it, gives back the whole tree up to one managed directory, and a URL for the original place |
| `DatasetService.MoveThenRestoreToDir` | storage/service/dataset.go:84-149 | for a clean URL restored to its own filepath.Dir, the whole table and tree are back, up to one managed directory |
| `DatasetService.SecondMoveRefused` | storage/service/dataset.go:84-99 | a second move after a successful one is refused and changes nothing |
| `DatasetService.ManagedUrlsApart` | storage/service/dataset.go:84-94 | managed places of different IDs or kinds are never equal or nested |
| `DatasetService.FormatUintInjective` | storage/service/dataset.go:93 | decimal printing of IDs is injective |
| `DatasetService.FormatUintIsDecimal` | storage/service/dataset.go:93 | the printed ID is its decimal notation, without leading zeros |
| `DatasetService.StorageService.MakeMissing` | storage/service/file.go:572-585 | the loop over a list of directories: Stat, Mkdir of what does not exist, stop at the first refusal |
| `DatasetService.StorageService.CheckSpace` | storage/service/file.go:567-627 | one pass over base, user and account directories, cut short by a refused Mkdir or a failed query |
| `DatasetService.EnsureDirsOnlyAdds` | storage/service/file.go:572-626 | a pass removes and changes nothing, adds only directories of its list and keeps the tree well-formed |
| `DatasetService.CheckSpaceProvisions` | storage/service/file.go:567-627 | for single-component names with no file in the way a pass makes every directory and nothing else, and a second pass is the identity |
| `DatasetService.CheckSpaceMakes` | storage/service/file.go:567-627 | one by one what such a pass makes: the three configured prefixes, "crater-dataset" and "crater-model", and, if both queries answered, the space of every user and of every account; and nothing else |
| `DatasetService.PassEndsAtFirst` | storage/service/file.go:572-626 | over any list a pass ends before the first directory that is missing and has no parent directory; all before are there or under a file, and nothing after is made |
| `DatasetService.PlainSpacesAreInPrefix` | storage/service/file.go:597-614 | empty, plain and slash-led space names are single-component names |
| `DatasetService.CheckedSpaceHasHome` | storage/service/dataset.go:174-182 | after a pass the single-level Mkdir of a dataset move never lacks its parent: the exact condition under which the move succeeds |
| `DatasetRuns.StepKeepsAgreement` | storage/service/dataset.go:61-185 | every move, restore, provisioning pass and user move keeps all URLs existing, non-nested and in their own slots, with contents unchanged |
| `DatasetRuns.DatasetsSurviveRuns` | storage/service/dataset.go:22-185 | over every run from an initial state each dataset's URL names an existing node whose subtree is the original one |
| `DatasetRuns.UpdateDecidesAgreement` | storage/service/dataset.go:100-104 | after a relocation that went through, the URL names a node if and only if the update succeeded |
| `DatasetRuns.FailedUpdateExample` | storage/service/dataset.go:95-104 | one move with a failing update, after which the dataset is lost |
| `DatasetRuns.RestoreIntoOwnTree` | storage/service/dataset.go:137-149 | a restore keeps the dataset's content if and only if it makes no directory inside it |
| `DatasetRuns.RestoreIntoOwnTreeExample` | storage/service/dataset.go:174-182 | one restore that leaves a directory inside the dataset |
| `TemplateCodec.HideIsMarked` | frontend/hack/i18n.py:191 | the two chained replacements are one left-to-right pass |
| `TemplateCodec.RestoreUndoesHide` | frontend/hack/i18n.py:186-204 | the four replacements together give a string back if and only if no placeholder can be found in its hidden form but where one was put, overlaps included |
| `TemplateCodec.WordFreeSurvives` | frontend/hack/i18n.py:186-204 | every string without the placeholders' word is given back |
| `TemplateCodec.HiddenHasNoPair` | frontend/hack/i18n.py:191 | hidden text holds no doubled brace |
| `JsonText.Loads` | frontend/hack/i18n.py:194 | what parses as JSON leaves the string lexer outside a string and is read to its end |
| `JsonText.Parity` | frontend/hack/i18n.py:120-132 | no text ends outside a string both when read from inside one and from outside |
| `JsonText.LoadsOfPrinted` | frontend/hack/i18n.py:194 | parsing is a left inverse of printing a flat object one pair a line |
| `JsonDocs.LoadsOfDoc` | frontend/hack/i18n.py:193 | the parser reads back every JSON document as json.dumps writes it: nested lists and objects, words, and numbers in every form, but for too long integers |
| `Extraction.ParseJsonWithTemplates` | frontend/hack/i18n.py:186-204 | the loop over the items restores every string value and keeps every key and every other value |
| `Extraction.OnlyTopStringsAreRestored` | frontend/hack/i18n.py:189-204 | placeholders are taken back in strings right under the object; keys and nested values are kept as read |
| `Extraction.FirstBlock` | frontend/hack/i18n.py:161-178 | finds the first outermost block of braces, or there is none |
| `Extraction.FindOutermostBlock` | frontend/hack/i18n.py:161-178 | the loop with its stack and start index finds that block |
| `Extraction.FirstBlockUnique` | frontend/hack/i18n.py:161-178 | a text has at most one first outermost block |
| `Extraction.ExtractCodeAndJson` | frontend/hack/i18n.py:120-184 | the four attempts in order, each given up only on a parse error |
| `Extraction.ExtractExactly` | frontend/hack/i18n.py:120-184 | on any text: code and entries are those of the first attempt that does not fail, the code being what stands before its object; and nothing is extracted exactly if all four fail |
| `Extraction.ExtractedAtBrace` | frontend/hack/i18n.py:120-184 | the code is what stands before a brace, and the entries were read from text that starts at that brace and ends with the text or with the first outermost block |
| `TrailingText.ExtractWithTrailing` | frontend/hack/i18n.py:160-184 | an answer that goes on after its object is split at the object, if code, strings and what follows hold no braces |
| `Extraction.HideOfPrinted` | frontend/hack/i18n.py:191 | hiding templates commutes with printing |
| `Extraction.NothingReadInsideString` | frontend/hack/i18n.py:123-132 | an attempt that starts inside a string never reads anything: it fails to parse, or an over-long integer raises |
| `Extraction.SearchStarts` | frontend/hack/i18n.py:123-140 | the last brace of an answer is in the object; the last brace with a line break after it is the object's first |
| `Extraction.ExtractPrinted` | frontend/hack/i18n.py:120-159 | whatever braces code and strings hold, code, printed object and white space are taken apart at the object, unless the attempt at the last brace raises |
| `Extraction.NoLongRunNoRaise` | frontend/hack/i18n.py:123-132 | without more than 4300 consecutive digits that attempt does not raise |
| `Extraction.LastBraceRaisesExample` | frontend/hack/i18n.py:123-132 | one printed string map at whose last brace it does |
| `Extraction.ExtractInvertsPrinting` | frontend/hack/i18n.py:120-204 | extraction gives exactly the stripped code and the printed entries if and only if no key holds a doubled brace, hiding and restoring gives back every value, and the attempt at the last brace does not raise |
| `Extraction.WordFreeValuesSurvive` | frontend/hack/i18n.py:186-204 | values without the placeholders' word are given back |
| `Extraction.CrashExactly` | frontend/hack/i18n.py:120-204 | on any text an error gets out of the search if and only if an attempt has json.loads read an integer of more than 4300 digits and every attempt before it has found no place or no JSON |
| `Extraction.CrashNeedsLongInteger` | frontend/hack/i18n.py:120-204 | on a text without more than 4300 consecutive digits the result is an extraction or nothing: no attempt raises, or parses a value without items |
| `Extraction.LongIntegerCrashes` | frontend/hack/i18n.py:120-204 | an object with one integer gets an error out of the search if and only if the integer has more than 4300 digits |
| `Kebab.KebabIsSpread` | frontend/hack/refactor_filenames.py:7-19 | what the name function computes, branch by branch, as one letter-wise map |
| `Kebab.KebabIdempotent` | frontend/hack/refactor_filenames.py:7-19 | kebab-casing twice is kebab-casing once |
| `Kebab.ReadmeStays` | frontend/hack/refactor_filenames.py:7-19 | a name spelled "readme" in any case stays |
| `Kebab.KebabOfWord` | frontend/hack/refactor_filenames.py:7-19 | a name without upper-case letters after its first is put in lower case |
| `Kebab.KebabDivides` | frontend/hack/refactor_filenames.py:7-19 | before any other upper-case letter the name is divided by a hyphen |
| `Kebab.KebabCollisions` | frontend/hack/refactor_filenames.py:7-19 | exactly which hyphen-free names have the same image |
| `Kebab.KebabFileIsLower` | frontend/hack/refactor_filenames.py:41-46 | a changed file name with a lower-case extension has no upper-case letter left |
| `Kebab.KebabFileByParts` | frontend/hack/refactor_filenames.py:41-43 | a file name is divided at its last dot; the stem is renamed, the extension stays |
| `Kebab.KebabFileWhole` | frontend/hack/refactor_filenames.py:41-43 | unless there are only dots before: then all of it is renamed |
| `KebabStems.BaseOfKebabFile` | frontend/hack/refactor_filenames.py:41-43 | splitting the extension off a file's new name gives the new stem |
| `KebabStems.BaseOfKebab` | frontend/hack/refactor_filenames.py:52-55 | splitting what looks like an extension off a folder's new name gives the new stem too |
| `TreeRename.FindRenameTargets` | frontend/hack/refactor_filenames.py:21-60 | the walk lists exactly the wanted paths, each once with its target, none before anything below it |
| `TreeRename.PlanChildren` | frontend/hack/refactor_filenames.py:33-58 | the loop over the files, and the one over the directories, of one directory extend the plan |
| `TreeRename.PlannedUnlessIgnored` | frontend/hack/refactor_filenames.py:21-60 | a node is in the plan, with its kebab name in the same directory, if and only if its name has an upper-case letter and would change, and no cleaned entry is a string prefix of its relative path |
| `TreeRename.IgnoredFolderIsKept` | frontend/hack/refactor_filenames.py:30-51 | for an entry that cleans to a folder nothing at or below it is renamed, nor anything whose path begins with the same letters |
| `TreeRename.PerformRenames` | frontend/hack/refactor_filenames.py:206-214 | the loop of renames, ended by the first error |
| `TreeRename.RunEndsAtFirst` | frontend/hack/refactor_filenames.py:206-214 | a failing loop has done all renames before the refused one and none after |
| `TreeRename.RenameStep` | frontend/hack/refactor_filenames.py:209-210 | the next rename is never refused and keeps the tree an image of the original |
| `TreeRename.RenamesReachKebab` | frontend/hack/refactor_filenames.py:206-214 | in list order no rename is refused, and the final tree is the original with every wanted name at every level in its kebab form |
| `TreeRename.ImageUnique` | frontend/hack/refactor_filenames.py:206-214 | there is only one such tree |
| `ImportRewrite.RewrittenReachesNewPath` | frontend/hack/refactor_filenames.py:108-128 | a rewritten import resolves to the renamed file's new path if and only if its last part is an ordinary name |
| `ImportRewrite.RewritePathIdempotent` | frontend/hack/refactor_filenames.py:108-128 | a rewritten path is not rewritten again |
| `ImportRewrite.RewriteMissesExample` | frontend/hack/refactor_filenames.py:108-128 | "./Foo/" names the renamed file Foo and is rewritten to "./Foo/foo", which does not |
| `ImportRewrite.LookupOfPlan` | frontend/hack/refactor_filenames.py:68-71 | the lookup of any plan, of files and folders, takes each old path without extension to its new one, entries that clash included |
| `ImportRewrite.LookupOfFile` | frontend/hack/refactor_filenames.py:68-71 | a renamed file leads in the lookup from its name without extension to the kebab form of that |
| `ImportRewrite.UsualPathsLead` | frontend/hack/refactor_filenames.py:108-117 | where "@/", "./" and "../" with ordinary names lead, and that other names lead nowhere |
| `ImportScan.FindImports` | frontend/hack/refactor_filenames.py:79-99 | the scan of the text yields the matches leftmost first and not overlapping |
| `ImportScan.SpelledOutMatches` | frontend/hack/refactor_filenames.py:79 | what the expression matches, spelled out from the text to the match |
| `ImportScan.MatchesAreSpelledOut` | frontend/hack/refactor_filenames.py:79 | and from the match to the text |
| `ImportScan.MatchOfRun` | frontend/hack/refactor_filenames.py:79 | what the expression matches where a run without quotes begins, both alternatives |
| `ImportScan.FindOverRun` | frontend/hack/refactor_filenames.py:79-99 | on any text, a run introduces the literal after it exactly when it ends in "from" and white space, or in "import(" with a bracket after the literal; otherwise it is passed over |
| `SourceImports.UpdateFileImports` | frontend/hack/refactor_filenames.py:99-138 | for any text, the loop over the matches of the original text, each replaced in the text as it then is, yields the rewritten text |
| `SourceImports.FoundAreImports` | frontend/hack/refactor_filenames.py:79-99 | the expression finds exactly the literals in its places, at their offsets, if and only if no match starts anywhere else in the file |
| `SourceImports.UnmatchedPlaces` | frontend/hack/refactor_filenames.py:79 | the places of imports of the language that are not its places |
| `SourceImports.ImportWordsIntroduce` | frontend/hack/refactor_filenames.py:79 | the words of the language after which a path stands, with any white space |
| `SourceImports.BareImportExample` | frontend/hack/refactor_filenames.py:79-99 | one file whose bare import of a renamed file stays as it was |
| `SourceImports.SwallowedImportExample` | frontend/hack/refactor_filenames.py:79-99 | one file in which an import is missed and stays as it was |
| `SourceImports.ReplaceRendered` | frontend/hack/refactor_filenames.py:130-138 | replacing a quoted path in the text replaces whole literals and nothing else |
| `SourceImports.RewriteTextOfFile` | frontend/hack/refactor_filenames.py:99-138 | where no match strays and no text between the literals reads like an import, the rewritten text is the file with every literal written like a matched import rewritten |
| `SourceImports.ImportsFollowRenames` | frontend/hack/refactor_filenames.py:101-138 | in such a file an import, in the language's sense, gets its rewritten path if and only if it is written like a matched import or the path stays the same; all other text is unchanged |
| `SourceImports.ImportsReachExactly` | frontend/hack/refactor_filenames.py:101-138 | an import that named a renamed file names its new path if and only if it is written like a matched import and its last part is an ordinary name |
| `SourceImports.RewriteTextIdempotent` | frontend/hack/refactor_filenames.py:99-138 | a second rewrite, which scans the rewritten text again, is the identity |
| `RefactorRun.UpdateImports` | frontend/hack/refactor_filenames.py:73-145 | the loop over the source files rewrites the text of each and nothing else |
| `RefactorRun.SourcesAreRewritten` | frontend/hack/refactor_filenames.py:81-143 | a file has its text rewritten exactly if its name is some stem with ".tsx" or ".ts"; everything else stays |
| `RefactorRun.RunRewritesSources` | frontend/hack/refactor_filenames.py:81-214 | the same of a whole run, at the places where the nodes end up |
| `RefactorRun.Refactor` | frontend/hack/refactor_filenames.py:190-214 | a run is the plan of the walk, the rewriting of all source files by its lookup, and the renames in its order |
| `RefactorRun.ShapeKeepsPlan` | frontend/hack/refactor_filenames.py:190-214 | rewriting files between plan and renames keeps the plan |
| `RefactorRun.RunReachesKebab` | frontend/hack/refactor_filenames.py:190-214 | over a whole run no rename is refused, and every node is at its final place with its imports rewritten and otherwise as it was |
| `RefactorRun.NothingLeftToRename` | frontend/hack/refactor_filenames.py:21-60 | after a run the walk wants no node that was not ignored |
| `RefactorRun.IgnoredNamesStay` | frontend/hack/refactor_filenames.py:30-51 | after a run every node at or below an ignored folder still has its name |
| `RefactorRun.SecondRunChangesNothing` | frontend/hack/refactor_filenames.py:190-214 | a second run without ignored paths plans nothing and leaves names and texts as they are |
| `RefactorImports.FolderAfterRun` | frontend/hack/refactor_filenames.py:108-117 | from the importer's final place a path's folder is the final place of the folder it named if and only if the folders that it names keep their names |
| `RefactorImports.ImportsAfterRun` | frontend/hack/refactor_filenames.py:99-214 | after a run in which files and folders get new names, an import of a file leads from where the importer now is to where the file now is if and only if it the folders that it names keep their names and its path needs no rewriting, or is written like a matched import just if the file was renamed (a file that was not may share its stem with one that was) |
| `RefactorImports.FilesStayInPlace` | frontend/hack/refactor_filenames.py:206-214 | when only files get new names every node stays in its directory |
| `RefactorImports.OnlyFilesKeepFolders` | frontend/hack/refactor_filenames.py:206-214 | and so the folders that any import names keep their names |
| `RefactorImports.FolderImportExample` | frontend/hack/refactor_filenames.py:99-214 | one run that renames a folder and leaves an import stale |
| `Translations.GetNestedValue` | frontend/hack/align_translation.py:87-101 | the loop with its moving reference: the whole key first, then the walk along its names |
| `Translations.WholeKeyFirst` | frontend/hack/align_translation.py:87-101 | a key of the top level has its own value, dots or not, whatever its names lead to; in a flat file other keys have none |
| `Translations.GetAllKeysFromDict` | frontend/hack/align_translation.py:103-119 | the recursive loop collects the enumerated keys |
| `Translations.AllKeysAreWalks` | frontend/hack/align_translation.py:103-119 | the enumerated keys are exactly those that lead somewhere in the tree, null values included |
| `Translations.AllKeysAreJoins` | frontend/hack/align_translation.py:103-119 | flat files and nested ones: the enumerated keys are exactly the names that lead somewhere, joined by dots, whether or not the names hold dots |
| `Translations.AllKeysAreFound` | frontend/hack/align_translation.py:87-119 | without null values the enumerated keys are exactly those that lookup finds |
| `Translations.FlattenJson` | frontend/hack/format_translation.py:5-13 | the recursive loop over `out` yields the flattened dictionary |
| `Translations.FlattenKeepsLeaves` | frontend/hack/format_translation.py:5-13 | lookup in the flat dictionary is nested lookup in the tree where that is a leaf, and nothing otherwise |
| `Translations.FlattenIdempotent` | frontend/hack/format_translation.py:5-13 | flattening a flat dictionary, in any order of its items, changes nothing |
| `KeyPlaces.InsertAt` | frontend/hack/align_translation.py:145-165 | what one key changes at every place of result and default file: the value or the dictionary at its place, what was below it, and the dictionaries made on the way |
| `KeyPlaces.RunIsGood` | frontend/hack/align_translation.py:141-167 | after any keys result and default file are trees that hold the same at and below the dictionaries they share; the default file has all it had but for nulls, and gains only dictionaries on the way to keys that extend earlier ones, and the texts of these |
| `KeyPlaces.NewAreExactly` | frontend/hack/align_translation.py:141-167 | exactly what the default file gains, and where that is a text |
| `KeyPlaces.RaisesExactly` | frontend/hack/align_translation.py:156-165 | the loop raises a TypeError if and only if it comes to a key that extends an earlier one whose value is no dictionary of the default file, or for which a value stands between the two, the default file's or the text of the key that first went there |
| `KeyPlaces.TwoKeysRaise` | frontend/hack/align_translation.py:156-165 | for two keys: exactly if the second extends the first, and the value of the first is no dictionary or a value stands between |
| `KeyPlaces.DefaultKeysAreRight` | frontend/hack/align_translation.py:148-165 | a key that the default file has keeps its value in the result whenever the loop goes through |
| `KeyPlaces.RightExactly` | frontend/hack/align_translation.py:141-167 | in the end the result holds a key's default value or its text if and only if the default file has the key, or no key of the list stands above it, or it is the first to go to its place below an earlier one |
| `KeyPlaces.RightExactlyWhenCompatible` | frontend/hack/align_translation.py:141-167 | the loop goes through with every key right if and only if, where a key extends another, the other's value is a dictionary of the default file, and this has the extending key or takes it up |
| `KeyPlaces.PrefixFreeKeysAreCompatible` | frontend/hack/align_translation.py:141-167 | keys that do not extend one another meet that condition with any default file |
| `KeyPlaces.EmptyDefaultExample` | frontend/hack/align_translation.py:141-167 | with an empty default file "a.b" then "a" loses the first key, and "a" then "a.b" raises a TypeError |
| `KeyPlaces.FilledDefaultExample` | frontend/hack/align_translation.py:141-167 | where the default file has "b" in a dictionary "a", "a" and "a.b" are both found in either order, and "a" then "a.b.c" raises a TypeError |
| `KeyPlaces.TakenUpExample` | frontend/hack/align_translation.py:141-167 | where it has an empty dictionary "a", "a.b" is found after "a" and lost before it |
| `MissingKeys.GetNestedValue` | frontend/hack/align_translation.py:87-101 | the loop with its moving reference, on the heap |
| `MissingKeys.LookupFinds` | frontend/hack/align_translation.py:87-101 | lookup gives exactly what is at the key's place, a dictionary itself and None where nothing is |
| `MissingKeys.Descend` | frontend/hack/align_translation.py:159-162 | one step of the moving reference makes or enters a dictionary, in the default file too where the two are one, and changes no other entry |
| `MissingKeys.SetValue` | frontend/hack/align_translation.py:164-165 | the last assignment puts one value, or a dictionary of the default file with all below it, at its place, replaces what was at or below it, and changes nothing else in either |
| `MissingKeys.WalkTo` | frontend/hack/align_translation.py:156-162 | the walk, inside dictionaries of the default file as well, ends at the dictionary of the last name, having made only fresh dictionaries on the way, or raises a TypeError exactly when a value that is no dictionary stands on the way |
| `MissingKeys.InsertKey` | frontend/hack/align_translation.py:145-165 | one key, flat or nested, takes result and default file on the heap exactly to the next state, or raises exactly when a value stands on its way |
| `MissingKeys.CreateNestedDictFromKeys` | frontend/hack/align_translation.py:141-167 | for any keys and any default file: the loop raises a TypeError exactly when the run does, and otherwise the heap holds result and default file of the run, with exactly the shared dictionaries in common |
| `MissingKeys.FoundExactly` | frontend/hack/align_translation.py:87-167 | lookup of a key in the result gives its default value, a dictionary itself, or its text if and only if the default file has the key, or no key stands above it, or it is the first to go to its place below an earlier one |
| `MissingKeys.EveryKeyIsFound` | frontend/hack/align_translation.py:87-167 | the loop goes through and every key, looked up in the result, gives its default value or its TODO text, if and only if, where a key extends another, the other's value is a dictionary of the default file, and this has the extending key or takes it up: no value stands in the way, and the key comes after one that it extends |
| `HslColor.GammaInRange` | frontend/hack/convert_index_css.py:45-48 | the 1/2.4-th power of a number on the curve is in [1/16, 1] |
| `HslColor.SrgbIsUnit` | frontend/hack/convert_index_css.py:40-53 | the clamping conversion sends every real triple into [0, 1], where the round trips hold |
| `HslColor.SrgbIsEncoded` | frontend/hack/convert_index_css.py:40-53 | each channel is converted by itself: clamped, on the straight part divided back by 12.92, on the curve undone by the power |
| `HslColor.EncodedUnique` | frontend/hack/convert_index_css.py:40-48 | there is only one such value |
| `HslColor.SharesOfUnit` | frontend/hack/convert_index_css.py:58-73 | the hue in terms of each channel's share of the range, branch by branch |
| `HslColor.WaveGivesShares` | frontend/hack/convert_index_css.py:66-73 | at the computed hue, and a third of a turn around it, the CSS algorithm gives back each channel's share; the hue is in [0, 1) |
| `HslColor.HalfRange` | frontend/hack/convert_index_css.py:58-64 | saturation is in [0, 1] and undoes the division by the room around the lightness |
| `HslColor.GreysAreColourless` | frontend/hack/convert_index_css.py:55-73 | exactly the greys have saturation zero, and their hue is zero |
| `HslColor.RoundTripExact` | frontend/hack/convert_index_css.py:50-76 | converting the unrounded result back gives exactly the sRGB triple |
| `HslColor.RoundTripRounded` | frontend/hack/convert_index_css.py:50-76 | converting the result rounded to one decimal back gives every channel to within 0.0021, less than 1/255 |

## Left out

- HTTP, CORS, JWT and WebDAV plumbing. A token is a record, table lookups are maps; of request binding only the refusal of ID 0 is modelled.
- Whether a database update goes through is a parameter (`updateOk`), and so are the query results of `checkSpace`.
- `moveFiles` with `overwrite=true`, which no caller uses.
- Changes to the tree other than moves and provisioning, such as uploads and deletes by users.
- `GetBasicFiles`, `GetRWFiles`, `GetDatasetPermission` and the listing handlers.
- `checkSpace` repeats one loop body three times; the model has it once, in `MakeMissing`.
- DatasetsSurviveRuns: dataset URLs end in a name at the start, no dataset URL or restore destination is at or above a space prefix, no space prefix lies in a dataset's managed place, each space is directly in its prefix, updates succeed, user moves keep clear of dataset trees, and restores keep clear of other datasets' trees and make no directory in the dataset's own.
- MovedByKind, RestoredPlace, MoveThenRestore, SecondMoveRefused, ManagedUrlsApart, CheckedSpaceHasHome: for URLs whose base is an ordinary name, which every successful move and restore leaves.
- InjectiveExactlyWhenRootsApart: about lexically clean paths only.
- JSON numbers are kept as text, and lone surrogate escapes read as one replacement character.
- CrashExactly, CrashNeedsLongInteger: very deep nesting, at which Python raises a RecursionError, is not modelled; nor is a limit other than the default of 4300 digits.
- Model calls, retries, formatting and the marker answer in `i18n.py`.
- KebabCollisions, KebabDivides: ASCII letters only; Python's case rules for other letters are not modelled.
- RenamesReachKebab: siblings must have distinct final names and extensions must be in lower case; case-insensitive file systems and symbolic links are not modelled.
- RewriteTextOfFile, ImportsFollowRenames, ImportsReachExactly, RewriteTextIdempotent: for files in which no match strays and no text between two quotes, other than the literals in question, names a renamed file; comments between "import" and its path are not recognised as part of an import.
- ImportsAfterRun: for importers as in the line above, paths whose last part is an ordinary name, and renamed names without quotes.
- Files whose bytes are not UTF-8, and the dry run.
- RunReachesKebab: Python's text mode, which turns CRLF into LF in every file that is written.
- ResolveImport: `os.path.abspath` keeps exactly two leading slashes, so that an import "@///x" is not looked up as "/x"; here they are one root.
- CreateNestedDictFromKeys: the default file is a tree in which no dictionary occurs twice, as `json.load` gives it; after a TypeError nothing is said of what was written until then.
- AllKeysAreWalks, AllKeysAreJoins: names are not empty; below an empty name the script takes the names for top-level ones.
- Sorting of dictionaries and file reading and writing in the translation scripts.
- RoundTripRounded: over real numbers, with rounding as an error of at most 0.05; floating point and the OKLCH matrices are left out, `math.pow` is any function with the power it stands for, and the proofs start from any sRGB values in [0, 1].
