# Ultimate image manager — a verified model of its store logic

This project models the core of the "ultimate image manager" chat plugin in Dafny:

- the name and category sanitisers;
- the default-name generator, the size-unit choice and the error translator;
- the image manager's store bookkeeping: validating and saving an image, the recursive listing and the per-directory listing, the 1-based view, delete and rename, the size limit setting, and the paging of the list reply.

The image directory is a tree of named entries (`FileTree`): a file holds bytes, a directory holds entries in enumeration order. Paths are sequences of segments relative to the image directory. `existsSync`, `mkdirSync({recursive})`, `writeFileSync`, `unlinkSync`, `renameSync`, `readdirSync` and `statSync` become functions on that tree. `Date.now()` becomes a `now: nat` parameter.

Modules, in dependency order:

- `Wrappers`: `Option` and `Result`.
- `JsString`: the JavaScript string operations the plugin relies on (whitespace as `\s` sees it, `trim`, `substring`, `slice(-n)`, `startsWith`, `split(...)[1]`, ASCII lower-casing, `toString(radix)`).
- `Utils`: `sanitizeName`, `sanitizeCategory`, the unit choice of `formatSize`, `generateDefaultName` and `errorTranslator`.
- `ImageFormat`: the magic-byte sniffing and the order of the three refusals of `validateAndSaveImage`.
- `ImageNames`:
  - `path.extname` and `isValidImage`;
  - the stem that the collision loop strips;
  - the candidate names `base`, `base_1`, `base_2`, …;
  - the collision loop itself, as the method `FreeName`.
- `FileTree`: the directory tree, lookups, single-entry edits and `mkdir -p`.
- `ImageListing`:
  - `getAllImagesRecursive` / `scan` and `getAllImagesInDir`;
  - the 1-based index pick;
  - the delete and rename effects on the tree;
  - the 20-line paging of `listImages`.
- `ImageStore`:
  - the configuration object;
  - the `ImageManager` class, whose methods mutate `images` (the tree) and the configuration in place;
  - the save pipeline lemmas;
  - the size-limit conversion.

## Model

| member | source | states |
|---|---|---|
| Utils.RemoveHazards | lib/utils.js:7 | the result has none of `< > : " / \ \| ? *`; it is empty exactly when every input character was one of them; a hazard-free input is returned unchanged |
| Utils.CollapseSpaces | lib/utils.js:8 | the result has no whitespace, is empty exactly when the input is, and keeps a whitespace-free input unchanged |
| Utils.CollapseRun | lib/utils.js:8 | one maximal whitespace run between space-free text and a non-space character becomes exactly one `_` |
| Utils.CleanName | lib/utils.js:7-10 | the cleaned name (before the fallback) has at most 50 units, no hazard and no whitespace |
| Utils.FallbackName | lib/utils.js:10 | the `未命名_` + last-4-base-36-digits fallback is itself a safe name |
| Utils.SanitizeName | lib/utils.js:4-12 | the result is never empty, has at most 50 units, and contains no hazard character and no whitespace |
| Utils.FallbackExactlyWhenAllHazards | lib/utils.js:7-10 | the fallback is used exactly when every input character is a hazard character (whitespace alone still yields `_`) |
| Utils.SanitizeNameCutsAtFifty | lib/utils.js:9 | when cleaning leaves 50 or more units, the result has exactly 50 |
| Utils.SanitizeNameFixedPoints | lib/utils.js:4-12 | a name is left unchanged exactly when it is already safe (non-empty, ≤ 50, no hazard, no whitespace) |
| Utils.SanitizeNameIdempotent | lib/utils.js:4-12 | sanitising twice gives the same as once, whatever timestamp the second call sees |
| Utils.SanitizeNameOfSpaces | lib/utils.js:8-10 | an all-whitespace name becomes `_`, not the fallback |
| Utils.SanitizeNameOfEmpty | lib/utils.js:10 | the empty name gets the timestamp fallback |
| Utils.CleanCategory | lib/utils.js:16-18 | the cleaned category has at most 30 characters, all from `[A-Za-z0-9]`, U+4E00–U+9FA5, `_`, `-` |
| Utils.SanitizeCategory | lib/utils.js:14-19 | the result is a non-empty category of at most 30 allowed characters, with no `.` and no `/` |
| Utils.SafeCategoryHasNoSeparators | lib/utils.js:16 | an allowed category contains neither `.` nor `/` |
| Utils.SanitizeCategoryFixedPoints | lib/utils.js:14-19 | a category is left unchanged exactly when it is already non-empty, ≤ 30 and made of allowed characters |
| Utils.SanitizeCategoryIdempotent | lib/utils.js:14-19 | sanitising a category twice gives the same as once |
| Utils.SanitizeCategoryDefault | lib/utils.js:18 | an input with no allowed character yields `default` |
| Utils.SanitizeCategoryStripsTraversal | lib/utils.js:16 | `../../etc` becomes `etc` |
| Utils.FormatSizeUnit | lib/utils.js:21-24 | the MB suffix is chosen exactly when bytes ≥ 1048576, and KB otherwise |
| Utils.GenerateDefaultName | lib/utils.js:26-28 | the default name is `图片_` followed by at least one base-36 digit |
| Utils.DefaultNameInjective | lib/utils.js:26-28 | different timestamps give different default names |
| Utils.ErrorTable | lib/utils.js:43-55 | a table hit is non-empty text that cannot be mistaken for the unknown-error or HTTP-fallback text |
| Utils.ErrorTranslator | lib/utils.js:42-65 | every error translates to non-empty text |
| Utils.UnknownExactlyWhenUnrecognised | lib/utils.js:57-64 | the `未知错误：` text comes out exactly when no rule (message prefix, exact message, code, or message key) recognises the error |
| Utils.MessageRulesIgnoreCode | lib/utils.js:57-62 | when the message starts with `invalid_type` or `HTTP_`, or is `FILE_SIZE_EXCEEDED` or `TIMEOUT`, the error code has no influence |
| Utils.CodeBeforeMessage | lib/utils.js:63 | otherwise a non-empty code with a table entry wins over the message |
| Utils.HttpMessageRule | lib/utils.js:62 | an `HTTP_` message gets its table text, or else `HTTP错误: ` plus its second `_`-field |
| Utils.HttpStatusWithoutEntry | lib/utils.js:62 | `HTTP_n` for a status other than 404, 403 and 500 gives `HTTP错误: n`, whatever the code |
| Utils.ErrorTranslatorStatusBeforeCode | lib/utils.js:62-63 | `HTTP_404` with code `ENOENT` gives the 404 text, not the ENOENT text |
| Utils.InvalidTypeNamesExtension | lib/utils.js:57-58 | `invalid_type:x` names `x` in the unsupported-format text |
| Utils.ErrorTranslatorUnknown | lib/utils.js:64 | an unrecognised message is echoed after `未知错误：` |
| JsString.RadixRoundTrip | lib/utils.js:27 | reading back the `toString(radix)` digits gives the number again |
| JsString.RadixInjective | lib/utils.js:27 | different numbers have different digit strings |
| JsString.Filter | lib/utils.js:16 | the kept characters all pass the test, at most as many as the input, and nothing is kept exactly when nothing passes |
| JsString.FilterAppend | lib/utils.js:16 | filtering distributes over concatenation |
| JsString.SecondField | lib/utils.js:62 | `split(sep)[1]`: absent exactly when there is no separator; otherwise the text after the first separator up to the next one |
| ImageFormat.Sniff | lib/ImageManager.js:80-87 | the first-match byte test as written; no contract of its own, characterised by SniffIsSignature and ShortBuffersUnrecognised |
| ImageFormat.SniffIsSignature | lib/ImageManager.js:80-87 | the first-match byte test picks format f exactly when the buffer carries f's signature (RIFF…WEBP for WebP) |
| ImageFormat.SignaturesDisjoint | lib/ImageManager.js:81-84 | no buffer carries two signatures, so the priority order never decides between two |
| ImageFormat.ShortBuffersUnrecognised | lib/ImageManager.js:81-84 | buffers too short for any signature, and RIFF buffers shorter than 12 bytes, are unrecognised |
| ImageFormat.CheckBuffer | lib/ImageManager.js:71-87 | the three refusals in source order; no contract of its own, characterised by CheckBufferCases |
| ImageFormat.CheckBufferCases | lib/ImageManager.js:71-87 | empty, then over the limit (a length equal to the limit passes), then unknown format, each exactly under its condition; an accepted buffer carries its format's signature |
| ImageFormat.SampleHasSignature | lib/ImageManager.js:81-84 | every format is reachable: a buffer built from its signature is sniffed as that format |
| ImageFormat.Ext | lib/ImageManager.js:81-84 | each detected extension is a dot followed by at least three lower-case letters |
| ImageNames.ExtName | lib/ImageManager.js:318 | `path.extname` is empty or a proper suffix that starts with its only dot |
| ImageNames.IsValidImage | lib/ImageManager.js:424-427 | `isValidImage`: the lower-cased, dot-less extension is among the allowed types; no contract of its own, characterised by ExtTagIs and IsValidImageIgnoresCase |
| ImageNames.ExtTagIs | lib/ImageManager.js:424-427 | the type tag is the extension lower-cased without its dot, empty when there is none |
| ImageNames.ExtTagOf | lib/ImageManager.js:425 | a name ending in a single-dot extension has that extension, lower-cased, as its tag |
| ImageNames.IsValidImageIgnoresCase | lib/ImageManager.js:424-427 | two names that differ only in the case of their extension are both valid images or both not |
| ImageNames.StripExtOf | lib/ImageManager.js:106 | stripping the extension from `stem + ext` gives `stem` back, so suffixes never accumulate |
| ImageNames.StripExt | lib/ImageManager.js:106 | the stripped name is the name itself or a prefix of it that stops at a dot |
| ImageNames.BaseName | lib/ImageManager.js:95-100 | the base name (sanitised custom name, or the default name for a falsy one) is non-empty and hazard-free |
| ImageNames.Candidate | lib/ImageManager.js:104-107 | the k-th name the loop tries; no contract of its own, characterised by CandidateInjective, CandidateIsValidName and CandidateIsImageName |
| ImageNames.Stem | lib/ImageManager.js:104-107 | each candidate stem starts with the base name |
| ImageNames.CandidateInjective | lib/ImageManager.js:104-107 | different counters give different candidate names |
| ImageNames.CandidateIsValidName | lib/ImageManager.js:104-107 | every candidate is one valid path segment |
| ImageNames.CandidateIsImageName | lib/ImageManager.js:104-107 | every candidate ends in the detected extension, and is listed exactly when that type is allowed |
| ImageNames.TriedSize | lib/ImageManager.js:103-109 | the first c candidates are c distinct names |
| ImageNames.CandidatesBound | lib/ImageManager.js:105 | if the first c candidates are all taken within a finite set of names, c is at most its size, so the loop terminates |
| ImageNames.FreeName | lib/ImageManager.js:102-109 | the collision loop returns candidate k that is free while candidates 0 … k-1 are all taken |
| FileTree.ExistsInNames | lib/ImageManager.js:105 | anything that exists in a directory is among that directory's finitely many names |
| FileTree.Find | lib/ImageManager.js:105 | the lookup finds the first entry with the name, or reports that there is none |
| FileTree.PutAtKind | lib/ImageManager.js:112 | writing or removing one entry changes what lies at that path and below it, and nothing else |
| FileTree.PutAtWellFormed | lib/ImageManager.js:112 | single-entry edits keep names distinct and valid |
| FileTree.NewDirsKind | lib/ImageManager.js:91 | a freshly made directory chain holds exactly the prefixes of the path |
| FileTree.MakeDirs | lib/ImageManager.js:91 | `mkdirSync(dir, {recursive: true})`; no contract of its own, characterised by MakeDirsKind and MakeDirsWellFormed |
| FileTree.MakeDirsKind | lib/ImageManager.js:90-92 | recursive mkdir fails exactly when a file lies on the path; otherwise it adds the path's prefixes as directories and changes nothing else |
| FileTree.MakeDirsWellFormed | lib/ImageManager.js:90-92 | recursive mkdir keeps the tree well formed |
| ImageListing.Category | lib/ImageManager.js:416 | `rel \|\| 'default'`; no contract of its own, characterised by ListingCategory |
| ImageListing.ListDir | lib/ImageManager.js:408-419 | the depth-first walk over one directory's entries; no contract of its own, characterised by ListDirSound and ListDirComplete |
| ImageListing.Listing | lib/ImageManager.js:406-422 | the walk from the image directory; no contract of its own, characterised by ListedIff and ListingCategory |
| ImageListing.Scan | lib/ImageManager.js:408-419 | `scan` appends to `results` exactly the listing of the directory it walks |
| ImageListing.ListDirSound | lib/ImageManager.js:406-422 | every listed image is a file of the tree, its name passes the filter, and its category is its directory |
| ImageListing.ListDirComplete | lib/ImageManager.js:406-422 | every file whose name passes the filter is listed |
| ImageListing.ListedIff | lib/ImageManager.js:406-427 | a path is listed exactly when it names a file whose name passes the filter; directories are never listed |
| ImageListing.ListingCategory | lib/ImageManager.js:416 | the category is `default` for a file in the image directory itself, else its directory path joined by `/` |
| ImageListing.InDir | lib/ImageManager.js:399-404 | `getAllImagesInDir`; no contract of its own, characterised by InDirIff, InDirMissing and InDirOnFile |
| ImageListing.InDirIff | lib/ImageManager.js:399-404 | for a directory, the result holds exactly the allowed regular files directly in it |
| ImageListing.InDirMissing | lib/ImageManager.js:400 | a directory that does not exist gives the empty list |
| ImageListing.InDirOnFile | lib/ImageManager.js:401 | a regular file in the directory's place gives no list (`readdirSync` throws) |
| ImageListing.FilesIn | lib/ImageManager.js:401-403 | the `isFile() && isValidImage` filter over one directory's entries; no contract of its own, characterised by FilesInIff |
| ImageListing.FilesInIff | lib/ImageManager.js:401-403 | the per-directory filter keeps exactly the entries that are files and pass the filter |
| ImageListing.Pick | lib/ImageManager.js:251-257 | a 1-based n picks something exactly when 1 ≤ n ≤ count, and then picks the n-th image |
| ImageListing.RemoveFile | lib/ImageManager.js:297 | `unlinkSync`; no contract of its own, characterised by RemoveFileEffect |
| ImageListing.RemoveFileEffect | lib/ImageManager.js:297 | unlinking a file makes that path missing, keeps the tree well formed, and leaves every other path as it was |
| ImageListing.DeleteUnlists | lib/ImageManager.js:289-303 | after deleting the n-th image, the listing holds exactly the old listing's paths minus that one |
| ImageListing.RenamedName | lib/ImageManager.js:316-320 | the sanitised new name plus the old extension; no contract of its own, characterised by RenamedNameKeepsExtension and RenamedNameIsValid |
| ImageListing.Taken | lib/ImageManager.js:320-323 | `existsSync(path.join(dir, safeName))`: `.` and `..` fold into the directory itself or its parent, which always exist; otherwise the path exists in the tree. No contract of its own, characterised by RenameToOwnNameRefused and used by RenameImage |
| ImageListing.RenamedNameKeepsExtension | lib/ImageManager.js:316-319 | the new name keeps the old extension, case preserved |
| ImageListing.RenamedNameIsValid | lib/ImageManager.js:319-320 | the new name is one valid segment, so the file stays in its directory |
| ImageListing.RenameToOwnNameRefused | lib/ImageManager.js:323-324 | renaming a file to the name it already has is refused as taken |
| ImageListing.MoveFile | lib/ImageManager.js:326 | `renameSync` within one directory; no contract of its own, characterised by MoveFileEffect |
| ImageListing.MoveFileEffect | lib/ImageManager.js:326 | renaming onto a free name moves the content to the new path, frees the old one, and leaves every other path unchanged |
| ImageListing.NothingBelowMissing | lib/ImageManager.js:105 | nothing exists below a missing path |
| ImageListing.Page | lib/ImageManager.js:276-284 | the p-th reply: the count header on the first page only, then the page's lines joined by newlines; no contract of its own, characterised by Chunk, ChunksCover and ListImages |
| ImageListing.Lines | lib/ImageManager.js:270-273 | one line per image |
| ImageListing.Chunk | lib/ImageManager.js:278 | every page is non-empty and holds at most 20 lines |
| ImageListing.Chunks | lib/ImageManager.js:276-284 | there are ⌈count/20⌉ pages |
| ImageListing.ChunksCover | lib/ImageManager.js:276-284 | the pages, joined in order, are exactly the lines |
| ImageListing.ChunkShift | lib/ImageManager.js:277-278 | page p+1 of a list is page p of the list without its first 20 lines |
| ImageStore.Config.constructor | config.js:44-48 | the configuration holds the given limit and types, as loaded and as saved |
| ImageStore.Config.Save | config.js:58-61 | saving persists the current limit and types |
| ImageStore.Prepared | lib/ImageManager.js:89-92 | the tree after the `existsSync`-guarded recursive mkdir; no contract of its own, characterised by PreparedKind |
| ImageStore.PreparedKind | lib/ImageManager.js:89-92 | creating the save directory fails only when a file lies on the path; otherwise it adds the path's prefixes as directories and changes nothing else |
| ImageStore.SavedNameIsLeast | lib/ImageManager.js:102-109 | the loop's answer is the least free candidate of the original tree: the new directories add no names |
| ImageStore.SaveEffect | lib/ImageManager.js:89-113 | a save adds exactly one new file with the buffer's content, plus the missing directories, and leaves every other path as it was |
| ImageStore.CategoryDir | lib/ImageManager.js:121-124 | the trimmed, sanitised category as the save directory, none when empty; no contract of its own, characterised by CategoryDirIsOneSegment |
| ImageStore.CategoryDirIsOneSegment | lib/ImageManager.js:121-124 | a category save directory is a single valid segment, so it cannot leave the image directory |
| ImageStore.LimitBytes | lib/ImageManager.js:336-350 | the unit conversion and range check; no contract of its own, characterised by LimitBytesCases and AcceptedLimits |
| ImageStore.LimitBytesCases | lib/ImageManager.js:336-350 | units other than MB and KB are refused; MB sizes 1–100 and KB sizes 1–102400 are accepted, converted by 1048576 and 1024 |
| ImageStore.AcceptedLimits | lib/ImageManager.js:340-350 | every accepted limit is a multiple of 1024 between 1 KB and 100 MB, and every such byte count is reachable in KB |
| ImageStore.NamesOnPathValid | lib/ImageManager.js:316-320 | the old file's name, the last segment of an existing path, is a valid segment, so the renamed path stays in its directory |
| ImageStore.ImageManager.constructor | lib/ImageManager.js:22-27 | the manager copies the limit and the allowed types from the configuration |
| ImageStore.ImageManager.ValidateAndSaveImage | lib/ImageManager.js:70-117 | the three refusals, in order, leave the tree unchanged; a file on the save path fails the mkdir or the write and leaves the tree unchanged; otherwise the image is saved at the least free candidate of the original tree and only that file and the new directories change |
| ImageStore.ImageManager.GetAllImagesRecursive | lib/ImageManager.js:406-422 | the result is the depth-first listing filtered by the allowed types |
| ImageStore.ImageManager.ViewSpecificImage | lib/ImageManager.js:250-263 | a 1-based n shows the n-th listed image exactly when it is in range |
| ImageStore.ImageManager.ListImages | lib/ImageManager.js:266-286 | an empty gallery gets `图库为空`; otherwise one reply per page of 20 lines, the first with the count header |
| ImageStore.ImageManager.DeleteImage | lib/ImageManager.js:289-303 | an out-of-range n changes nothing; otherwise exactly the n-th listed file is unlinked |
| ImageStore.ImageManager.RenameImage | lib/ImageManager.js:306-332 | an empty new name or an out-of-range n changes nothing; a taken target changes nothing; otherwise the n-th file moves to the sanitised name with its old extension, in its own directory |
| ImageStore.ImageManager.SetMaxFileSize | lib/ImageManager.js:335-356 | as written: an accepted limit is stored in and saved with the configuration, while the manager's own limit keeps its old value |
| ImageStore.ImageManager.SetMaxFileSizeApplied | lib/ImageManager.js:335-356 | corrected: an accepted limit is stored, saved and applied to the manager's own limit; a refused one changes nothing |
| ImageStore.StaleLimitExample | lib/ImageManager.js:340-353 | after the limit is set to 1 MB, a 1 MiB + 1 byte PNG is still saved |
| ImageStore.AppliedLimitExample | lib/ImageManager.js:340-353 | with the corrected setter, the same PNG is refused as too large |

## Left out

- `downloadImage` (lib/ImageManager.js:30-67) is left out: it is network I/O with timeouts and event callbacks. Its buffer is the `buffer` parameter of `ValidateAndSaveImage`.
- The random picks with `Math.random` (lib/ImageManager.js:231, 244) are not modelled.
- Reply rendering, `segment.image`, emoji text and the help system (lib/ImageManager.js:358-396) are not modelled. Replies are the result variants (`SaveResult`, `DeleteResult`, `RenameResult`, `LimitError`); the list reply's text is kept, because the paging is about it.
- URL extraction from chat message segments (lib/ImageManager.js:121-135, 155-165, 185-199) is left out. `saveToCategory` is modelled only through `CategoryDir` (the trimmed, sanitised category), and the other save commands only through the `default` directory (lib/ImageManager.js:169, 203).
- The decimal rendering of `formatSize` (`toFixed(1)` on a float) is floating point. Only the unit choice is modelled; the limit text inside messages is a parameter.
- `generateFilenameFromUrl` (lib/utils.js:30-40) is left out: it depends on the WHATWG URL parser and nothing calls it.
- config.js is left out except for the two limit values and `save`: loading JSON, creating the directory, migrating old images and logging errors.
- The command routing in index.js is left out. Its regexes only admit digits, so indices and sizes are naturals.
- Real filesystem behaviour is simplified:
  - no write, unlink or rename failure other than a file lying on the save path;
  - no check-then-act races, symlinks or permissions;
  - paths are relative to the image directory; `path.join` is segment concatenation.
- Strings are sequences of code points. `substring(0, 50)` and `substring(0, 30)` count UTF-16 units in JavaScript, which differs only for characters outside the Basic Multilingual Plane. `toLowerCase` is modelled for ASCII letters only.
- Utils.ErrorTranslator: the `invalid_type` table entry is a function. When it is reached through `err.code` (a code equal to `invalid_type`), JavaScript returns the function itself rather than text, and the model does not produce it. Keys inherited from `Object.prototype` are not modelled either.
- The order of `readdirSync` is the entries' order in the tree. A saved file is appended at the end of its directory, and a renamed file moves to the end of its directory; real file systems may enumerate in another order.
- `parseInt` on digit strings of more than 15 digits loses precision in JavaScript; the model uses exact naturals.
- The manager's `allowedTypes` is a copy, not an alias of the configuration's array. Nothing in the modelled code mutates that array.

## Findings

| source | as written | input that shows it | evidently intended | confidence | as-written member | corrected member |
|---|---|---|---|---|---|---|
| lib/ImageManager.js:25, 352 | `setMaxFileSize` updates only `config.maxFileSize`; `validateAndSaveImage` checks the manager's own copy, taken at construction, so a new limit has no effect until restart | set the limit to 1 MB, then save a PNG of 1048577 bytes: it is saved | the new limit applies to the next save | not executed | ImageStore.StaleLimitExample | ImageStore.AppliedLimitExample |
