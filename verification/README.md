# Photo gallery builder

A Dafny model of the gallery builder of the tadelakt website. For a gallery
category (`arbeit`, `tadelakt`, `lehmputz`, `herstellung-und-restaurierung`) the builder:

1. reads the directory `public/images/<category>`;
2. keeps the entries whose extension is an image extension;
3. sorts their names with numeric-aware `localeCompare`;
4. turns each name into a gallery item.

Each item has:

- a title derived from the filename;
- an empty description;
- the URL `/images/<category>/<file>` as both image and thumbnail.

The builder exists in two variants:

- `src/lib/gallery.ts` finds the project root from its own module location and sorts under the default locale.
- `web/lib/api.js` uses the process's working directory and the `en` locale.

Both expose four accessors that wrap a category's items as `{ work: ... }`. The TypeScript variant also exposes `getWork`.

Modules:

- `Wrappers`: `Option`.
- `Text`: ECMAScript whitespace (the `\s` class and what `trim` removes) and an ASCII lower-case fold.
- `PathExt`: Node's POSIX `path.extname`.
- `Title`: `titleFromFilename`, step by step:
  - the regular expression `\.[^/.]+$` as a leftmost match;
  - the global run replacements of `[-_]+` and `\s+`;
  - `trim`.

  It also holds a reference description: a title is the words of the stem (maximal runs free of `-`, `_` and whitespace) joined by single spaces.
- `Ordering`: a stable sort with a comparator given as a parameter. Since its 2019 edition, ECMAScript requires `Array.prototype.sort` to be stable. The module proves that the stable sorted permutation is unique, so any stable sort gives the same output.
- `Scanner`: the shared builder — the image filter, the sort, and the mapping to items. It takes the directory listing (`None` when the directory does not exist), the category segment and the comparator.
- `Site`: the categories and the environment. The environment holds:
  - the `public/images` directory under each of the two roots, as a map from subdirectory name to entry names;
  - the two collations.
- `Gallery` and `WebApi`: the two variants and their accessors.
- `Examples`: worked titles and filter decisions.

The builder is deterministic given its environment, so two calls with no change on disk give the same output. In the model this holds because the builders are functions.

The code sorts with `localeCompare`, so the order of two files is whatever the collation says. For example, a collation that orders `f` before `g` puts `Wand-Fein_2.jpg` before `wand-grob_1.JPG`. `Scanner.TwoFilesInCollationOrder` states the order for two files in terms of the comparator.

## Model

| member | source | states |
|---|---|---|
| Title.FirstExtensionMatch | src/lib/gallery.ts:23 | the reported position is a match of `\.[^/.]+$` (a '.', then at least one character, none of them '.' or '/', to the end), and no earlier position matches; None exactly when no position from the start matches |
| Title.StripExtension | src/lib/gallery.ts:23 | the result is a prefix of the name; it equals the name exactly when the pattern matches nowhere; otherwise the removed suffix starts with a match |
| Title.StripSingleExtension | src/lib/gallery.ts:23 | `stem + "." + ext`, where ext is non-empty and has no '.' or '/', loses exactly `"." + ext`; every '.' inside the stem stays |
| Title.StripKeepsUndottedName | src/lib/gallery.ts:23 | a name with no '.', or one ending in '.', is left unchanged |
| Title.ReplaceRuns | src/lib/gallery.ts:24-25 | a run replacement never lengthens the string and empties only the empty string; its first character is ' ' when the input starts with a class character and is the input's first character otherwise |
| Title.ReplaceRunsCollapses | src/lib/gallery.ts:24-25 | after the replacement, the only class character left is ' ', and no two neighbouring characters are both in the class |
| Title.ReplaceRunsKeepsRest | src/lib/gallery.ts:24-25 | for each of the three classes, the characters that are neither in the class nor ' ' come out exactly as they went in, in the same order |
| Title.ReplaceRunsAsWords | src/lib/gallery.ts:24-25 | replacing each maximal run of '-', '_' or whitespace by one ' ' gives the name's words joined by single spaces, with one ' ' in front when the name starts with a separator and one behind when it has a word and ends with a separator |
| Title.CollapsedFromWord | src/lib/gallery.ts:24-25 | for a name that starts with a word, the replacement is its words joined by single spaces, plus one ' ' when it ends with a separator |
| Title.RunLength | src/lib/gallery.ts:24-25 | the length of the maximal leading run of characters inside (or outside) a class: all of them are in the class and the next one is not |
| Title.TrimStart | src/lib/gallery.ts:26 | a suffix of the input, with only whitespace removed in front and no whitespace at its start |
| Title.TrimEnd | src/lib/gallery.ts:26 | a prefix of the input, with only whitespace removed behind and no whitespace at its end |
| Title.Trim | src/lib/gallery.ts:26 | the result is a slice of the input with only whitespace cut off in front and behind, and it neither starts nor ends with ECMAScript whitespace |
| Title.TrimIsSlice | src/lib/gallery.ts:26 | trimming removes a whitespace-only prefix and a whitespace-only suffix and keeps everything between them |
| Title.CollapseComposition | src/lib/gallery.ts:24-25 | replacing `[-_]+` runs and then `\s+` runs by one space equals replacing each maximal run of '-', '_' or whitespace by one space |
| Title.TrimCollapsed | src/lib/gallery.ts:24-26 | trimming the collapsed stem gives its words joined by single spaces |
| Title.TitleFromFilename | src/lib/gallery.ts:21-26 | the title is the words of the name without its last extension, joined by single spaces; it has no '-' or '_', and every whitespace character in it is a single ' ' between two non-whitespace characters |
| Title.Words | src/lib/gallery.ts:24-25 | every word is non-empty and free of '-', '_' and whitespace |
| Title.JoinedWordsNormal | src/lib/gallery.ts:24-26 | words joined by single spaces are in the title normal form, with no whitespace at either end |
| Title.WordsOfJoin | src/lib/gallery.ts:24-26 | splitting words joined by single spaces gives the same words back |
| Title.WordsAfterLeadingSeparators | src/lib/gallery.ts:24-26 | leading runs of '-', '_' and whitespace contribute no word |
| Title.WordsAfterWord | src/lib/gallery.ts:24-26 | a word followed by a separator run is the first word, and the rest of the name gives the rest of the words |
| Title.WordsOfWord | src/lib/gallery.ts:24-26 | a lone word is its own only word |
| Title.TitleOfSingleExtension | src/lib/gallery.ts:21-26 | the title of `stem + "." + ext` is the stem's words joined by single spaces |
| Title.TwoWordTitle | src/lib/gallery.ts:21-26 | two words with any separator run between them and one extension give the two words one space apart |
| Title.ThreeWordTitle | src/lib/gallery.ts:21-26 | three words with any separator runs between them and one extension give the three words one space apart |
| Text.AsciiLower | src/lib/gallery.ts:42 | the same length; each character is folded on its own, upper-case ASCII letters to lower case and every other character kept |
| PathExt.LastIndexOf | src/lib/gallery.ts:42 | the index of the last occurrence of the character; None exactly when it does not occur |
| PathExt.TrimTrailingSlashes | src/lib/gallery.ts:42 | the path without its trailing '/' characters, and nothing else removed |
| PathExt.LastComponent | src/lib/gallery.ts:42 | a suffix of the path with no '/' in it that is either the whole path or preceded by a '/', so it is the part after the last '/' |
| PathExt.ExtName | src/lib/gallery.ts:42 | the extension is empty, or it is a '.' followed by characters that are neither '.' nor '/' |
| PathExt.ExtNameOfEntry | src/lib/gallery.ts:42 | for a name without '/', the extension is non-empty exactly when the name has a '.' after its first character with no '.' after that '.', and the name is not `..`; the extension is then the suffix starting at that '.' |
| Scanner.ImageExtensionsWellFormed | src/lib/gallery.ts:19 | each of the five image extensions is a '.' and a tail free of '.' and '/', at least four characters long and already lower case, so each is a value that the lower-cased `path.extname` can produce |
| Scanner.IsImageFile | src/lib/gallery.ts:42 | a name passes the filter only when its extension is non-empty, starts with '.', and is at least four characters long; ImageFileIff gives the exact condition |
| Scanner.ImageFiles | src/lib/gallery.ts:40-42 | the filter keeps at most as many names as the listing has |
| Scanner.ImageFilesSingle | src/lib/gallery.ts:40-42 | a one-name listing keeps its name exactly when that name is an image file |
| Scanner.ImageFilesConcat | src/lib/gallery.ts:40-42 | the filter judges each name on its own and keeps the listing's order: filtering a concatenation is concatenating the filtered parts |
| Scanner.ImageFilesSelects | src/lib/gallery.ts:40-42 | a name is kept exactly when it is listed and its extension, lower-cased, is one of `.jpg .jpeg .png .webp .gif`; each kept name appears as often as it is listed |
| Scanner.ImageFileIff | src/lib/gallery.ts:42 | an entry name counts as an image exactly when it has a '.' after its first character, with no '.' after that '.', and the suffix from that '.', lower-cased, is an image extension |
| Scanner.ImageFileByLastExtension | src/lib/gallery.ts:42 | with a non-empty stem, only the last extension decides, and its case does not matter |
| Scanner.DotfileIsNotImage | src/lib/gallery.ts:42 | a name whose only '.' is its first character has no extension and is never an image |
| Scanner.SortedImageFiles | src/lib/gallery.ts:40-43 | the sorted files are as many as the image files; when the comparator is consistent, no file is ordered after a later one |
| Scanner.SortedImageFilesPermutes | src/lib/gallery.ts:40-43 | the sorted files are a permutation of the listing's image files: exactly those names, each as often as it is listed |
| Scanner.SortedImageFilesStable | src/lib/gallery.ts:43 | files the comparator ranks level keep their listing order |
| Scanner.TwoFilesInCollationOrder | src/lib/gallery.ts:43 | two image files come out in comparator order, in whichever order the directory lists them |
| Scanner.ItemFor | src/lib/gallery.ts:45-50 | the item's image URL is `"/images/" + category + "/" + file`; its thumbnail URL is the same; its description is empty; its title is the title derived from the file |
| Scanner.MapSeq | src/lib/gallery.ts:45 | mapping keeps the length and applies the function at each index |
| Scanner.ItemsFor | src/lib/gallery.ts:45-50 | one item per file, in the files' order, each the item for its file |
| Scanner.BuildWorkItems | src/lib/gallery.ts:34-51 | a missing directory gives no items; otherwise there is one item per image file; every item has an empty description and a thumbnail equal to its image |
| Scanner.BuiltItems | src/lib/gallery.ts:40-50 | item i shows the i-th sorted image file: its URL is the file's URL under the category, the URL leads back to the file, and the title is derived from the file |
| Scanner.BuiltTitlesNormal | src/lib/gallery.ts:45-46 | every title in a built gallery is in the title normal form |
| Scanner.ImageUrl | src/lib/gallery.ts:48-49 | the URL is `/images/`, then the category, then '/', then the file, and its length is the sum of those parts |
| Scanner.UrlEmbedsFile | src/lib/gallery.ts:48-49 | removing the category's URL prefix gives back the file |
| Scanner.UrlInjective | src/lib/gallery.ts:48 | two files of one category never share a URL |
| Ordering.Insert | src/lib/gallery.ts:43 | inserting one element makes the sequence one longer; its contents are given by `Ordering.InsertPermutes`, `Ordering.InsertSorted` and `Ordering.InsertPeers` |
| Ordering.InsertPermutes | src/lib/gallery.ts:43 | the result holds the input's elements and the inserted one, each as often as before |
| Ordering.InsertSorted | src/lib/gallery.ts:43 | under a consistent comparator, inserting into a sorted sequence leaves it sorted |
| Ordering.InsertPeers | src/lib/gallery.ts:43 | under a consistent comparator, the inserted element goes after every element it ties with, so each group of tied elements keeps its order, with the new one last |
| Ordering.Sort | src/lib/gallery.ts:43 | the sort is a permutation (same multiset, same length); with a consistent comparator, no element is ordered after a later one |
| Ordering.SortIsStable | src/lib/gallery.ts:43 | for every element e, the elements ranked level with e keep their relative order |
| Ordering.StableSortedUnique | src/lib/gallery.ts:43 | two sequences sorted by a consistent comparator, with the same level-ranked elements in the same order, are equal |
| Ordering.SortCharacterized | src/lib/gallery.ts:43 | any sorted sequence that holds the input's level-ranked elements in the input's order is the output of the sort |
| Ordering.SortAgrees | web/lib/api.js:22 | comparators that agree on every pair give the same order |
| Site.Listing | src/lib/gallery.ts:35-38 | the listing is None exactly when the category's directory is missing, and otherwise it is that directory's entries |
| Site.SegmentsDistinct | src/lib/gallery.ts:6-10 | distinct categories have distinct directory names, and none of them contains '/' |
| Gallery.BuildWorkItems | src/lib/gallery.ts:34-51 | a category with no directory under the module-relative root gives no items; otherwise there is one item per image file of that directory; descriptions are empty and thumbnails equal images |
| Gallery.GetWork | src/lib/gallery.ts:53-54 | the same gallery as the builder |
| Gallery.ItemsOfDirectory | src/lib/gallery.ts:40-50 | for an existing directory, item i has the URL and the derived title of the i-th image file in default-locale order |
| Gallery.FetchWork | src/lib/gallery.ts:57-59 | `work` is the `arbeit` gallery |
| Gallery.FetchTadelakt | src/lib/gallery.ts:61-63 | `work` is the `tadelakt` gallery |
| Gallery.FetchLehmputz | src/lib/gallery.ts:65-67 | `work` is the `lehmputz` gallery |
| Gallery.FetchHerstellungUndRestaurierung | src/lib/gallery.ts:69-73 | `work` is the `herstellung-und-restaurierung` gallery |
| WebApi.BuildWorkItems | web/lib/api.js:13-30 | a category with no directory under the working directory gives no items; otherwise there is one item per image file of that directory; descriptions are empty and thumbnails equal images |
| WebApi.ItemsOfDirectory | web/lib/api.js:19-29 | for an existing directory, item i has the URL and the derived title of the i-th image file in `en` collation order |
| WebApi.FetchWork | web/lib/api.js:32-34 | `work` is the `arbeit` gallery |
| WebApi.FetchTadelakt | web/lib/api.js:36-38 | `work` is the `tadelakt` gallery |
| WebApi.FetchLehmputz | web/lib/api.js:40-42 | `work` is the `lehmputz` gallery |
| WebApi.FetchHerstellungUndRestaurierung | web/lib/api.js:44-46 | `work` is the `herstellung-und-restaurierung` gallery |
| WebApi.VariantsAgree | web/lib/api.js:13-30 | when both roots give the same listing and the two collations agree, both variants build the same gallery |
| WebApi.AccessorsAgree | web/lib/api.js:32-46 | under the same conditions, the four accessors of the two variants agree |
| Examples.TypicalTitle | src/lib/gallery.ts:21-26 | `my-photo_01.jpg` is titled `my photo 01` |
| Examples.SeparatorsOnlyTitle | src/lib/gallery.ts:21-26 | `-_-.jpg` is titled with the empty string |
| Examples.DottedTitle | src/lib/gallery.ts:21-26 | `v1.2-final.jpg` is titled `v1.2 final`; only the last extension goes |
| Examples.TitleNotIdempotent | src/lib/gallery.ts:21-26 | deriving a title from the title `v1.2 final` gives `v1`, so the derivation is not idempotent |
| Examples.UpperCaseExtensionAccepted | src/lib/gallery.ts:42 | `a.JPG` is an image file |
| Examples.MixedCaseExtensionAccepted | src/lib/gallery.ts:42 | `c.Png` is an image file |
| Examples.OtherExtensionRejected | src/lib/gallery.ts:42 | `notes.txt` is not an image file |
| Examples.InnerExtensionIgnored | src/lib/gallery.ts:42 | `archive.jpg.zip` is not an image file |
| Examples.DotfileRejected | src/lib/gallery.ts:42 | `.jpg` has no extension and is not an image file |

## Left out

- File system access: `existsSync` and `readdirSync` are replaced by the listing they would return, a map from subdirectory name to entry names. A missing key means the directory does not exist. Failures of `readdirSync` (permissions, a file where the directory should be) are not modelled.
- Project root resolution (`fileURLToPath`, `path.resolve`, `process.cwd()`) and `path.join`: each variant's `public/images` directory is an input. Categories are an enumeration whose directory names contain no '/', so joining needs no normalisation.
- `localeCompare` with `numeric: true`: the ICU collation tables are outside the model. Each locale's comparison is an input function. The sorting properties assume only that it is a consistent comparator, and the order of particular names such as `img2.jpg` and `img10.jpg` follows from the collation rather than from the model.
- Text.AsciiLower: `toLowerCase` is modelled as an ASCII fold, not full Unicode case mapping. Membership in the image-extension set is the same either way. The only non-ASCII characters that lower-case to ASCII are U+212A (to `k`) and U+0130 (to `i` plus a combining dot), and neither can complete an image extension.
- Strings are sequences of Unicode scalar values, not UTF-16 code units, so names with unpaired surrogates are not represented.
- `async`: the accessors return their record directly instead of a promise.
- The word-based description of titles (`Words`, `JoinWords`, `IsNormalTitle` in module `Title`) has no counterpart in the source. It is a reference definition, and `TitleFromFilename` is proved equal to it.
- The accessors of the two variants are identical up to the builder they call, so the `WebApi` accessors repeat the `Gallery` ones. `WebApi.AccessorsAgree` relates them.
- The site framework configuration files, pages and styling are not part of this model.
