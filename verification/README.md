# Object-number linking and catalogue helpers

A Dafny model of the core of a museum cataloguing toolchain. The toolchain
reads inventory numbers such as `1/1997/1063 0` from spreadsheet cells and
turns each one into a year and a file-name prefix such as `1-1997-1063-`. It
then finds the scanned images of that object in the year's directory and
builds the linked table. Every object key is resolved once. Objects whose
number does not parse, and objects whose directory holds no image, are
recorded as misses.

Around that core the model also covers the pure helpers of two scripts:
- the catalogue generator: removing parenthesised remarks, normalising a
  year, reading the `images` column back, the metadata lines of the prompt,
  and the metadata lookup;
- the image indexer: the matching key `_norm`, the id taken from a file
  name, the column-name cleaner, and the `.jpg`/`.jpeg` filter.

Modules, following the program's structure:

- `Strings` — ASCII character classes (`\d`, `\s`, `\w`, `str.isspace`) and
  maximal runs. Also `str.strip`, `lower`/`upper`, and `split`/`join` on
  one character.
- `LexOrder` — Python's order on `str`, and `sorted` as insertion sort.
  An ascending permutation is unique, so any correct sort agrees.
- `Seqs` — duplicate-free sequences and `drop_duplicates` (`Dedup`).
- `Paths` — POSIX `os.path.splitext` (leading dots of a name are not an
  extension) and `os.path.basename`.
- `ObjectNumber` — the pattern `OBJ_RE` and `parse_object_number`.
- `YearDirectory` — `find_matching_files_in_year` over a directory tree
  given as a value.
- `Linking` — `build_links_like_group`, both as a function and as a method
  that follows the source's loops.
- `Parens` — the substitution `\s*\([^)]*\)` → `""`, which both scripts
  use.
- `Catalog` — the helpers of catalog_generator.py.
- `ImageIndex` — the helpers of fatih-test.py.

How the pieces are represented:

- **Pattern matching.** `OBJ_RE` is read as a deterministic matcher
  (`MatchAt` with `GreedySplit`) and checked against the declarative
  predicate `Fits` in both directions. The regex engine's backtracking
  can never find a different split.
- **The directory tree.** The tree is a map from a directory path to its
  listing: `(name, is regular file)` entries in `os.listdir` order. A
  missing key means "not a directory".
- **Spreadsheet cells.** A cell is `Str(text)`, `Missing` (NaN/None) or
  `NonStr` (any other scalar).
- **Prompt metadata.** A metadata row is a map from column name to `Value`.

## Model

| member | source | states |
|---|---|---|
| Strings.Strip | linking.py:138 | `str.strip()`: the result is a slice of the text with only whitespace before and after it, and it neither starts nor ends with whitespace |
| Strings.StripOfPadded | catalog_generator.py:70 | conversely, whitespace, then text not bounded by whitespace, then whitespace, strips to exactly that text |
| Strings.TrimIdempotent | catalog_generator.py:73 | stripping a stripped text changes nothing |
| Strings.LowerCases | linking.py:117 | `lower()` leaves no upper-case letter, turns each one into its lower-case partner and keeps every other character; it is idempotent and ignores an earlier `upper()` |
| Strings.UpperCases | catalog_generator.py:142 | `upper()` leaves no lower-case letter, turns each one into its upper-case partner and keeps every other character; it is idempotent and ignores an earlier `lower()` |
| Strings.Split | catalog_generator.py:127 | `split(",")` gives one more piece than there are separators, no piece holds the separator, and joining the pieces with it gives the text back |
| Strings.SplitJoin | catalog_generator.py:127 | conversely, pieces without the separator, joined with it and split again, come back unchanged |
| ObjectNumber.MatchAtComplete | linking.py:21 | wherever the pattern fits at a position, the matcher finds that match there |
| ObjectNumber.MatchAtSound | linking.py:21 | the matcher succeeds at a position exactly when the pattern fits there in some way, and then returns the groups of such a fit |
| ObjectNumber.SplitIsGreedy | linking.py:21 | the pattern fits a position in at most one way, so backtracking cannot produce other groups |
| ObjectNumber.Search | linking.py:91 | `OBJ_RE.search` returns the match at the leftmost position where the pattern fits, and nothing only when it fits nowhere |
| ObjectNumber.SearchIsLeftmost | linking.py:91 | a match with no match before it is the one the search returns |
| ObjectNumber.ParseObjectNumber | linking.py:83-96 | non-strings give `None`; a string gives `None` exactly when the search fails; otherwise the year and `g1-year-g3-` of the leftmost match |
| ObjectNumber.ParseNoneIffNoMatch | linking.py:89-93 | a string parses to `None` if and only if the pattern fits at no position |
| ObjectNumber.ParsedShape | linking.py:94-96 | a parsed year is four digits; the prefix is `g1-year-g3-` with g1 one or more digits and g3 three or four digits; lower-casing leaves it unchanged |
| ObjectNumber.LeftmostGroupIsMaximal | linking.py:21 | the first group of the found match begins a digit run: no digit stands right before it |
| ObjectNumber.SeriesIgnored | linking.py:20-21 | replacing the series number and everything after it with other digits changes nothing in the parse |
| ObjectNumber.ParseIgnoresSurroundingSpace | linking.py:138 | the stripped identifier parses exactly as the raw cell does |
| ObjectNumber.ParseOfAssembled | linking.py:21 | any `g1 / year / g3 series` text, with any whitespace the pattern allows and after text without digits, parses to that year and `g1-year-g3-` |
| Paths.SplitExt | linking.py:114 | `os.path.splitext`: the two parts concatenate to the path; a non-empty extension is one dot and no further dot or slash, and the name before it is not all dots |
| Paths.ExtOfStemAndSuffix | linking.py:114 | conversely, a proper name followed by a dot-extension splits into exactly those two parts |
| Paths.Basename | linking.py:180 | `os.path.basename`: a text without `/` that ends the path, preceded by nothing or by a `/` |
| Paths.BasenameOfDirAndName | fatih-test.py:46 | conversely, a directory part that is empty or ends in `/`, followed by a name without `/`, has that name as its base name |
| YearDirectory.JoinPath | linking.py:111 | `os.path.join`: an absolute second part replaces the first; otherwise the second part follows the first, joined by one `/` unless the first is empty or already ends with `/` |
| YearDirectory.BasenameOfJoin | linking.py:180 | the base name of a joined path is the listed name, so the images column holds names and not paths |
| YearDirectory.FindMatchingFilesInYear | linking.py:98-119 | no year directory gives `[]`; otherwise the result is sorted and holds exactly the joined paths of the regular files whose lower-cased extension is allowed and whose lower-cased name starts with the lower-cased prefix |
| YearDirectory.QualifyingShape | linking.py:112-117 | a regular file with a proper stem and an allowed extension qualifies exactly when its lower-cased name starts with the prefix |
| YearDirectory.DotNameDoesNotQualify | linking.py:114-115 | a name such as `.jpg` has no extension and is never picked |
| YearDirectory.QualifyingNamesPermute | linking.py:110-118 | listings that are permutations of each other give the same qualifying names, up to order |
| YearDirectory.ListingOrderIrrelevant | linking.py:110-119 | the order `os.listdir` returns does not change the result |
| YearDirectory.CandidatesArePrefixedNames | linking.py:111-118 | the collected paths are the qualifying names with the directory in front, in listing order |
| YearDirectory.MatchedBasenames | linking.py:168-180 | the basenames of the matches are the sorted qualifying names of the year directory, or nothing when it is missing |
| LexOrder.Sort | linking.py:119 | `sorted` returns an ascending permutation of its input |
| LexOrder.SortedUnique | linking.py:119 | two ascending permutations of the same strings are equal |
| LexOrder.SortPrefixed | linking.py:119 | sorting paths in one directory orders them as sorting their names does |
| LexOrder.LexLeCommonPrefix | linking.py:119 | a common prefix does not change how two strings compare |
| Seqs.Dedup | linking.py:139 | `drop_duplicates` gives no duplicates and the same members, each at the position of its first occurrence |
| Seqs.NoDupPermutation | linking.py:174 | a permutation of a duplicate-free sequence is duplicate-free, so sorting the de-duplicated sources keeps them so |
| Linking.PresentCells | linking.py:136-138 | no cell is missing, and a cell is among them exactly when the stripped inventory cell of some row with a present cell is that cell |
| Linking.PresentCellsInRowOrder | linking.py:136-138 | the present cells are the stripped cells of the rows whose cell is present, one per such row, in row order |
| Linking.Series | linking.py:135-140 | the de-duplicated identifiers: no duplicates, no missing cells, exactly the stripped cells that are present, in first-occurrence order |
| Linking.ParsedKeyOfClean | linking.py:138 | stripping a cell does not change the key it parses to, so both loops agree on each identifier's key |
| Linking.SourceList | linking.py:147-153 | the sources of a key are sorted and duplicate-free, and are exactly the source files of the rows tagged with that key |
| Linking.SourceListOfMeta | linking.py:147-153 | a file is among a key's sources exactly when some metadata row from that file parses to that key |
| Linking.RunSeen | linking.py:163-166 | after the loop, the seen keys are exactly the keys of the identifiers that parsed |
| Linking.Step | linking.py:155-183 | one iteration only appends, at most one row or miss, and adds the identifier's key to the seen keys when it parses |
| Linking.RunExtends | linking.py:155-183 | what the loop produced for a prefix of the series is kept to the end: rows, misses and seen keys only grow |
| Linking.RunSize | linking.py:155-183 | each identifier gives at most one row or miss |
| Linking.ReasonTellsKind | linking.py:158-170 | the `reason` column tells a pattern miss from a no-files miss |
| Linking.RunTidy | linking.py:163-183 | the keys of linked rows and of no-files misses have no duplicates, and are exactly the seen keys |
| Linking.RunAccounted | linking.py:155-183 | each linked row stands for the first identifier with its key: it holds that identifier's parse, the basenames of what the search found (at least one), their count and the joined sources; rows keep series order; each miss has its cause |
| Linking.RunPatternMisses | linking.py:156-159 | every identifier that does not parse is logged as a pattern miss, once per occurrence and in order, and nothing else is |
| Linking.RunDecides | linking.py:163-171 | the first identifier with a key gives a linked row exactly when the search finds files, and a no-files miss exactly when it finds none |
| Linking.RunCoversKeys | linking.py:155-171 | a key has an outcome exactly when some identifier parsed to it, and never both kinds |
| Linking.BuildLinksLikeGroup | linking.py:121-190 | empty metadata gives the six named columns and nothing else; otherwise there are columns exactly when some row was linked; row keys are unique; every row's count equals its number of images, which is positive |
| Linking.LinkedRowParses | linking.py:155-162 | every linked row's identifier is in the de-duplicated series, and parses to the row's year and prefix |
| Linking.LinkedRowImages | linking.py:168-181 | a row's images are the sorted names of the qualifying files of its existing year directory |
| Linking.LinkedRowSources | linking.py:174-182 | a row's source column is its key's sources joined by `", "`, and the list is not empty |
| Linking.NoFilesMissOfBuild | linking.py:168-171 | a no-files miss comes from a series identifier that parses, and its search finds nothing |
| Linking.PatternMissesOfBuild | linking.py:155-159 | a cell is logged as a pattern miss exactly when it is in the series and does not parse |
| Linking.BuildCoversKeys | linking.py:155-171 | a key is linked or missed exactly when some series identifier parses to it, and never both |
| Linking.BuildDecides | linking.py:163-183 | an identifier that parses has its key linked if and only if its search finds files, and missed if and only if it finds none |
| Linking.CollectSources | linking.py:147-153 | the loop over the metadata records, for every key, the source files of the rows with that key in row order |
| Linking.LinkSeries | linking.py:155-183 | the loop over the series ends in the state the stepwise definition gives |
| Linking.BuildLinks | linking.py:121-190 | the procedure returns exactly the table the function defines |
| Parens.GroupAt | catalog_generator.py:65 | where the pattern matches at the start, the match's end; otherwise there is no match at the start |
| Parens.RemoveGroups | catalog_generator.py:65 | the substitution only keeps characters of its input, and no `(` followed later by `)` survives |
| Parens.RemoveGroupsIdentity | catalog_generator.py:65 | the substitution changes nothing if and only if no `(` is followed later by `)` |
| Parens.RemoveGroupsDropsGroup | catalog_generator.py:65 | a group, with the whitespace in front of it, is removed and the text before it is kept |
| Catalog.StripParens | catalog_generator.py:67-73 | `None` and blank values give `""`; the result has no surrounding whitespace and no `(`…`)`; text without `(` is only trimmed |
| Catalog.StripParensIdempotent | catalog_generator.py:67-73 | cleaning a cleaned value changes nothing |
| Catalog.StripParensDropsRemark | catalog_generator.py:65-73 | a trailing remark in parentheses goes, with the whitespace before it |
| Catalog.NormYear | catalog_generator.py:91-94 | the first stand-alone four-digit number of the text, and `""` exactly when there is none; `None` gives `""` |
| Catalog.NormYearOfYear | catalog_generator.py:91-94 | a four-digit year normalises to itself |
| Catalog.NormYearIdempotent | catalog_generator.py:91-94 | normalising a normalised year changes nothing |
| Catalog.KeepNonEmptyMembers | catalog_generator.py:128 | the filter keeps exactly the non-empty strings |
| Catalog.KeepNonEmptyInOrder | catalog_generator.py:128 | the kept strings are the non-empty ones, at increasing positions |
| Catalog.CleanList | catalog_generator.py:116 | the list branch yields stripped, non-empty strings, and a string is in the result exactly when it is the non-empty stripped text of some element |
| Catalog.CleanListInOrder | catalog_generator.py:123-124 | the result holds the non-empty stripped texts of the elements, one for each such element and in list order |
| Catalog.SplitFallback | catalog_generator.py:127-128 | the comma fallback yields at most one more element than there are commas; none is empty, holds a comma, or begins or ends with a quote or bracket |
| Catalog.SplitFallbackInOrder | catalog_generator.py:127-128 | the fallback's elements are the non-empty cleaned pieces, in comma order |
| Catalog.ParseImagesField | catalog_generator.py:112-128 | `None`, NaN and blank text give `[]`; no name is empty; names from a list are stripped |
| Catalog.ParseBracketedText | catalog_generator.py:120-128 | bracketed text is read as the cleaned list `literal_eval` gives, and by the comma fallback when it gives none |
| Catalog.SplitFallbackReadsListRepr | catalog_generator.py:127-128 | the fallback reads `str(names)` back as `names` for plain file names |
| Catalog.ParseImagesFieldReadsListRepr | catalog_generator.py:112-128 | the `images` text the linker writes reads back as the same names, whether `literal_eval` succeeds or fails |
| Catalog.EveryColumnHasLabel | catalog_generator.py:137-139 | every column `t1`…`t14` has a display name, so the upper-cased fallback label is never used |
| Catalog.InventoryLine | catalog_generator.py:139-142 | the `t1` line reads `- Inventar-Nr [T1]: ` followed by the value |
| Catalog.MetaLineNoNewline | catalog_generator.py:142 | a line holds no line break when its column name and value hold none |
| Catalog.MetaLines | catalog_generator.py:136-142 | one line per column that is present with a non-empty cleaned value, in column order; no lines exactly when no column qualifies |
| Catalog.MetaLinesInOrder | catalog_generator.py:137-142 | the lines from a column on are those of the qualifying columns, in order |
| Catalog.MetaBlockLines | catalog_generator.py:144 | when no cell holds a line break, the block splits back into its lines, or into the single placeholder line |
| Catalog.SingleCellBlock | catalog_generator.py:136-144 | the block for a row holding only `t1` is that one line, or the placeholder when the value is blank |
| Catalog.MetaForObj | catalog_generator.py:253-263 | the first row whose stripped `t1` equals the stripped id; `{"t1": id}` when the table is empty, lacks `t1`, or has no such row |
| Catalog.FirstHit | catalog_generator.py:260-263 | the first row from a position on whose stripped `t1` equals the stripped id, or the row count when there is none; no row before it matches |
| Catalog.MetaForObjFound | catalog_generator.py:259-263 | a found row carries the id in `t1`, and stripping the id first finds the same row |
| Catalog.FallbackPrompt | catalog_generator.py:137-144 | without metadata, the prompt shows the cleaned id as the inventory number, or the placeholder when it is blank |
| ImageIndex.Norm | fatih-test.py:38-43 | `None` gives `""`; a key holds only lower-case letters, digits, `-` and `_`, and is no longer than the text |
| ImageIndex.NormIsFilter | fatih-test.py:40-43 | a key is the lower-cased text with everything but alphanumerics, `-` and `_` removed; stripping first makes no difference |
| ImageIndex.NormIdempotent | fatih-test.py:38-43 | a key is its own key |
| ImageIndex.NormIgnoresCase | fatih-test.py:43 | texts equal up to case get the same key |
| ImageIndex.NormDropsPunctuation | fatih-test.py:43 | whitespace and punctuation other than `-` and `_`, anywhere, do not change the key |
| ImageIndex.IdSpan | fatih-test.py:14 | the leftmost and then shortest span `ID_REGEX` matches, and none only when it cannot match |
| ImageIndex.ExtractId | fatih-test.py:45-47 | an id is non-empty and holds no `/` or `\`; there is none exactly when the basename is empty or ends in `\` |
| ImageIndex.ExtractIdDropsExtension | fatih-test.py:45-47 | exactly one trailing `.alnum` extension is removed: `a.b.jpg` gives `a.b` |
| ImageIndex.ExtractIdKeepsPlainName | fatih-test.py:45-47 | a non-empty name without `.`, `/`, `\` or a newline is its own id |
| ImageIndex.ExtractIdIgnoresDirectory | fatih-test.py:46 | the directory part of the path does not matter |
| ImageIndex.StripParensColumn | fatih-test.py:63-65 | the result has no surrounding whitespace and no `(`…`)`; a name without `(` is only trimmed |
| ImageIndex.StripParensColumnIdempotent | fatih-test.py:63-65 | cleaning a cleaned column name changes nothing |
| ImageIndex.StripParensColumnDropsRemark | fatih-test.py:63-65 | a trailing remark in parentheses goes, with the whitespace before it |
| ImageIndex.IsImageOfStemAndExt | fatih-test.py:53 | a file with a proper stem is an image exactly when its lower-cased extension is `.jpg` or `.jpeg` |
| ImageIndex.DotNameIsNoImage | fatih-test.py:53 | a name such as `.jpg` has no extension and is not an image |
| ImageIndex.FilePath | fatih-test.py:56 | a row's `file_path` ends with its file name |
| ImageIndex.RowColumnsAgree | fatih-test.py:56-58 | the base name of `file_path` is the listed file name, and the id extracted from the full path is `obj_id_raw` |
| ImageIndex.ObjIdNorm | fatih-test.py:59 | the `if oid else ""` guard decides nothing: the key is always `_norm` of the extracted id, and `""` when there is none |
| ImageIndex.ImageFiles | fatih-test.py:52-53 | the kept files are exactly the listed files that are images |
| ImageIndex.ScanDirectory | fatih-test.py:49-61 | one row per image file of a directory, in listing order, and a row for a file exactly when it is listed and is an image |

## Left out

- Spreadsheet loading (`read_excel_any`, `load_selected_excels_only_t1`, `load_meta_rows_from_excels`, `load_all_excels`) is library I/O. The metadata arrives as a sequence of `(cell, source file)` records.
- CSV and Excel writing is output plumbing, and so is the misses log file (linking.py:186-188). The misses are returned in the result instead.
- `_safe_write_excel`, the HTTP client, `query_chatgpt`, `encode_image` and `CatalogGenerator.run` are left out: they are network, clock and file I/O.
- `find_file_anywhere` depends on recursive `glob` order and on files that exist on disk.
- `os.walk` in `scan_images` is left out. `ImageIndex.ScanDirectory` models the files of one directory. The pandas merge and report in the indexer's `main` are left out too.
- The derived columns of a scanned image row (`file_name`, `obj_id_raw`, `obj_id_norm`) are functions of the row (`ImageIndex.FilePath`, `ImageIndex.ObjIdRaw`, `ImageIndex.ObjIdNorm`). They are not stored fields.
- The fixed German prose around the metadata block of `build_prompt_from_tcols` is left out. Only the metadata lines and the block are modelled.
- `ast.literal_eval` is the parameter `eval` of `Catalog.ParseImagesField`. It is not modelled itself.
- Non-string scalars other than `None` and NaN are represented by the text `str()` gives for them (`OtherValue`). How Python formats numbers is not modelled.
- Strings.Trim / Strings.Lower: only ASCII whitespace and ASCII letters. Python's `strip()` also removes U+00A0, U+0085, U+2000 to U+200A, U+3000 and other Unicode spaces, and `lower()`/`upper()` map non-ASCII letters. A cell such as `"\u00a01/1997/1063 0"` is therefore kept with its leading no-break space in the model. This concerns Catalog.StripParens, ImageIndex.StripParensColumn, Catalog.CleanList, Catalog.SplitFallback, Linking.Series (linking.py:138) and Catalog.MetaForObj (catalog_generator.py:259-260). YearDirectory.Qualifies (linking.py:114, 117) is not affected. Only two non-ASCII characters lower-case to text holding an ASCII character: U+212A gives `k`, which no allowed extension holds, and U+0130 gives `i` plus a combining dot, one character too many for an extension to match. A prefix holds only digits and `-`, so the same names qualify.
- ImageIndex.Norm: models only ASCII input. NFKD normalisation and the removal of combining marks are the identity there. Non-ASCII `isalnum`/`lower` are not modelled.
- ObjectNumber.ParseObjectNumber: `\d` and `\s` are the ASCII digits and the ASCII characters `str.isspace` accepts. Python's `re` also accepts other Unicode digits and spaces.
- Catalog.NormYear: `\b` and `\d` are read on ASCII word characters and digits only.
- Paths.SplitExt: POSIX paths only (`/` as the separator). The `\` of fatih-test.py's `ID_REGEX` is kept as an ordinary character of the id pattern.
- Linking.SourceList: the set in `src_map` is modelled as the sequence of source files in row order, then de-duplicated and sorted. This gives the same sorted list that `sorted(set)` gives.
- Linking.BuildLinksLikeGroup: the result is `pd.DataFrame(rows)`. When metadata exists but no object is linked, the code gives a table without columns. Only empty metadata gives the six named columns. The model follows the code here.
