# drone2report configuration and record layer, in Dafny

drone2report turns drone orthomosaics plus region-of-interest shapefiles into per-region
vegetation-index tables. Around the raster work sits a layer of pure string and record logic:
- reading the `.ini` sections into datasets, analyses and renders;
- building a `Dataset` from a section;
- typing the task settings;
- naming and selecting ROI output files;
- parsing the list of requested indices;
- deciding which indices apply to which channels;
- laying out the columns of a result row.

This project models that layer and proves what it guarantees.

Modules, one per source file plus shared pieces:

- `Wrappers`, `Errors` (in `wrappers.dfy`): `Option`, `Result` and the Python exceptions the code
  raises, each with its message text.
- `Strings`: the `str` methods the code uses (`lower`, `split()`, `split(c)`, `join`,
  `replace(c, "")`, `list.index`, `rfind`), with ASCII case mapping, and `repr` of a string as
  error messages quote it.
- `Dicts`: Python dictionaries as an insertion-ordered key list plus a map. `Dict.Valid()` states
  that the keys are distinct and are exactly the map's domain. `d[k] = v` keeps an existing key in
  place and appends a new one. A dictionary-building loop whose values may raise is the fold
  `PutEach`.
- `Paths`: POSIX `os.path.basename`, `splitext` and `join`.
- `Config` (`d2r/config.py`): `read_config` over an already-read list of sections, plus its
  `parse_boolean` and `parse_channels`.
- `Misc` (`d2r/misc.py`): `get_file_corename_ext`, the second `parse_boolean`, `parse_channels`,
  `int()` and `parse_config`.
- `Datasets` (`d2r/dataset.py`): `Dataset.__init__` and `to_string`.
- `CollectTables` (`d2r/renders/collect_tables.py`): `_parse_infolders`.
- `Rois` (`d2r/tasks/ROIs.py`): the file stem, the selector, the empty-ROI message, `parse_config`,
  and the control flow of `_save_tif` and `_save_png`.
- `Indexes` (`d2r/tasks/indexes.py`): the index-name list, the `threshold` default, the row
  layout, the loop over index names, the loop over regions and the whole `run`.
- `PyModule`: the attributes Python binds in a module loaded from a source file, besides its
  `def`s: those the import system sets, and the module's imports.
- `MatrixIndexes`, `ArrayIndexes` (the two index modules): each module's namespace is modelled as
  its definitions in source order. A name is bound to its last definition, which is why the second
  `GNDVI` wins. Next to the definitions each namespace holds the attributes Python gives a module
  (`__name__`, `__doc__`, `__file__`, ...) and the import `np`, each with its type. `hasattr` and
  `getattr` see both, and calling an attribute that is not a function raises `TypeError`. The
  channel-availability rule of each matrix index and the shape of its result are modelled too.

Effects are parameters:
- The file-system test on an output file is `fileExists`.
- What raster extraction returned for a region is an `Option<Raster>`.
- The pixel counts before and after the threshold filter are given numbers.
- A setting that may be missing, such as `skip_if_already_done` or `png_stretch_to_0-255`, is an `Option`.
- A region's identifier is text or a value of another type, named by that type.
- Printed lines are returned as a list of strings next to the result.

An out-of-image region is meant to be reported and skipped. `ROIs.py:52-53` prints "Empty ROI,
selected by ..." for it, and `indexes.py:42` prints a warning and goes on to the next region.
`indexes.py` behaves that way as long as the identifier is text. `ROIs.py` does not: after its
message it reaches `rb.shape` / `rb[...]` on `None` (see Findings). A threshold is meant to filter
each region's pixels, but the filter function the code calls does not exist (see Findings). The
run is modelled with the filtered count as a given number.

## Model

| member | source | states |
|---|---|---|
| Strings.Lower | d2r/config.py:68 | `lower()` keeps the length and maps each character by itself: ASCII capitals to their small letters, everything else unchanged |
| Strings.Split | d2r/config.py:78 | `s.split(c)` gives one more piece than there are `c`s, no piece contains `c`, and joining the pieces with `c` gives `s` back |
| Strings.SplitJoin | d2r/config.py:78 | splitting on `c` undoes joining with `c` when no piece contains `c` |
| Strings.Remove | d2r/config.py:78 | `replace(c, "")` leaves no `c`, adds no character, and keeps the count of every other character |
| Strings.Words | d2r/config.py:41 | `split()` yields only non-empty pieces without whitespace |
| Strings.WordsJoin | d2r/config.py:46 | whitespace-splitting a single-space join of words gives the words back |
| Strings.WordsOfSpace | d2r/config.py:41 | a name made of whitespace only has no words |
| Strings.WordsOfWord | d2r/config.py:41 | a non-empty run without whitespace is one word |
| Strings.WordsSplitAtSpace | d2r/config.py:41 | a whitespace character splits the words: the words of `a + sp + b` are those of `a` followed by those of `b`, so no word spans whitespace and every maximal run becomes a word |
| Strings.QuoteFor | d2r/misc.py:43 | `repr` uses double quotes exactly when the text contains a single quote and no double quote |
| Strings.Repr | d2r/misc.py:43 | `repr` of a string is at least two characters longer and starts and ends with the chosen quote |
| Strings.ReprRoundTrip | d2r/misc.py:43 | decoding the escapes between the quotes gives the string back |
| Strings.ReprPlain | d2r/misc.py:43 | a printable string without quote or backslash is shown as itself between single quotes |
| Strings.IndexOf | d2r/tasks/matrix_returning_indexes.py:17-18 | `list.index` finds the first occurrence; absent names are reported (Python raises `ValueError`) |
| Dicts.Put | d2r/misc.py:41-45 | `d[k] = v`: an existing key keeps its position, a new key goes last, the map gets `k := v` and the dictionary stays valid |
| Dicts.PutEachFailure | d2r/misc.py:39-45 | a dictionary-building loop fails exactly when some value raises, with the first such error |
| Dicts.PutEachKeys | d2r/misc.py:39-45 | after the loop the keys are the old ones plus those assigned |
| Dicts.PutEachLastWins | d2r/misc.py:39-45 | a key holds the value of the last assignment to it |
| Dicts.PutEachUntouched | d2r/misc.py:39-45 | a key no item assigns to keeps its presence and value |
| Dicts.PutEachKeepsOrder | d2r/misc.py:39-45 | the keys present before the loop keep their positions at the front |
| Dicts.PutAllValues | d2r/tasks/indexes.py:80 | `d.update` with fixed keys: those keys hold the new value and every other key keeps its value |
| Paths.Basename | d2r/misc.py:20 | `basename` is the suffix after the last `/`: no `/` in it, and the path is some prefix plus it |
| Paths.SplitExt | d2r/misc.py:21 | `splitext`: root + ext is the path; ext is empty or a `.` followed by no `.` or `/`; ext is non-empty exactly when the last component has a dot preceded by a non-dot |
| Paths.Join | d2r/tasks/indexes.py:18 | `os.path.join`: an absolute second part replaces the first; otherwise the result starts with the folder and ends with the file name |
| Misc.GetFileCoreNameExt | d2r/misc.py:18-22 | core + ext is the final path component, neither part has `/`, ext is empty or one leading `.` with no other `.` |
| Misc.ParseBoolean | d2r/misc.py:24-30 | case-insensitively `yes/true/on` give True and `no/false/off` give False; anything else raises `ValueError` with the original text in the message |
| Misc.ParseBooleanAgrees | d2r/misc.py:24-30 | whatever this parser accepts, the configuration module's parser accepts with the same value |
| Misc.ParseBooleanDiffers | d2r/misc.py:24-30 | the two parsers differ exactly on `1`, `0`, `y`, `n` (any case), which only the configuration module accepts |
| Misc.ParseBooleanCase | d2r/misc.py:26-28 | lower-casing the argument does not change acceptance or value |
| Misc.ParseChannels | d2r/misc.py:32-34 | the task helpers' `parse_channels` equals the configuration module's |
| Misc.ParseInt | d2r/misc.py:43 | `int()` succeeds exactly on an optionally signed run of digits with surrounding whitespace (with no limit on the number of digits); anything else raises `ValueError` ending in the `repr` of the input, cut to 200 characters |
| Misc.ShortRepr | d2r/misc.py:43 | the message's quoted input is a prefix of the `repr`, at most 200 characters long, and the whole `repr` exactly when that fits |
| Misc.NotAnIntMessage | d2r/misc.py:43 | a `repr` of up to 200 characters is quoted in full; a longer one, as for every input of 199 characters or more, loses its end and closing quote |
| Misc.ParseIntRoundTrip | d2r/misc.py:43 | `int(str(n)) == n` for every integer, with no digit limit |
| Misc.ParseIntErrorSingleQuotes | d2r/misc.py:43 | `int("a")` raises the not-an-integer `ValueError`, quoting the input as `'a'` |
| Misc.ParseIntErrorDoubleQuotes | d2r/misc.py:43 | for `it's` the quoted input is `"it's"` |
| Misc.SingleQuotedMessage | d2r/misc.py:43 | the whole message for `a` is `invalid literal for int() with base 10: 'a'` |
| Misc.DoubleQuotedMessage | d2r/misc.py:43 | the whole message for `it's` is `invalid literal for int() with base 10: "it's"` |
| Misc.ConvertSetting | d2r/misc.py:40-45 | flag keys go through `parse_boolean`, `cores` through `int()`, every other key keeps its text, with the conversion's error on failure |
| Misc.ItemIsText | d2r/misc.py:44-45 | a key that is neither a flag nor `cores` is stored as its text |
| Misc.TextKeyItems | d2r/misc.py:44-45 | every assignment to such a key carries text |
| Misc.ParseConfigFailure | d2r/misc.py:39-45 | `parse_config` fails exactly when some setting does not convert, with the first error in key order |
| Misc.ParseConfigHasEveryKey | d2r/misc.py:39-46 | every lower-cased section key is in the result |
| Misc.ParseConfigOnlyLowerKeys | d2r/misc.py:39-46 | every result key is the lower-case form of some section key |
| Misc.ParseConfigLastWins | d2r/misc.py:39-46 | a result key holds the converted value of the last section key with that lower-case form |
| Misc.ParseConfig | d2r/misc.py:36-46 | the loop over the section keys computes the fold of the assignments |
| Config.OperationOf | d2r/config.py:49-60 | the operation word is exactly `DATA`, `ANALYSIS` or `RENDER`, case-sensitive |
| Config.ParseSectionName | d2r/config.py:41-46 | fewer than 2 or more than 3 words raise `Bad section name: <name>`; an unknown first word raises `Bad section name: <op>`; otherwise the title's words are the remaining words, joined by single spaces |
| Config.TitleShape | d2r/config.py:45-46 | a title has one or two words, no whitespace at either end, and only single spaces inside |
| Config.ParseSection | d2r/config.py:39-60 | a section becomes a dataset, analysis or render of its title, or fails with the name error or the dataset's error |
| Config.Add | d2r/config.py:49-58 | filing an entry adds exactly one element to the three lists together |
| Config.CollectFailurePersists | d2r/config.py:39-60 | once a section has failed, later sections do not change the outcome |
| Config.CollectSorts | d2r/config.py:39-61 | the loop fails exactly on the first failing section with its error; otherwise the datasets, analyses and renders are the sections of each kind in order, and they number the sections |
| Config.ReadConfig | d2r/config.py:34-61 | the same, for the method over the given sections |
| Config.ReadSections | d2r/config.py:39-61 | the loop with its invariant computes the fold over the parsed sections |
| Config.DatasetsOfAppend | d2r/config.py:50-51 | more sections only append datasets: order is kept |
| Config.SectionDatasetNaming | d2r/config.py:45-51 | a dataset from a DATA section has the first qualifier as non-empty series and the second, if any, as progressive number |
| Config.ParseBoolean | d2r/config.py:63-74 | case-insensitively `true/1/yes/y/on` give True and `false/0/no/n/off` give False; anything else raises `ValueError` quoting the lower-cased text |
| Config.ParseBooleanIgnoresCase | d2r/config.py:68 | `parse_boolean(s) == parse_boolean(lower(s))`, error included |
| Config.ParseChannels | d2r/config.py:76-78 | pieces have no space and no capital, number commas + 1, and joined with `,` give the lower-cased text without spaces |
| Datasets.SeriesAndProg | d2r/dataset.py:9-14 | series is the text before the first space; prog is absent exactly when there is no space, else the text up to the next space |
| Datasets.DoubleSpaceGivesEmptyProg | d2r/dataset.py:9-12 | two spaces after the series give an empty progressive number |
| Datasets.TypeOfLast | d2r/dataset.py:23-24 | the type is the value of the last key equal to `type` in any case |
| Datasets.CollectNames | d2r/dataset.py:21-22 | the metadata holds exactly the names of the accepted keys |
| Datasets.CollectValueAt | d2r/dataset.py:21-22 | a name holds the value of the last accepted key stored under it |
| Datasets.CollectKeys | d2r/dataset.py:25-26 | keys stored under their own name keep body order |
| Datasets.CollectValues | d2r/dataset.py:25-26 | keys stored under their own name keep their values |
| Datasets.Make | d2r/dataset.py:5-30 | construction fails exactly when no key names the type, with the source's message; otherwise name, series, prog and type are as the title and last type key give |
| Datasets.MakeMeta | d2r/dataset.py:21-22 | `meta` has one entry per `meta_` key, named by `k[5:]` in its original case, holding the last such key's value |
| Datasets.MakeConfig | d2r/dataset.py:25-26 | `config` holds the remaining keys in body order with their values |
| Datasets.KeysPartitioned | d2r/dataset.py:20-26 | every body key lands in exactly one of `meta`, the type, or `config` |
| Datasets.ToStringRoundTrip | d2r/dataset.py:32-33 | when the type has no `(`, the name and type are recovered from `to_string` by cutting at its last ` (` and dropping the closing `)` |
| CollectTables.Infolders | d2r/renders/collect_tables.py:7-12 | at most one value per key |
| CollectTables.ParseInfolders | d2r/renders/collect_tables.py:7-12 | the result is no longer than the configuration |
| CollectTables.InfoldersMembers | d2r/renders/collect_tables.py:9-11 | every `infolder*` value (any case) is collected and nothing else is |
| CollectTables.InfoldersEmpty | d2r/renders/collect_tables.py:8-12 | the result is empty exactly when no key starts with `infolder` |
| CollectTables.InfoldersAppend | d2r/renders/collect_tables.py:9-11 | key order is kept |
| Rois.Pairs | d2r/tasks/ROIs.py:29 | one `key=value` piece per geometry-index key |
| Rois.PairAt | d2r/tasks/ROIs.py:29 | piece `i` is key `i`, `=`, and its value |
| Rois.BuildStem | d2r/tasks/ROIs.py:27-29 | the stem is `ROI` and `_key=value` per key in order; a missing key raises `KeyError` for the first one |
| Rois.StemOfNoKeys | d2r/tasks/ROIs.py:27 | with no key the stem is `ROI` |
| Rois.StemRoundTrip | d2r/tasks/ROIs.py:27-29 | without `_` or `=` in keys and values, the stem splits back into `ROI` and the key/value pairs |
| Rois.SelectorFailure | d2r/tasks/ROIs.py:33 | the selector fails exactly where the stem does, with the same `KeyError` |
| Rois.SelectorKeys | d2r/tasks/ROIs.py:33 | the selector has exactly the geometry-index keys |
| Rois.SelectorValues | d2r/tasks/ROIs.py:33 | each selector key maps to the row's value |
| Rois.EmptyRoiMessage | d2r/tasks/ROIs.py:52 | the message of an empty selector is empty |
| Rois.EmptyRoiMessageRoundTrip | d2r/tasks/ROIs.py:52 | without commas in keys and values, the message splits back into the `key=value` pairs in selector order |
| Rois.ToBool | d2r/tasks/ROIs.py:114 | text goes through the task helpers' `parse_boolean`; any other value raises `AttributeError` |
| Rois.ParseConfigMeaning | d2r/tasks/ROIs.py:112-114 | the step fails exactly when a boolean setting does not convert, with the first error; otherwise the keys are unchanged |
| Rois.ParseConfigValue | d2r/tasks/ROIs.py:112-114 | the three settings hold their parsed booleans and every other setting is unchanged |
| Rois.BoolKeysAreText | d2r/tasks/ROIs.py:113 | none of the three is a flag or `cores` for the shared `parse_config` |
| Rois.ParseConfigAfterShared | d2r/tasks/ROIs.py:110-114 | after the shared parsing the step can fail only with `ValueError` |
| Rois.SaveTifAsWritten | d2r/tasks/ROIs.py:39-57 | as written, `_save_tif` fails exactly when the output file exists and `skip_if_already_done` is missing (`KeyError`), or on an empty region that is not skipped, after printing the empty-ROI line (`AttributeError`) |
| Rois.SaveTif | d2r/tasks/ROIs.py:39-57 | corrected: fails only on the missing setting; skips exactly when the file exists and the setting is true, reports an empty region, otherwise writes rows × cols × bands to `<stem>.tif` |
| Rois.SaveTifDiffersOnlyOnEmptyRoi | d2r/tasks/ROIs.py:44-54 | the two versions print the same and agree except on an empty region that gets past the skip test |
| Rois.SaveTifEmptyRoiCrashes | d2r/tasks/ROIs.py:51-57 | a concrete empty region `plot=7` prints its line and raises `AttributeError` on `rb.shape` |
| Rois.VisibleIndices | d2r/tasks/ROIs.py:95 | the visible channels' positions by `channels.index`, or `ValueError` with the `repr` of the first absent one |
| Rois.PngOf | d2r/tasks/ROIs.py:98-106 | a PNG is written exactly when every selected band exists and one to three are selected, with one more band for alpha; no band selected raises `IndexError` at the alpha mask, more than three raise Pillow's `TypeError` |
| Rois.PngOfFourVisibleFails | d2r/tasks/ROIs.py:106 | four visible bands plus alpha have no image mode |
| Rois.SavePngAsWritten | d2r/tasks/ROIs.py:75-98 | as written, a missing `skip_if_already_done` raises `KeyError` when the file exists; past the skip test a missing `png_stretch_to_0-255` raises `KeyError` before anything is printed; an empty region then prints its line and fails: `TypeError` when every visible channel is found, `ValueError` otherwise |
| Rois.SavePng | d2r/tasks/ROIs.py:75-106 | corrected: the two settings' `KeyError`s; an empty region is reported and does not fail; with a raster, a PNG is written exactly when one to three visible channels are all found and within its bands, with the raster's rows and columns plus alpha; an absent visible channel raises the `ValueError` naming it; no visible channel raises `IndexError` |
| Rois.SavePngDiffersOnlyOnEmptyRoi | d2r/tasks/ROIs.py:80-90 | the versions agree except on an empty region that reaches the extraction, where only the corrected one succeeds |
| Rois.SavePngEmptyRoiCrashes | d2r/tasks/ROIs.py:87-98 | a concrete empty region with RGB channels raises `TypeError` |
| Rois.SavePngWithoutStretchFails | d2r/tasks/ROIs.py:80-85 | a section without `png_stretch_to_0-255` fails with `KeyError` and prints nothing, even for an empty region, in both versions |
| Indexes.IndexNames | d2r/tasks/indexes.py:31 | names have no space or comma, number commas + 1, and joined with `,` give the setting without spaces |
| Indexes.IndexNamesKeepCase | d2r/tasks/indexes.py:31 | unlike channels, names keep their case: lower-casing first gives the channel parser's result |
| Indexes.IndexNamesRoundTrip | d2r/tasks/indexes.py:31 | names written as `a, b, c` parse back to the names |
| Indexes.IndexNamesExample | d2r/tasks/indexes.py:31 | `NDVI, GLI` gives `NDVI` and `GLI` |
| Indexes.ParseConfig | d2r/tasks/indexes.py:93-94 | `threshold` is always present afterwards: added last as `None` when absent, otherwise the settings are unchanged |
| Indexes.ParseConfigIdempotent | d2r/tasks/indexes.py:93-94 | applying the default twice is applying it once |
| Indexes.ThresholdIsTextOrNone | d2r/tasks/indexes.py:88-96 | after the shared parsing the threshold is text or `None` |
| Indexes.Description | d2r/tasks/indexes.py:46-51 | the row starts with `type`, `dataset`, `ortho_file`, `shapes_file`, `channels` |
| Indexes.PutSettings | d2r/tasks/indexes.py:53-54 | the literal's `threshold` and `pixels` entries are assigned after the earlier ones, which keep their places |
| Indexes.PutCounts | d2r/tasks/indexes.py:53-61 | then `pixels_after_threshold` is assigned |
| Indexes.BaseRowOrder | d2r/tasks/indexes.py:46-52 | the row begins with the description columns, then the geometry-index field unless it repeats one |
| Indexes.BaseRowColumns | d2r/tasks/indexes.py:46-61 | the row's columns are the description, the field, `threshold`, `pixels`, `pixels_after_threshold` |
| Indexes.BaseRowField | d2r/tasks/indexes.py:52 | unless a count column has the same name, the field holds `[i]`, the one-element list of the region's identifier |
| Indexes.BaseRowLists | d2r/tasks/indexes.py:46-61 | that list is the only list in the row, and it is there exactly when the field is not a count column |
| Indexes.BaseRowDescription | d2r/tasks/indexes.py:46-51 | a description column keeps the dataset's value unless the field has the same name |
| Indexes.BaseRowCounts | d2r/tasks/indexes.py:53-61 | the row holds the threshold and pixel count, and without a threshold both counts agree |
| Indexes.ChannelsColumnRoundTrip | d2r/tasks/indexes.py:51 | the `channels` column splits back into the channel names |
| Indexes.EffectOf | d2r/tasks/indexes.py:64-80 | one name raises when the module binds it to something other than a function (`TypeError` naming its type) or its matrix index raises `IndexError`; otherwise it adds the five statistic columns if matrix, then the array keys if array, with NaN statistics exactly when a channel is missing |
| Indexes.UnknownNameHasNoEffect | d2r/tasks/indexes.py:67-78 | a name in neither module adds nothing and raises nothing |
| Indexes.MatrixIndexColumns | d2r/tasks/indexes.py:67-74 | a matrix index adds exactly `_mean`, `_median`, `_std`, `_max`, `_min`, or raises `IndexError` |
| Indexes.AttributeNameRaises | d2r/tasks/indexes.py:67-68 | a name bound to a module attribute that is not an index passes `hasattr` and raises `TypeError: '<type>' object is not callable` |
| Indexes.DocStringRaises | d2r/tasks/indexes.py:67-68 | asking for the index `__doc__` raises `TypeError: 'str' object is not callable` |
| Indexes.Step | d2r/tasks/indexes.py:64-80 | one pass keeps the row valid and the existing columns in place |
| Indexes.StepValues | d2r/tasks/indexes.py:64-80 | a non-raising pass adds exactly its columns |
| Indexes.StepValueAt | d2r/tasks/indexes.py:64-80 | array columns hold numbers, other statistic columns the statistic, the rest their old value |
| Indexes.AddIndexes | d2r/tasks/indexes.py:64-80 | the loop keeps the row valid and its existing columns in place |
| Indexes.AddIndexesFailure | d2r/tasks/indexes.py:64-80 | the loop fails exactly when some name raises, with the first error |
| Indexes.AddIndexesColumns | d2r/tasks/indexes.py:64-80 | the row's columns are its starting ones plus every name's columns; untouched columns keep their values |
| Indexes.UnknownNameIgnored | d2r/tasks/indexes.py:64-80 | appending an unknown name changes nothing |
| Indexes.Row | d2r/tasks/indexes.py:44-80 | a built row is a valid dictionary |
| Indexes.RowColumns | d2r/tasks/indexes.py:44-80 | a row fails exactly when a name raises; a built row starts with the fixed columns and holds the five statistics of every matrix index requested |
| Indexes.RowErrors | d2r/tasks/indexes.py:64-80 | a row fails only with `IndexError` or `TypeError` |
| Indexes.Frame | d2r/tasks/indexes.py:83 | `DataFrame.from_dict` succeeds, with the row unchanged, exactly when some column holds a list; otherwise `ValueError: If using all scalar values, you must pass an index` |
| Indexes.RowLists | d2r/tasks/indexes.py:46-83 | a built row keeps a list exactly when the field is neither a count column nor a column of a requested index |
| Indexes.BuildFrame | d2r/tasks/indexes.py:46-83 | a region's row is built exactly when the field is not overwritten by a later column; otherwise pandas raises the all-scalar `ValueError` |
| Indexes.PixelsFieldFails | d2r/tasks/indexes.py:52-54 | a geometry field called `pixels` is overwritten by the count and the row fails |
| Indexes.BuildAsWritten | d2r/tasks/indexes.py:59-60 | as written, any threshold other than `None` raises `AttributeError` at the call to the missing `thresholded_filter` |
| Indexes.BuildAsWrittenDiffers | d2r/tasks/indexes.py:58-61 | the written and corrected row builders agree exactly when no threshold is set; with one, the written builder always fails and the corrected one never with that error |
| Indexes.Inside | d2r/tasks/indexes.py:37-42 | the regions with a raster, in order |
| Indexes.Warnings | d2r/tasks/indexes.py:40-42 | at most one warning per region outside the image, so warnings and inside regions together never outnumber the regions |
| Indexes.RowsOfInside | d2r/tasks/indexes.py:37-83 | a completed loop printed the warnings and built exactly one row per region inside, each that region's row |
| Indexes.OutsideRegionsIgnored | d2r/tasks/indexes.py:40-42 | regions outside the image with text identifiers contribute no row |
| Indexes.OutsideTextRows | d2r/tasks/indexes.py:40-42 | regions outside the image with text identifiers only print their warnings |
| Indexes.OtherIdOutsideAborts | d2r/tasks/indexes.py:42 | the first outside region whose identifier is not text ends the loop with `TypeError: can only concatenate str (not "<type>") to str`, after the earlier warnings |
| Indexes.RunWithNumericIdOutsideFails | d2r/tasks/indexes.py:37-42 | a run whose first region is outside with an `int` identifier prints nothing and raises that `TypeError` |
| Indexes.OutputFile | d2r/tasks/indexes.py:16-18 | the output path ends in `indexes_<title>_<core>.csv` and starts with the output folder |
| Indexes.RunReachedLoop | d2r/tasks/indexes.py:14-86 | a run that writes got string `outfolder` and `indexes` settings and ended with the loop over the regions |
| Indexes.RunWritesInsideRows | d2r/tasks/indexes.py:14-86 | a written table goes to the output file and has one row per region inside the image, at least one, and `threshold` was set |
| Indexes.RunWritesRowOfRegion | d2r/tasks/indexes.py:37-86 | the i-th written row is the row of the i-th region inside the image |
| Indexes.RunWithoutInsideRegionFails | d2r/tasks/indexes.py:28-86 | with every region outside and named by text, the run prints one warning each and then fails on `df.to_csv` because `df` is `None` |
| Indexes.FinishWithoutInside | d2r/tasks/indexes.py:37-86 | the same for the loop and the write alone |
| MatrixIndexes.Bound | d2r/tasks/matrix_returning_indexes.py:43-66 | a name is bound to a definition with that name, and to none exactly when no definition has it |
| PyModule.AttributeType | d2r/tasks/matrix_returning_indexes.py:1-12 | a name is a module attribute exactly when the table of module attributes and imports lists it, with its type |
| PyModule.AttributeNameShape | d2r/tasks/matrix_returning_indexes.py:1-12 | every such attribute starts with `_` or is `np`, so none can clash with an index name |
| PyModule.DocString | d2r/tasks/matrix_returning_indexes.py:1-10 | a module that opens with a docstring binds `__doc__` to a `str` |
| MatrixIndexes.Lookup | d2r/tasks/matrix_returning_indexes.py:12-142 | `getattr` finds an index exactly for a defined name, and a non-index of the right type exactly for a module attribute or `np` |
| MatrixIndexes.GndviIsRedefined | d2r/tasks/matrix_returning_indexes.py:43-66 | `GNDVI` is the second definition, needing `800` and `670` and no longer `540:570` |
| MatrixIndexes.Apply | d2r/tasks/matrix_returning_indexes.py:14-26 | not applicable exactly when a required channel is missing; `IndexError` only for a band beyond the image; otherwise a rows × cols matrix |
| MatrixIndexes.DefinitionsWellFormed | d2r/tasks/matrix_returning_indexes.py:14-142 | every definition reads exactly the channels it looks up |
| MatrixIndexes.ApplyShape | d2r/tasks/matrix_returning_indexes.py:23-26 | the result is a rows × cols matrix exactly when every required channel is among the image's bands |
| MatrixIndexes.NdviIsFirst | d2r/tasks/matrix_returning_indexes.py:14 | `NDVI` is bound to its only definition |
| MatrixIndexes.NdviApplicability | d2r/tasks/matrix_returning_indexes.py:14-26 | NDVI is not applicable exactly when `red` or `nir` is missing |
| MatrixIndexes.GliChannels | d2r/tasks/matrix_returning_indexes.py:28-41 | GLI needs `red`, `green`, `blue` |
| MatrixIndexes.VariGreenChannels | d2r/tasks/matrix_returning_indexes.py:96-109 | VARIgreen needs `459:490`, `545:565`, `620:680` |
| MatrixIndexes.LookupIsCaseSensitive | d2r/tasks/matrix_returning_indexes.py:17-18 | `RED` does not stand for `red` |
| MatrixIndexes.LookupUsesFirstOccurrence | d2r/tasks/matrix_returning_indexes.py:17-18 | a repeated channel name resolves to its first band |
| MatrixIndexes.RandomMatrixAlwaysApplies | d2r/tasks/matrix_returning_indexes.py:140-142 | `random_matrix` always gives a rows × cols matrix |
| MatrixIndexes.NdviOnTestImage | tests/test_indexes.py:5-13 | NDVI on the 2 × 3 `red`/`nir` test image gives a 2 × 3 matrix |
| ArrayIndexes.Lookup | d2r/tasks/array_returning_indexes.py:13-24 | `getattr` finds `random_array` and `summation`, and the module attributes and `np` as non-indices |
| ArrayIndexes.ArrayKeys | d2r/tasks/array_returning_indexes.py:15-24 | `random_array` adds `first_random_value`, `second_random_value`; `summation` adds `summation` |
| ArrayIndexes.SharedAttributes | d2r/tasks/array_returning_indexes.py:1-13 | no name is an index of both modules; the names both modules have are exactly the module attributes and `np`, with the same types |

## Left out

- Raster extraction (`get_geom_raster`, coordinate transforms, masking), GDAL, PIL and numpy
  arithmetic: not in the modelled files. A raster is its shape and two pixel counts.
- The value of `png_stretch_to_0-255`: it only tells the extraction whether to rescale the pixels
  to 0-255, and pixel values are not modelled. Only whether the setting is present matters.
- The numeric values of the indices and their statistics: floating point. A statistic cell is
  `Number` or `NaN`.
- Indexes.AfterFilter: `d2r.misc.thresholded_filter` is not defined in d2r/misc.py (see Findings),
  so there is no filter to model. The corrected run takes the count after filtering as a given
  number, `pixelsAfterFilter`.
- `random_array`, `summation` and `random_matrix` values: random or floating point. Only their keys
  and shape are modelled.
- `find_case_insensitve`, `mkdir`/`pathlib`, CSV/TIFF/PNG writes and `tqdm`: file-system effects.
  The file-exists test is the `fileExists` parameter.
- Reading the `.ini` file with `configparser` and its interpolation (d2r/config.py:25-31).
  `read_config` starts from the list of sections.
- The `Dataset`, `Analysis` and `Render` factories' dynamic loading. Analyses and renders keep
  their title and body.
- The base `parse_config` that `super()` calls in ROIs.py:110 and indexes.py:90: `Task` defines
  none. The tasks' steps are modelled on their own, and also on the output of the task helpers'
  `parse_config`.
- `collect_tables.run`: only a print.
- The rest of ROIs `run` (d2r/tasks/ROIs.py:14-24, 30, 36-37): the output folder, the per-row loop and
  the `tif`/`png` dispatch are file-system and data-frame plumbing. The stem and selector built
  inside the loop are modelled.
- Strings.Lower: ASCII letters only; Python's full Unicode case mapping is not modelled.
- Misc.ParseInt: only ASCII digits and an optional sign between whitespace; underscores and
  non-ASCII digits, which `int()` also accepts, are not modelled. The message quotes the input
  with `Strings.Repr`, which has the limits below, cut to 200 characters as `%.200R` does. The
  limit on the number of digits of Python 3.11 and later (4300 by default, adjustable at run
  time, absent from earlier releases) is not modelled: a longer literal is parsed here, where
  such an interpreter raises a different `ValueError`.
- Misc.ParseIntRoundTrip: holds for every integer because neither `str()` nor `int()` is given
  that digit limit; under it, both refuse integers of more than 4300 digits.
- Strings.Repr: only ASCII control characters and DEL are escaped (`\t`, `\n`, `\r`, `\xhh`);
  non-ASCII characters Python deems unprintable are shown as themselves.
- MatrixIndexes.Lookup: attributes a module gets from its type (`__class__`, `__dict__`,
  `__repr__`, ...) count as absent; only the attributes bound in the module's own namespace are
  listed.
- ArrayIndexes.Lookup: the same.
- Rois.PngOf: Pillow's `TypeError` message is the one its `fromarray` gives for an 8-bit array of
  5 or more bands; the mask of a raster without masked pixels is not modelled.
- Rois.SelectorKeys: states the selector's key set; its key order, which follows the geometry
  index, is not proved.
- Rois.BuildStem: row values are text; `str()` of other value types is not modelled.
- Indexes.EffectOf: the statistic values are not computed, only whether they are NaN.

## Findings

| source | as written | input that shows it | evidently intended | confidence | as-written member | corrected member |
|---|---|---|---|---|---|---|
| d2r/tasks/ROIs.py:54 | after printing "Empty ROI", the statement `next` only names the built-in and does not leave `_save_tif`, so `rb.shape` runs on `None` and raises `AttributeError` | a region outside the image (`rb` is `None`), selector `plot=7`, no output file yet | report the empty region and save nothing | not executed | Rois.SaveTifAsWritten (counterexample Rois.SaveTifEmptyRoiCrashes) | Rois.SaveTif |
| d2r/tasks/indexes.py:60 | a threshold is applied with `d2r.misc.thresholded_filter`, which d2r/misc.py does not define, so any threshold other than `None` raises `AttributeError` at the first region inside the image | `threshold = 0.5` and a region inside the image | count the pixels left after filtering | not executed | Indexes.BuildAsWritten (Indexes.BuildAsWrittenDiffers) | Indexes.Build (Indexes.BuildFrame, Indexes.RunWritesRowOfRegion) |
| d2r/tasks/ROIs.py:90 | the same `next` in `_save_png`: the visible channels are looked up and `rb[:,:,selected]` on `None` raises `TypeError` | the same region with channels and visible channels `red`, `green`, `blue` | report the empty region and save nothing | not executed | Rois.SavePngAsWritten (counterexample Rois.SavePngEmptyRoiCrashes) | Rois.SavePng |
