# DELTA: tiled processing, Landsat MTL parsing and configuration, in Dafny

This project models three parts of DELTA (Deep Earth Learning, Tools, and
Analysis):

- **Tiled apply.** `apply_function_to_file` cuts an image into output tiles
  and applies a user function to each tile. The tile size is the reader's
  native block size unless the user gives one. The image is divided into a
  row-major grid of `ceil(cols / tw) x ceil(rows / th)` tiles, each clipped
  to the image. For every ROI, the callback crops the block the reader
  delivered to that ROI, transforms it, and writes it at its tile
  coordinate.
- **Landsat metadata.** `allocate_bands_for_spacecraft` and
  `parse_mtl_file` read the per-band coefficients from a Landsat MTL
  file. The file is read line by line. A spacecraft line allocates the
  band tables. Each line naming a `<TAG>_BAND<n>` entry stores its value
  at Python index `n - 1` of that tag's table.
- **Configuration.** This covers two pieces:
  - `DeltaConfigComponent`, one section of the configuration tree: field
    and subcomponent registration, typed and validated value setting,
    dictionary loading, reset, and command-line argument setup and
    parsing;
  - the older INI loader `parse_config_file`, which checks the required
    entries and fills in defaults.

The model is functional. A Python exception is an `Err` of a `Result`, or
a `None`. `_load_dict` mutates the component before it can raise, so its
model returns the partly loaded component together with the error that
stopped it. Python's `int()`, `float()`, `str.split`, `str.strip`,
`isinstance` (with `bool` a subclass of `int`) and truthiness are written
out in `strings.dfy` and `values.dfy`. List indexing, where negative
indices count from the end, is `Mtl.PyIndex` in `mtl.dfy`.

Modules:
- `Wrappers`: Option and Result.
- `Strings`: the Python `str` operations used.
- `Values`: dynamically typed configuration values.
- `Rectangles`: the ROI rectangle and its intersection.
- `Planner`: tile size and ROI grid.
- `Dispatch`: the callback, the reader and writer contracts, and the end
  to end apply.
- `Mtl`: MTL parsing.
- `ConfigComponent`: `DeltaConfigComponent`.
- `ConfigFile`: `parse_config_file`.

## Model

| member | source | states |
|---|---|---|
| Planner.OutputTileSize | delta/scripts/landsat_toa.py:62-66 | each axis takes the user's size when positive and the native block size otherwise; a positive native block gives a positive tile |
| Planner.CeilDiv | delta/scripts/landsat_toa.py:71-72 | the tile count per axis is the least `q` with `q * t >= n`, that is `ceil(n / t)` |
| Planner.PlanRois | delta/scripts/landsat_toa.py:83-91 | the nested loops produce exactly one clipped ROI per grid cell, `nx * ny` of them, in row-major order |
| Planner.PlanRowMajor | delta/scripts/landsat_toa.py:83-91 | the ROI of cell `(c, r)` sits at list position `r * nx + c` and starts at `(c * tw, r * th)` |
| Planner.PlanCell | delta/scripts/landsat_toa.py:83-91 | list position `k` is grid cell `(k % nx, k / nx)`, inside the grid |
| Planner.PlannedRoiShape | delta/scripts/landsat_toa.py:83-91 | every planned ROI lies inside the image, is non-empty and starts on a tile corner; interior tiles are full-sized and the last column and row are clipped to the image edge |
| Planner.PlannedRoiContains | delta/scripts/landsat_toa.py:83-91 | tile `(c, r)` holds pixel `(x, y)` exactly when the pixel is in the image and `x / tw == c`, `y / th == r` |
| Planner.PlanPixelOwner | delta/scripts/landsat_toa.py:83-91 | the ROI at position `k` holds a pixel exactly when the pixel is in the image and `k` is its cell's position |
| Planner.PlanPartitions | delta/scripts/landsat_toa.py:83-91 | the ROIs are pairwise disjoint and together cover exactly the image |
| Planner.PlanRoiGeometry | delta/scripts/landsat_toa.py:83-101 | each ROI is non-empty, inside the image, and its corner divided by the tile size is its cell, inside the grid |
| Planner.PlanTileCoordsDistinct | delta/scripts/landsat_toa.py:83-101 | two different ROIs of a plan get different tile coordinates |
| Rectangles.Intersection | delta/scripts/landsat_toa.py:90 | the intersection is valid and holds exactly the pixels lying in both rectangles |
| Rectangles.IntersectionMaximal | delta/scripts/landsat_toa.py:90 | every non-empty rectangle inside both lies inside the intersection |
| Rectangles.IntersectionOfContained | delta/scripts/landsat_toa.py:90 | clipping a rectangle that already fits the image leaves it unchanged |
| Dispatch.CropOffsets | delta/scripts/landsat_toa.py:106-109 | the crop box has the output ROI's size and, shifted by the read ROI's corner, lands on the output ROI's corner; it lies inside the read block when the read ROI contains the output ROI |
| Dispatch.CropIsWindow | delta/scripts/landsat_toa.py:106-112 | cropping the delivered read block gives exactly the image pixels of the output ROI |
| Dispatch.Callback | delta/scripts/landsat_toa.py:96-118 | one callback writes `f` of the output ROI's image pixels at tile coordinate `(min_x / tw, min_y / th)` |
| Dispatch.ProcessRois | delta/scripts/landsat_toa.py:121 | one write per ROI, in ROI order, each at its ROI's tile coordinate and holding `f` of its pixels |
| Dispatch.Mosaic | delta/scripts/landsat_toa.py:118 | the writer's output has a block at every coordinate written to and at no other coordinate |
| Dispatch.MosaicOfDistinct | delta/scripts/landsat_toa.py:118 | when tile coordinates are distinct, every write survives in the writer's output, and each written coordinate is written once |
| Dispatch.DispatchCoords | delta/scripts/landsat_toa.py:100-101 | over a plan, write `k` goes to cell `(k % nx, k / nx)` of the grid, and no two writes share a coordinate |
| Dispatch.DispatchCellWrite | delta/scripts/landsat_toa.py:83-121 | the write for cell `(c, r)` is the one at position `r * nx + c`, holding `f` of that tile's pixels |
| Dispatch.DispatchMosaicCell | delta/scripts/landsat_toa.py:83-121 | grid cell `(c, r)` is written exactly once and ends up holding `f` of tile `(c, r)` |
| Dispatch.DispatchCoversGrid | delta/scripts/landsat_toa.py:83-121 | every grid cell is written once, with its own tile's transform |
| Dispatch.DispatchStaysInGrid | delta/scripts/landsat_toa.py:83-121 | nothing outside the grid is written |
| Dispatch.DispatchWritesEveryTileOnce | delta/scripts/landsat_toa.py:83-121 | the written coordinates are exactly the grid cells, each written exactly once, with its tile's transform |
| Dispatch.TileOffsetPixel | delta/scripts/landsat_toa.py:83-121 | image pixel `(x, y)` sits at offset `(x % tw, y % th)` of the tile at `(x / tw, y / th)` |
| Dispatch.IdentityRoundTrip | delta/scripts/landsat_toa.py:83-121 | with the identity as user function, the written tiles reassemble the input image pixel for pixel |
| Dispatch.ApplyFunctionToFile | delta/scripts/landsat_toa.py:42-125 | the tile size is the user's or the native one per axis; the output has one block per grid cell and none elsewhere, each `f` of that cell's clipped tile |
| Mtl.AllocateBands | delta/scripts/landsat_toa.py:135-152 | Landsat 5, 7 and 8 get tables of 7, 8 and 11 bands, with file names `''`, additive terms 0, multiplicative terms and K constants 1; any other id is a KeyError |
| Mtl.Repeat | delta/scripts/landsat_toa.py:144-150 | `[c] * n` has length `n` and every entry is `c` |
| Mtl.SpacecraftId | delta/scripts/landsat_toa.py:173 | the spacecraft id holds no `_` and no whitespace at either end |
| Mtl.TagIndex | delta/scripts/landsat_toa.py:161-163 | each tag has a position among the seven desired tags |
| Mtl.DesiredTagsEach | delta/scripts/landsat_toa.py:161-163 | the desired-tag list names every tag, each once |
| Mtl.PyIndex | delta/scripts/landsat_toa.py:191-193 | a list index is accepted exactly when `-len <= i < len`, and a negative index counts from the end |
| Mtl.Storable | delta/scripts/landsat_toa.py:190-193 | every value `int()` accepts can be stored under any tag, and a tag other than FILE_NAME rejects an empty or all-whitespace value |
| Mtl.LineBand | delta/scripts/landsat_toa.py:182-186 | a band is read only when the text after the last `_` of the stripped name is an optionally signed digit run |
| Mtl.LineValue | delta/scripts/landsat_toa.py:182-184 | the value text holds no `=` and no whitespace at either end |
| Mtl.TagLineFields | delta/scripts/landsat_toa.py:182-186 | a line `name=rest` takes its band from `name` alone, and its value is `rest` stripped when `rest` holds no further `=` |
| Mtl.TagStep | delta/scripts/landsat_toa.py:177-193 | a tag the line does not name leaves the data alone; a write keeps every table and the band count |
| Mtl.NamedTagStep | delta/scripts/landsat_toa.py:182-193 | a named tag either leaves the loop or writes into existing storage, keeping every table and the band count |
| Mtl.BandStep | delta/scripts/landsat_toa.py:190-193 | a store succeeds only with existing storage, and keeps every table and the band count |
| Mtl.ScanTags | delta/scripts/landsat_toa.py:177-193 | the tag loop keeps storage present or absent as it was, keeps the tables well formed and the band count fixed, and never reports a missing file |
| Mtl.WriteEntry | delta/scripts/landsat_toa.py:190-193 | `data[tag][idx] = e` sets that entry and changes no other entry and no other table |
| Mtl.ParseLine | delta/scripts/landsat_toa.py:169-193 | one line keeps the tables well formed |
| Mtl.ParseLines | delta/scripts/landsat_toa.py:166-193 | the fold over the lines keeps the tables well formed |
| Mtl.ParseMtl | delta/scripts/landsat_toa.py:154-198 | a missing file, and only a missing file, is reported as not found; parsed storage is well formed |
| Mtl.ScanNoMatch | delta/scripts/landsat_toa.py:177-179 | a line naming none of the tags leaves the data unchanged |
| Mtl.ScanContinueNonInteger | delta/scripts/landsat_toa.py:185-188 | once the band suffix is not an integer, no later tag changes anything either |
| Mtl.BreakMatchesContinue | delta/scripts/landsat_toa.py:185-188 | leaving the loop on a non-integer band gives the same result as skipping that tag and going on |
| Mtl.TagStepWrites | delta/scripts/landsat_toa.py:186-193 | a named tag with a value, an integer band and an accepted value writes exactly entry `band - 1` |
| Mtl.ScanOneMatch | delta/scripts/landsat_toa.py:177-193 | a line naming exactly one tag writes exactly that tag's entry |
| Mtl.QuotesIgnored | delta/scripts/landsat_toa.py:169 | a line parses as it does with its double quotes removed |
| Mtl.UnrecognisedLineIgnored | delta/scripts/landsat_toa.py:169-179 | a line with neither the spacecraft marker nor a tag pattern changes nothing |
| Mtl.SpacecraftLineAllocates | delta/scripts/landsat_toa.py:169-179 | a spacecraft line discards earlier data and yields fresh storage for its id, or fails on an unknown id |
| Mtl.NonIntegerBandIgnored | delta/scripts/landsat_toa.py:185-188 | a tag line whose band suffix is not an integer changes nothing |
| Mtl.TagLineWithoutValueFails | delta/scripts/landsat_toa.py:182-184 | a tag line without `=` raises IndexError, whatever came before |
| Mtl.ScanFailsWithoutValue | delta/scripts/landsat_toa.py:182-184 | in the tag loop, a named tag without a value raises |
| Mtl.ParseLineNoMarker | delta/scripts/landsat_toa.py:169-177 | a quote-free line without the spacecraft marker is just the tag loop |
| Mtl.TagLineWritesOneEntry | delta/scripts/landsat_toa.py:186-193 | a single-tag line with band `n` stores its value (text for FILE_NAME, a float otherwise) at Python index `n - 1` and changes nothing else |
| Mtl.TagLineBandOutOfRange | delta/scripts/landsat_toa.py:186-193 | a band outside `-N+1..N` raises IndexError with index `band - 1` |
| Mtl.TagLineBadFloatFails | delta/scripts/landsat_toa.py:192-193 | a value `float()` rejects raises ValueError, before storage or band are looked at |
| Mtl.ScanBadFloat | delta/scripts/landsat_toa.py:177-193 | in the tag loop, a named tag whose value `float()` rejects raises |
| Mtl.TagLineBeforeSpacecraftFails | delta/scripts/landsat_toa.py:186-193 | a tag line before any spacecraft line raises TypeError |
| Mtl.ScanWithoutStorage | delta/scripts/landsat_toa.py:186-193 | in the tag loop, a named tag with an integer band raises while there is no storage |
| Mtl.ScanBandOutOfRange | delta/scripts/landsat_toa.py:186-193 | in the tag loop, a named tag whose band does not index its table raises |
| Mtl.TagStepOutOfRange | delta/scripts/landsat_toa.py:186-193 | one tag step with an out-of-range band raises IndexError |
| Mtl.ParseLinesAppend | delta/scripts/landsat_toa.py:166-193 | parsing is a left fold: a file split in two parses as its first part, then its second |
| Strings.ContainsIffOccurs | delta/scripts/landsat_toa.py:179 | `t in s` holds exactly when `t` occurs in `s` at some offset |
| Strings.Contains | delta/scripts/landsat_toa.py:179 | the empty text is in every text, and a text found in another is no longer than it |
| Strings.SplitJoin | delta/scripts/landsat_toa.py:182 | splitting the join of separator-free fields gives those fields back |
| Strings.JoinSplit | delta/scripts/landsat_toa.py:182 | joining the fields of a split gives the text back |
| Strings.Split | delta/scripts/landsat_toa.py:182 | `s.split(sep)` always has at least one field |
| Strings.LastField | delta/scripts/landsat_toa.py:173 | `s.split(sep)[-1]` holds no separator |
| Strings.StripSpec | delta/scripts/landsat_toa.py:183-184 | `strip()` leaves no whitespace at either end and removes only whitespace from the ends |
| Strings.Strip | delta/scripts/landsat_toa.py:183-184 | the result has no whitespace at either end and is no longer than the text |
| Strings.StripKeepsAbsent | delta/scripts/landsat_toa.py:173 | stripping introduces no character: one absent from the text is absent from the result |
| Strings.StripIdempotent | delta/scripts/landsat_toa.py:183-184 | stripping twice is stripping once |
| Strings.RemoveCharMultiset | delta/scripts/landsat_toa.py:169 | `replace('"', '')` removes every quote and keeps every other character with its multiplicity |
| Strings.RemoveCharAbsent | delta/scripts/landsat_toa.py:169 | removing a character the text lacks changes nothing |
| Strings.RemoveChar | delta/scripts/landsat_toa.py:169 | the removed character no longer occurs and the text does not grow |
| Strings.ParseShowInt | delta/scripts/landsat_toa.py:186 | `int(str(n)) == n` for every integer |
| Strings.ParseIntIgnoresPadding | delta/scripts/landsat_toa.py:186 | whitespace around the text does not change what `int()` reads |
| Strings.ParseInt | delta/scripts/landsat_toa.py:186 | `int()` accepts exactly the texts that are, once stripped, an optional sign and a digit run (underscores between digits allowed); a negative result needs a leading `-`, and a leading `-` gives no positive result |
| Strings.IntTextIsFloatText | delta/scripts/landsat_toa.py:193 | every text `int()` accepts, `float()` accepts too |
| Strings.FloatTextExamples | delta/scripts/landsat_toa.py:193 | `float()` accepts `2.5e-3` and `-INF` and rejects `1.2.3` and `e5` |
| Strings.IsFloatText | delta/scripts/landsat_toa.py:193 | `float()` rejects empty and all-whitespace text |
| Values.PyInt | delta/config.py:71 | `int()` passes integers through, maps booleans to 0 and 1, truncates floats toward zero, reads a string as `int()` of its text, and raises on None, lists and dictionaries |
| Values.Truncate | delta/config.py:71 | float-to-int conversion rounds toward zero |
| Values.PyIntOfText | delta/config.py:71 | `int()` of an integer's text, or of an integer-valued float, is that integer |
| Values.BoolIsInt | delta/config/config.py:116 | a boolean is an instance of `int` as well as of `bool` |
| Values.IsInstanceExact | delta/config/config.py:116 | a value other than a boolean is an instance exactly when its own class is listed |
| ConfigComponent.ValidatePath | delta/config/config.py:24-31 | `"default"` is returned verbatim; other paths are expanded and, with a truthy base directory, joined to it and normalised; a non-string raises |
| ConfigComponent.ValidatePathIgnoresFalsyBase | delta/config/config.py:29-30 | a base directory of None and of `""` behave alike: the path is only expanded |
| ConfigComponent.ValidatePositive | delta/config/config.py:33-36 | a number greater than zero is returned unchanged; zero, negatives and non-numbers raise |
| ConfigComponent.Validate | delta/config/config.py:118-120 | without a validator the value is kept; a validator never changes the value's class |
| ConfigComponent.NewComponent | delta/config/config.py:50-61 | a new component has no values, fields or subcomponents, and keeps its section header |
| ConfigComponent.DeclFor | delta/config/config.py:92-95 | a name has a declaration in force exactly when it was registered |
| ConfigComponent.FindSub | delta/config/config.py:75-76 | a subcomponent is found exactly when its name is registered, at a position holding that name |
| ConfigComponent.RegisterComponent | delta/config/config.py:71-79 | registration succeeds exactly when the name is new; it then appends the subcomponent and changes nothing else |
| ConfigComponent.FindSubAppend | delta/config/config.py:75-76 | a newly registered subcomponent is found at the end |
| ConfigComponent.RegisterField | delta/config/config.py:81-96 | the name is appended, its new declaration replaces any earlier one, and other names, values and subcomponents are untouched |
| ConfigComponent.SetField | delta/config/config.py:113-124 | an unregistered name is a ValueError, a non-None value of the wrong type a TypeError, and a well-typed value the validator rejects is re-raised as that value's error; None is stored unchecked; on success only that name's value changes, a non-None value is stored as the validator returned it (unchanged without a validator) and has a declared type |
| ConfigComponent.ReplaceSub | delta/config/config.py:132 | updating one subcomponent in place keeps every other subcomponent, the names and the registrations |
| ConfigComponent.LoadDict | delta/config/config.py:126-134 | loading never changes registrations, and a non-dictionary argument raises before anything is stored; what a dictionary stores is `ConfigComponent.LoadDictStores` |
| ConfigComponent.LoadItems | delta/config/config.py:130-134 | loading the entries in order never changes registrations; `ConfigComponent.LoadItemsAppend` and `ConfigComponent.LoadItemsStores` state what it stores |
| ConfigComponent.ReplaceSubSound | delta/config/config.py:113-134 | replacing a subcomponent with a sound one keeps the tree sound |
| ConfigComponent.LoadDictSound | delta/config/config.py:113-134 | after loading, even when it stops on an exception, every stored value belongs to a registered field and is None or of its declared types |
| ConfigComponent.LoadItemsSound | delta/config/config.py:113-134 | loading entries keeps the tree sound |
| ConfigComponent.LoadItemsFrame | delta/config/config.py:130-134 | a stored value whose key the loaded dictionary does not name is kept |
| ConfigComponent.LoadDelegatesToSub | delta/config/config.py:131-132 | an entry naming a subcomponent loads that subcomponent and leaves the rest alone |
| ConfigComponent.LoadSetsField | delta/config/config.py:133-134 | an entry naming no subcomponent is set as a field |
| ConfigComponent.LoadItemsAppend | delta/config/config.py:130-134 | loading is a left fold: loading `a + b` loads `a`, stops if that raised, and otherwise loads `b` into the result |
| ConfigComponent.LoadItemsStores | delta/config/config.py:113-134 | after a load that raised nothing, a key naming no subcomponent is a registered field holding what `_set_field` stored for its last entry: None as given, any other value as its validator returned it |
| ConfigComponent.LoadItemsStoresFirst | delta/config/config.py:113-134 | the same for the first entry, when no later entry has its key |
| ConfigComponent.LoadDictStores | delta/config/config.py:126-134 | the same for `_load_dict` of a dictionary |
| ConfigComponent.Reset | delta/config/config.py:63-69 | reset keeps all registrations and leaves no value anywhere in the tree |
| ConfigComponent.ResetSubs | delta/config/config.py:68-69 | every subcomponent is reset under its own name |
| ConfigComponent.ResetDependsOnlyOnShape | delta/config/config.py:63-69 | what reset produces depends only on the registrations |
| ConfigComponent.ResetIdempotent | delta/config/config.py:63-69 | resetting twice is resetting once |
| ConfigComponent.ResetUndoesLoad | delta/config/config.py:63-69 | reset after any load, successful or not, gives what reset before it gives |
| ConfigComponent.DestName | delta/config/config.py:146 | the destination has the flag's length, every `-` of the flag becomes `_` and every other character is kept |
| ConfigComponent.OptionFor | delta/config/config.py:160-167 | an option is taken exactly when the field is registered with a flag and the options hold a non-None value at that flag's destination, and then it is that value |
| ConfigComponent.ExtendArgs | delta/config/config.py:159-167 | adding a new key keeps the collected dictionary made of given options, each key once |
| ConfigComponent.CollectArgsSpec | delta/config/config.py:159-167 | the collected dictionary holds only given options, each key once, and a key for every field whose option was given |
| ConfigComponent.ArgItems | delta/config/config.py:159-167 | the dictionary handed to `_load_dict` has exactly the fields whose option was given, with those values, each once |
| ConfigComponent.CollectArgsWithoutOptions | delta/config/config.py:159-167 | with no options the collected dictionary is empty |
| ConfigComponent.CollectArgs | delta/config/config.py:159-167 | collecting keeps the entries already collected, in order, and adds at most one entry per remaining field |
| ConfigComponent.FieldArgumentsCover | delta/config/config.py:142-147 | every field whose declaration in force has a flag gets an argument with that flag, destination and types |
| ConfigComponent.FieldArguments | delta/config/config.py:142-147 | every field argument is in the given group and its destination is its flag with `-` replaced by `_` |
| ConfigComponent.SubArguments | delta/config/config.py:149-151 | every subcomponent argument's destination is its flag with `-` replaced by `_` |
| ConfigComponent.SetupArgParser | delta/config/config.py:136-151 | every argument's destination is its flag with `-` replaced by `_`; without subcomponents every argument is in the component's own group, or the enclosing one when it has no header |
| ConfigComponent.ParseArgsReadsDeclaredDests | delta/config/config.py:136-167 | each value parse_args loads for a field equals the option at the destination of the argument setup_arg_parser adds for that field's flag, with its declared types, in the group in force |
| ConfigComponent.ParseArgs | delta/config/config.py:153-171 | parsing options never changes registrations; `ConfigComponent.ParseArgsStores` states what it stores |
| ConfigComponent.ParseSubs | delta/config/config.py:170-171 | parsing the subcomponents never changes registrations |
| ConfigComponent.ParseArgsWithoutOptions | delta/config/config.py:153-171 | with no options, nothing anywhere in the tree changes and nothing raises |
| ConfigComponent.ParseSubsWithoutOptions | delta/config/config.py:170-171 | with no options, no subcomponent changes |
| ConfigComponent.ParseArgsSound | delta/config/config.py:153-171 | parsing options keeps the tree sound |
| ConfigComponent.ParseSubsSound | delta/config/config.py:170-171 | parsing the subcomponents keeps the tree sound |
| ConfigComponent.ParseSubsKeepsValues | delta/config/config.py:170-171 | parsing the subcomponents leaves the component's own values alone |
| ConfigComponent.ParseArgsStores | delta/config/config.py:153-167 | after a parse that raised nothing, every field whose option was given, and that no subcomponent shares a name with, holds that option's value as its validator returned it (no base directory) |
| ConfigFile.DefaultTable | delta/config.py:23-32 | the defaults table has distinct section names and distinct keys within each section |
| ConfigFile.FillEntry | delta/config.py:69-78 | one default entry adds its key, keeps every other entry, and sets the key to the default when absent or to the converted value when present |
| ConfigFile.FillSection | delta/config.py:68-78 | filling a section keeps every key it had and adds every key the table lists |
| ConfigFile.FillSectionSpec | delta/config.py:68-78 | a filled section has exactly the loaded keys plus the table's, keeps the others, and holds each table entry filled |
| ConfigFile.FillDefaultsSections | delta/config.py:64-67 | filling adds exactly the sections the table names |
| ConfigFile.FillDefaults | delta/config.py:64-78 | filling keeps every section the input had and adds every section the table names |
| ConfigFile.FillFromSections | delta/config.py:64-67 | filling from position `from` adds exactly the sections named from there on |
| ConfigFile.FillFrom | delta/config.py:64-78 | filling from position `from` keeps every section and adds every section named from there on |
| ConfigFile.FillDefaultsKeepsOthers | delta/config.py:64-78 | sections the table does not name come back untouched |
| ConfigFile.FillFromKeepsOthers | delta/config.py:64-78 | sections not named from position `from` on come back untouched |
| ConfigFile.FillDefaultsFillsSection | delta/config.py:64-78 | each section the table names ends up as its loaded section, or an empty one, filled with its entries |
| ConfigFile.FillFromFillsSection | delta/config.py:64-78 | the same, for the sections from position `from` on |
| ConfigFile.InitialConfig | delta/config.py:34-57 | without a path, a truthy data directory or image type builds the input section and otherwise it raises; with a path, a missing file and an unreadable file raise, and a read file gives its sections |
| ConfigFile.CheckRequired | delta/config.py:59-62 | the check passes exactly when the input section exists and holds both required entries |
| ConfigFile.ParseWith | delta/config.py:34-78 | a parse succeeds exactly when the input is available and the required entries are present, and otherwise reports the first failure |
| ConfigFile.ParseWithSections | delta/config.py:64-67 | a successful parse holds every section of the defaults table |
| ConfigFile.ParseConfigFile | delta/config.py:8-80 | as written, a successful parse holds every section of the defaults table |
| ConfigFile.ParseConfigFileCorrected | delta/config.py:8-80 | as intended, a successful parse holds every section of the defaults table |
| ConfigFile.ParseWithEntry | delta/config.py:65-78 | every table entry is present: the default when the input lacked it, otherwise `int()` of the converted value, or the loaded value when `int()` raises |
| ConfigFile.ParseWithKeepsOthers | delta/config.py:65-78 | sections and entries the table does not list come back as read |
| ConfigFile.ParseWithoutFile | delta/config.py:34-42 | without a file, the input section holds the given data directory and image type, and every other table entry holds its default |
| ConfigFile.AsWrittenEntry | delta/config.py:69-71 | as written, a present entry whose default is an integer ends up as that default |
| ConfigFile.AsWrittenDiscardsChunkSize | delta/config.py:69-71 | `chunk_size = 33` under `[ml]` parses to 17 as written and to 33 as intended |
| ConfigFile.CorrectedEntry | delta/config.py:69-74 | as intended, a present entry is `int()` of what was read, or what was read when `int()` raises |

## Left out

- Image reading and writing. `MultiTiffFileReader` and `TiffWriter` are not
  part of this model.
  - The reader is an oracle, `readRegion`. For each output ROI it delivers
    the pixels of a read region that contains the ROI and lies inside the
    image.
  - The writer is a map from tile coordinate to block: the last block
    written at each coordinate.
  - Output initialisation, finishing, cleanup, metadata, no-data values and
    data types are not modelled.
- The reader's native block size is assumed positive (`PositiveTile(native)`),
  as a GeoTIFF block size is. With a zero block size, the source would
  raise ZeroDivisionError at line 71.
- Planner.OutputTileSize: takes integer user sizes. The source applies
  `int()` to a positive user size, so a fractional size is truncated. A
  size between 0 and 1 becomes 0, which fails at the ceil division. That
  case is not modelled.
- Planner.CeilDiv: `math.ceil(num_cols / tw)` uses float division. The model
  takes the exact ceiling. The two differ only when the float quotient
  rounds, for image sizes beyond 2^53.
- Dispatch.Callback: lines 100-101 use Python true division, giving a float
  tile coordinate. The ROI corner is always a multiple of the tile size, so
  the quotient is exact and the model uses the integer quotient.
- Only the first channel is written (line 103). Multi-channel data and
  numpy array layout are reduced to one row-major raster per ROI.
- Threading, `print` and `time.sleep` are not modelled.
- The MTL parser is given the file's lines, with `None` for a path that does
  not exist. Opening and reading the file are not modelled.
- Mtl.Coef: a converted value keeps its text, `Float(text)`, rather than
  the binary float `float()` would produce. Which texts `float()` accepts
  is modelled (`Strings.IsFloatText`); the numeric value is not.
- `int()`, `float()`, `str.strip` and `str.isspace` are modelled for ASCII.
  Unicode digits and whitespace, which Python also accepts, are not.
- The line-level MTL lemmas are stated for quote-free lines.
  `Mtl.QuotesIgnored` shows that any line parses as its quote-free form.
- ConfigComponent.SetupArgParser: its own contract covers destinations and
  groups. That every flagged field gets its argument is stated by
  `ConfigComponent.FieldArgumentsCover` and
  `ConfigComponent.ParseArgsReadsDeclaredDests`. Help text is not modelled.
- argparse itself is not modelled. This covers parsing the command line,
  type conversion, and the error on a flag registered twice. Parsed
  options are a map from destination to value.
- Field descriptions, help text, generated accessors and `setattr` of
  attribute names serve only documentation and attribute access, so they
  are not modelled. The same goes for `export` (YAML output), and for
  `DeltaConfig` with its file loading and `--config` handling.
- `os.path.expanduser`, `os.path.join` and `os.path.normpath` are
  parameters (`PathOps`). A user-supplied validator other than the two
  defined here is not modelled.
- Configuration values are YAML-like values with string dictionary keys.
  Non-string keys, NaN and infinities are not represented.
- In `parse_config_file`, `os.path.exists` and `configparser` are inputs
  (`FileRead`). The file is missing, or `read()` raises IndexError (caught
  at line 53 and re-raised as a read failure), or it has these sections.
  configparser's own errors, such as MissingSectionHeaderError,
  ParsingError and duplicate sections or options, escape `read()`
  unchanged. The model cannot produce them. INI syntax, interpolation and
  the `DEFAULT` section are not modelled.
- `DEFAULT_CACHE_DIR` and `DEFAULT_CACHE_LIMIT` come from a module that is
  not part of this model. They are parameters.
- The `print` calls in `parse_config_file` are not modelled.

## Findings

| source | as written | input that shows it | evidently intended | confidence | as-written member | corrected member |
|---|---|---|---|---|---|---|
| delta/config.py:71 | a present entry is replaced by `int(value)`, where `value` is the DEFAULT from the table, so the file's value is discarded whenever the default is an integer | an INI file with `[ml]` and `chunk_size = 33` (plus the required input entries) parses to `chunk_size == 17` | `int()` of the value read from the file, kept as read when it does not convert, giving 33 | high, not executed | ConfigFile.AsWrittenDiscardsChunkSize | ConfigFile.CorrectedEntry |
