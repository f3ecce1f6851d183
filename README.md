# sensorsio naming, windows and product layout in Dafny

This project models the deterministic core of `sensorsio`, a library that reads
satellite and climate rasters. The model covers the naming, validation, table
and index logic around the raster I/O. The I/O itself is not modelled.

- **WorldClim** (`worldclim.dfy`, module `WorldClim`) covers the WorldClim 2.0
  catalogue:
  - the quantity and bio enumerations;
  - the validated variable descriptor `WorldClimVar` and its string form;
  - the global variable lists and their 84 + 19 layout;
  - variable names and file paths, with the value-keyed `bio_names` table;
  - the catalogue's month-major file lists and its half-pixel base transform;
  - the pixel window that `crop_to_bbox` builds from the floor and ceil
    `rowcol` candidates;
  - the stack and output transform of `get_wc_for_bbox`.
- **Sentinel2** (`sentinel2.dfy`, module `Sentinel2`) covers MAJA L2A products:
  - the satellite, band, mask, mask-resolution and band-type enumerations;
  - the resolution groups and the `RES` and `MTF` tables;
  - product construction from the directory's base name: the satellite from
    characters 0 to 10, the date from 11 to 19 and the tile from 35 to 41;
  - the band, mask and metadata-file lookups, each a glob pattern. The band
    and mask lookups fail on no match and otherwise return the first match.
    The metadata lookup as written fails on no match and otherwise returns no
    path (`BuildXmlPathAsWritten`); `BuildXmlPath` is the corrected
    first-match version;
  - `read_bands`, `PSF` and `repr`.
- **Text** (`text.dfy`) models the Python string operations the two modules
  use: ASCII `str.upper`, `f"{n:02}"` and clamped slicing `s[i:j]`.
- **Wrappers** (`wrappers.dfy`) defines `Option` and `Result`. A Python
  exception becomes a `Failure` carrying an error value.

Everything outside the core becomes a function parameter:
- the file system (`glob.glob`) and `os.path.normpath`;
- `dateutil.parser.parse`;
- rasterio's `rowcol` and the raster reads;
- `utils.read_as_numpy` and `utils.generate_psf_kernel`.

The window proofs also use an exact real-arithmetic `rowcol`. It inverts the
affine transform exactly, then takes floor or ceil. That is how the proofs
state what the window guarantees about the box.

`crop_to_bbox` computes its window with the catalogue's base transform, which
is the first monthly file's transform shifted by half a pixel, and then reads
that window from the file. The coverage lemmas (`IdealWindowCoversColumns`,
`IdealWindowCoversRows`) hold in the coordinates of the transform given to
`rowcol`, that is, the base transform. On the file's own grid the window is
the ideal one for the box moved half a pixel: `ShiftedWindowOnFileGrid` shows
each box corner's file coordinate plus 1/2 lies in the window. So the pixels
read may miss up to half a pixel of the box before its first column and row,
and `ShiftedWindowMissesBox` gives a box where this happens. The model keeps
the shift as the code has it.

Where the code and its documentation differ, the model follows the code:
- `read_bands` takes an `offsets` argument but passes the product's own offsets
  to the reader. `ReadBands` does the same, and `ReadBandsIgnoresOffsets`
  states it.
- `WorldClimVar`'s error message lacks the `f` prefix, so it prints its
  placeholders literally. The model keeps only the error kind.
- `PSF` reads the `RES` table as written, so B11 and B12 get 60 metre
  kernels. `Psf` does the same; `PsfCorrected` uses the corrected table (see
  Findings).

## Model

| member | source | states |
|---|---|---|
| `Text.Upper` | src/sensorsio/worldclim.py:73-74 | `str.upper` on ASCII: same length; each lower-case letter becomes its capital, and every other character is kept |
| `Text.Pad2RoundTrip` | src/sensorsio/worldclim.py:74 | `f"{n:02}"` is all digits, at least two of them, and exactly two when n < 100; the digits read back as n |
| `Text.Pad2Injective` | src/sensorsio/worldclim.py:135 | different numbers format to different two-digit texts |
| `Text.ParseDecimalOfDecimal` | src/sensorsio/worldclim.py:74 | the decimal digits of n read back as n |
| `Text.Decimal` | src/sensorsio/worldclim.py:135 | the decimal text of n is non-empty and all digits; it has one digit iff n < 10, two iff 10 <= n < 100, and starts with `0` iff n is 0 |
| `Text.Pad2` | src/sensorsio/worldclim.py:135 | `f"{n:02}"` is all digits, at least two of them; exactly two iff n < 100, and it starts with `0` iff n < 10 |
| `Text.PySlice` | src/sensorsio/sentinel2.py:39-45 | Python's `s[i:j]`: the result's length is the clamped bounds' difference (or 0), character k is `s[i + k]`, and it equals `s[i..j]` when the bounds are in range |
| `WorldClim.QuantityIndex` | src/sensorsio/worldclim.py:18-29 | every quantity sits at its index in `list(WorldClimQuantity)` |
| `WorldClim.BioIndex` | src/sensorsio/worldclim.py:32-55 | every bio variable sits at its index in `list(WorldClimBio)` |
| `WorldClim.QuantityAllIndexed` | src/sensorsio/worldclim.py:29 | the quantity list has no repeats: each position's member has that index |
| `WorldClim.BioAllIndexed` | src/sensorsio/worldclim.py:55 | the bio list has no repeats: each position's member has that index |
| `WorldClim.QuantityValueInjective` | src/sensorsio/worldclim.py:18-26 | distinct quantities have distinct values |
| `WorldClim.BioValueInjective` | src/sensorsio/worldclim.py:32-52 | distinct bio variables have distinct values, so the value-keyed `bio_names` table loses no entry |
| `WorldClim.BioValueInitial` | src/sensorsio/worldclim.py:34-52 | every bio value starts with one of the capitals A, I, M, P, T |
| `WorldClim.NewVar` | src/sensorsio/worldclim.py:60-69 | construction succeeds iff the member is bio and there is no month, or the member is a quantity and the month is in 1..12; otherwise ValueError. A success keeps the member's value, has typ `bio` with no month or typ `clim` with exactly the month given |
| `WorldClim.NewVarRoundTrip` | src/sensorsio/worldclim.py:60-66 | every valid variable is rebuilt from its own member and month |
| `WorldClim.Str` | src/sensorsio/worldclim.py:71-74 | the string of a bio variable is as long as its value; that of a monthly variable is 12 characters, `CLIM_` then a `_` at position 9 |
| `WorldClim.StrShapeClim` | src/sensorsio/worldclim.py:74 | `str` of a monthly variable is 12 characters: `CLIM_`, the upper-cased value, `_`, then two digits that read back as the month |
| `WorldClim.StrShapeBio` | src/sensorsio/worldclim.py:72-73 | `str` of a bio variable is its upper-cased value and does not start with `C` |
| `WorldClim.UpperQuantityValue` | src/sensorsio/worldclim.py:20-26 | upper-casing a quantity's value gives the member's name (`prec` to `PREC`) |
| `WorldClim.QuantityNameInjective` | src/sensorsio/worldclim.py:20-26 | distinct quantities have distinct upper-case names |
| `WorldClim.StrIdentifiesClim` | src/sensorsio/worldclim.py:71-74 | no other variable shares the string form of a monthly variable |
| `WorldClim.QuantityVarAll` | src/sensorsio/worldclim.py:77-79 | 7 quantities by 12 months: 84 monthly variables |
| `WorldClim.BioVarAll` | src/sensorsio/worldclim.py:81 | one variable per bio member: 19 |
| `WorldClim.VarAll` | src/sensorsio/worldclim.py:83 | the monthly then the bio variables: 103 |
| `WorldClim.FlattenAt` | src/sensorsio/worldclim.py:77-79 | in a two-level comprehension over rows of length n, element j of row i lands at i * n + j |
| `WorldClim.FlattenLength` | src/sensorsio/worldclim.py:77-79 | a two-level comprehension over r rows of length n yields r * n elements |
| `WorldClim.VarAllLayout` | src/sensorsio/worldclim.py:76-82 | 84 monthly variables, quantity-major with months 1..12 inside each quantity (entry k is quantity k / 12, month k % 12 + 1), then the 19 bio variables in declaration order: 103 in all |
| `WorldClim.QuantityVarAllLayout` | src/sensorsio/worldclim.py:76-78 | the monthly variables: entry k is quantity k / 12 for month k % 12 + 1; 84 entries |
| `WorldClim.VarAllEnumerates` | src/sensorsio/worldclim.py:76-82 | every variable occurs in `WorldClimVarAll` exactly once, at a position computed from its quantity and month or its bio index |
| `WorldClim.BioKeysDistinct` | src/sensorsio/worldclim.py:135 | the bio values that key `bio_names` are pairwise distinct, so no entry of the comprehension overwrites another |
| `WorldClim.NumberingAt` | src/sensorsio/worldclim.py:135 | in a comprehension numbering distinct keys from 1, each key maps to its own position as two digits |
| `WorldClim.BioNames` | src/sensorsio/worldclim.py:135 | the `bio_names` dict: its keys are exactly the 19 bio values, and every entry is a two-character text; `BioNamesLookup` gives each entry |
| `WorldClim.BioNamesLookup` | src/sensorsio/worldclim.py:135-136 | `bio_names` has an entry for every bio value: its 1-based declaration position, padded to two digits |
| `WorldClim.GetVarName` | src/sensorsio/worldclim.py:132-137 | a bio variable's name has 10 characters and a monthly variable's 11 |
| `WorldClim.GetVarNameBio` | src/sensorsio/worldclim.py:134-136 | the name of a bio variable is `bio_30s_` plus its 1-based position as two digits; 10 characters |
| `WorldClim.GetVarNameClim` | src/sensorsio/worldclim.py:137 | the name of a monthly variable is `30s_`, the value, `_` and the two-digit month; 11 characters |
| `WorldClim.GetVarNameInjective` | src/sensorsio/worldclim.py:132-137 | distinct variables get distinct names |
| `WorldClim.BioNamesInjective` | src/sensorsio/worldclim.py:134-136 | two bio variables with the same name are the same variable |
| `WorldClim.ClimNamesInjective` | src/sensorsio/worldclim.py:137 | two monthly variables with the same name have the same quantity and the same month |
| `WorldClim.GetFilePath` | src/sensorsio/worldclim.py:139-142 | the path starts with `<wcdir>/wc2.0_`, ends with `.tif`, and between them is the variable's name |
| `WorldClim.GetFilePathInjective` | src/sensorsio/worldclim.py:139-142 | in one directory, distinct variables get distinct `<wcdir>/wc2.0_<name>.tif` files |
| `WorldClim.HalfPixelShift` | src/sensorsio/worldclim.py:104-108 | the base transform keeps the file transform's a, b, d and e and moves c and f back by half a pixel (c - a/2, f - e/2); without rotation it maps pixel (1/2, 1/2) where the file's maps (0, 0) |
| `WorldClim.HalfPixelShiftInverse` | src/sensorsio/worldclim.py:104-108 | for a transform without rotation, each point's fractional pixel coordinates under the base transform are the file's plus 1/2 |
| `WorldClim.HalfPixelShiftMovesCentres` | src/sensorsio/worldclim.py:104-108 | for a transform without rotation, the base transform maps pixel (col + 1/2, row + 1/2) where the file's transform maps (col, row) |
| `WorldClim.ClimRows` | src/sensorsio/worldclim.py:98-101 | the comprehension's row for month m holds the 7 quantities' files for month m, in quantity order |
| `WorldClim.BioFiles` | src/sensorsio/worldclim.py:102 | 19 bio files, the k-th being the file of the k-th bio variable |
| `WorldClim.ClimFiles` | src/sensorsio/worldclim.py:99-101 | 12 months by 7 quantities: 84 files |
| `WorldClim.ClimFileAt` | src/sensorsio/worldclim.py:99-101 | the file of quantity i for month m sits at 7 * (m - 1) + i |
| `WorldClim.ClimFilesLayout` | src/sensorsio/worldclim.py:98-101 | `climfiles` is month-major: entry k is the file of quantity k % 7 for month k / 7 + 1; 84 entries |
| `WorldClim.NewCatalog` | src/sensorsio/worldclim.py:88-108 | the catalogue lists the 84 monthly files month-major and the 19 bio files, and its transform is the half-pixel shift of the first monthly file's (precipitation, January) |
| `WorldClim.CropWindow` | src/sensorsio/worldclim.py:121-124 | the window's left and right columns are the least and greatest of the four column candidates, and its top and bottom rows the least and greatest of the four row candidates. Every candidate lies inside, left <= right, top <= bottom, and height and width are non-negative |
| `WorldClim.CropWindowIsSmallest` | src/sensorsio/worldclim.py:121-124 | any window that holds all eight candidates contains the crop window |
| `WorldClim.IdealRowCol` | src/sensorsio/worldclim.py:112-119 | with `np.floor` each of the four candidates is the greatest integer not above the exact pixel coordinate of its corner; with `np.ceil` the least integer not below it |
| `WorldClim.Round` | src/sensorsio/worldclim.py:112-119 | `np.floor` gives the integer n with n <= r < n + 1, and `np.ceil` the one with n - 1 < r <= n; both give r itself when r is integral |
| `WorldClim.InverseInverts` | src/sensorsio/worldclim.py:112-119 | the exact inverse transform that `rowcol` applies undoes the transform |
| `WorldClim.IdealWindowHoldsCorners` | src/sensorsio/worldclim.py:112-124 | with exact `rowcol`, the box's two corners' fractional pixel coordinates lie inside the window |
| `WorldClim.IdealWindowOvershoot` | src/sensorsio/worldclim.py:112-124 | with exact `rowcol`, each window edge lies less than one pixel beyond the nearer corner coordinate |
| `WorldClim.IdealWindowCoversColumns` | src/sensorsio/worldclim.py:112-124 | in the coordinates of the transform given to `rowcol` (the catalogue's base transform), for a transform without rotation, the x positions of the window's first and last columns bracket both the box's left and right edges, whatever the pixel size's sign |
| `WorldClim.IdealWindowCoversRows` | src/sensorsio/worldclim.py:112-124 | in the coordinates of the transform given to `rowcol` (the catalogue's base transform), for a transform without rotation, the y positions of the window's first and last rows bracket both the box's top and bottom edges, whatever the pixel size's sign |
| `WorldClim.AlignedBoxHasNoOvershoot` | src/sensorsio/worldclim.py:112-124 | when the corners fall on pixel boundaries, the floor and ceil candidates agree and the window's edges are exactly the corners' pixel coordinates |
| `WorldClim.ShiftedWindowOnFileGrid` | src/sensorsio/worldclim.py:104-124 | for a file transform without rotation, the window built on the base transform holds each box corner's file pixel coordinates plus 1/2 |
| `WorldClim.ShiftedWindowMissesBox` | src/sensorsio/worldclim.py:104-124 | for the file transform (1, 0, 0, 0, -1, 0) and the box from (-0.2, 0.2) to (2.0, -2.0), the window is rows 0..3 and columns 0..3, and on the file's grid it covers neither the box's columns nor its rows |
| `WorldClim.CropToBbox` | src/sensorsio/worldclim.py:110-130 | the image is the read of `imfile` over a window that holds all eight floor and ceil candidates from `rowcol` on the base transform and lies within every window that does |
| `WorldClim.Requested` | src/sensorsio/worldclim.py:149-150 | an explicit list is used as given; without one, exactly `WorldClimVarAll`, 103 variables |
| `WorldClim.Stack` | src/sensorsio/worldclim.py:151-152 | one layer per variable, in order: the first band (`[0, :, :]`, the `select` parameter) of the crop of that variable's file |
| `WorldClim.GetWcForBbox` | src/sensorsio/worldclim.py:144-155 | it fails iff an explicit empty list is given (stacking nothing). Otherwise it has one layer per requested variable, the first band of that variable's crop (all 103 when none are named), in request order; repeated variables give equal layers. The transform keeps a, b, d, e of the base transform and maps pixel (0, 0) to the box's (left, top) |
| `WorldClim.DefaultStackReadsAll` | src/sensorsio/worldclim.py:149-152 | without a list, the stack has 103 layers, layer i being the first band of the crop of `WorldClimVarAll[i]`: from January precipitation to the last bio variable |
| `Sentinel2.SatelliteOf` | src/sensorsio/sentinel2.py:59-61 | the lookup succeeds exactly for `SENTINEL2A` and `SENTINEL2B` and returns the member with that value |
| `Sentinel2.SatelliteOfValue` | src/sensorsio/sentinel2.py:59-61 | looking a satellite up by its value returns that satellite |
| `Sentinel2.BandAllEnumerates` | src/sensorsio/sentinel2.py:68-80 | the band list has the 12 bands, each once |
| `Sentinel2.BandValueInjective` | src/sensorsio/sentinel2.py:68-80 | distinct bands have distinct values |
| `Sentinel2.GroupsPartitionBands` | src/sensorsio/sentinel2.py:121-123 | the 10, 20 and 60 metre groups are pairwise disjoint, cover every band and have 12 entries together |
| `Sentinel2.Mtf` | src/sensorsio/sentinel2.py:135-146 | `MTF` has no B10 key, and every value is strictly between 0 and 1 |
| `Sentinel2.ResAsWritten` | src/sensorsio/sentinel2.py:149-160 | `RES` has no B10 key, and every value is 10, 20 or 60 |
| `Sentinel2.Res` | src/sensorsio/sentinel2.py:149-160 | the corrected table has no B10 key, and every value is 10, 20 or 60 |
| `Sentinel2.MtfCoversAllButB10` | src/sensorsio/sentinel2.py:135-146 | `MTF` has a key for every band except B10, with values strictly between 0 and 1 |
| `Sentinel2.ResAsWrittenCoversAllButB10` | src/sensorsio/sentinel2.py:149-160 | `RES` has a key for every band except B10, with values in {10, 20, 60} |
| `Sentinel2.ResAsWrittenContradictsGroups` | src/sensorsio/sentinel2.py:149-160 | `RES` gives 60 for B11 and B12, which `GROUP_20M` lists |
| `Sentinel2.ResCoversAllButB10` | src/sensorsio/sentinel2.py:149-160 | the corrected table has the same keys as `RES`, with values in {10, 20, 60} |
| `Sentinel2.ResAgreesWithGroups` | src/sensorsio/sentinel2.py:121-160 | the corrected table has the keys of `MTF`; a band's resolution is 10, 20 or 60 iff the band is in that group |
| `Sentinel2.Basename` | src/sensorsio/sentinel2.py:33 | the base name has no `/`, is a suffix of the path, and is preceded by a `/` unless it is the whole path |
| `Sentinel2.BasenameOfJoin` | src/sensorsio/sentinel2.py:32-33 | the base name of `dir/name` is `name` |
| `Sentinel2.NewProduct` | src/sensorsio/sentinel2.py:24-53 | it fails with an unknown satellite iff the first 10 characters of the base name are neither satellite value; otherwise with an unparsable date iff characters 11 to 19 do not parse; otherwise with a missing band iff no FRE B2 file exists, and it succeeds iff the satellite and date are valid and a B2 file exists. On success the fields are the normalised directory, its base name, the given offsets, the satellite whose value starts the name, the date text, its parse and the tile slice (exactly characters 35 to 41 when the name is long enough) |
| `Sentinel2.MajaNameFields` | src/sensorsio/sentinel2.py:39-45 | slicing a MAJA product name returns its satellite, date and tile |
| `Sentinel2.NewProductOfMajaName` | src/sensorsio/sentinel2.py:32-45 | opening a directory named by a MAJA product name succeeds, given a parsable date and a B2 file, with that name's satellite, date text and tile |
| `Sentinel2.Repr` | src/sensorsio/sentinel2.py:55-56 | the text is the satellite value, `", "`, the date's text, `", "` and the tile |
| `Sentinel2.ReprIdentifies` | src/sensorsio/sentinel2.py:55-56 | products with the same text have the same satellite, and the same tile when their tiles are equally long |
| `Sentinel2.XmlPattern` | src/sensorsio/sentinel2.py:188 | the pattern is `<dir>/*MTD_ALL.xml`: after `<dir>/` come the wildcard `*` and `MTD_ALL.xml`, with no further `/` |
| `Sentinel2.BandPattern` | src/sensorsio/sentinel2.py:204 | the pattern is `<dir>/*<type>_<band>.tif`: after `<dir>/` come the wildcard `*` and `<type>_<band>.tif`, with no further `/` |
| `Sentinel2.MaskPattern` | src/sensorsio/sentinel2.py:221 | the pattern is `<dir>/MASKS/*<mask>_<resolution>.tif`: after `<dir>/MASKS/` come the wildcard `*` and `<mask>_<resolution>.tif`, with no further `/` |
| `Sentinel2.BandPatternInjective` | src/sensorsio/sentinel2.py:204 | in one directory, distinct (band, band type) pairs give distinct glob patterns |
| `Sentinel2.MaskPatternInjective` | src/sensorsio/sentinel2.py:221 | in one directory, distinct (mask, resolution) pairs give distinct glob patterns |
| `Sentinel2.BandAndMaskPatternsDiffer` | src/sensorsio/sentinel2.py:204-221 | no band pattern is a mask pattern: bands are searched in the product directory, masks in its `MASKS` sub-directory |
| `Sentinel2.FirstMatch` | src/sensorsio/sentinel2.py:205-208 | no match gives the not-found error; otherwise the result is a match, the first one |
| `Sentinel2.FirstMatchIgnoresRest` | src/sensorsio/sentinel2.py:205-208 | matches after the first never change the result |
| `Sentinel2.BuildBandPath` | src/sensorsio/sentinel2.py:193-208 | it succeeds iff the band pattern matches a file, and then returns the first match; otherwise it fails with the band, type and directory |
| `Sentinel2.BuildMaskPath` | src/sensorsio/sentinel2.py:210-225 | it succeeds iff the mask pattern matches a file, and then returns the first match; otherwise it fails with the mask, resolution and directory |
| `Sentinel2.BuildXmlPathAsWritten` | src/sensorsio/sentinel2.py:184-191 | it fails iff no root metadata file matches; a success carries no path |
| `Sentinel2.XmlPathAsWrittenIsLost` | src/sensorsio/sentinel2.py:184-191 | when the metadata file exists, the lookup as written returns None where the corrected one returns the file |
| `Sentinel2.BuildXmlPath` | src/sensorsio/sentinel2.py:184-191 | it succeeds iff a root metadata file matches, and then returns the first match; otherwise it fails with the directory |
| `Sentinel2.BuildXmlPathAgrees` | src/sensorsio/sentinel2.py:184-191 | the corrected lookup fails exactly when, and with the same error as, the lookup as written |
| `Sentinel2.ResolveBandPaths` | src/sensorsio/sentinel2.py:242 | it succeeds iff every requested band has a file, with exactly one path per band in request order (each the band's first match); otherwise it fails with the error of the first band without a file |
| `Sentinel2.ReadBands` | src/sensorsio/sentinel2.py:227-258 | it succeeds iff every band has a file, and then returns the reader's result on those files, in order, with the product's offsets |
| `Sentinel2.ReadBandsIgnoresOffsets` | src/sensorsio/sentinel2.py:233-247 | the `offsets` argument has no effect on the result |
| `Sentinel2.Kernels` | src/sensorsio/sentinel2.py:178-181 | the list comprehension in `PSF`: one kernel per band, in order, built from the band's entry in the given resolution table and its MTF value |
| `Sentinel2.Psf` | src/sensorsio/sentinel2.py:162-181 | it fails with a missing key iff B10 is requested, and with an empty stack iff the list is empty. Otherwise it returns one kernel per band, in order, built from the band's `RES` value as written and its MTF value |
| `Sentinel2.PsfCorrected` | src/sensorsio/sentinel2.py:162-181 | the same failures as `Psf`; on success one kernel per band, in order, built from the band's corrected resolution and its MTF value |
| `Sentinel2.PsfOfB11` | src/sensorsio/sentinel2.py:149-181 | `PSF([B11])` builds one kernel at 60 metres with MTF 0.21; the corrected table gives 20 metres |
| `Sentinel2.PsfAgreesWithoutB11B12` | src/sensorsio/sentinel2.py:149-181 | when neither B11 nor B12 is requested, `Psf` and `PsfCorrected` give the same result |

## Left out

- Raster I/O is left out because it is a foreign library; `rowcol` and the
  window read are parameters. This covers `rio.open` and reading a window
  (`crop_to_bbox`, `get_wc_for_bbox`), and the bounds and CRS read from the B2
  band in the Sentinel-2 constructor.
- `WorldClimData.read_as_numpy` and `read_as_xarray` are left out: they are
  reprojection, `np.linspace` coordinates, output sizes from `np.ceil` on
  floats, and `astype`. That is floating-point numerics and library work.
- Floating point: coordinates and transforms are exact reals.
  - The exact `rowcol` has no float rounding and no epsilon.
  - The window lemmas hold for exact arithmetic, not for the floats the
    library computes.
- `Sentinel2.year` and `Sentinel2.day_of_year` are left out, because they come
  from `dateutil` and `timetuple()`. The parsed date is an opaque value from
  the `parseDate` parameter.
- `os.path.normpath`, `glob.glob` and glob matching are parameters. Only the
  patterns and what each lookup does with the matches are modelled: the band
  and mask lookups return the first match, and the metadata lookup as written
  returns no path. The order of `glob`'s results is whatever the parameter
  returns.
- `utils.read_as_numpy`, `utils.generate_psf_kernel` and the shape of
  `np.stack` are not part of this model. The reader and kernel generator are
  parameters, and `read_bands`' remaining arguments pass through unchanged.
- `read_bands` returns `read_as_numpy(...)[0, ...]`. The `readAsNumpy`
  parameter of `ReadBands` stands for the reader together with that
  selection, so the selection itself is not modelled.
- `get_wc_for_bbox` keeps `crop_to_bbox(...)[0, :, :]` of each crop. The
  `select` parameter of `WorldClim.Stack` and `WorldClim.GetWcForBbox` stands
  for that first-band selection, which is not modelled beyond that.
- Default arguments are left out; every argument is explicit. These are
  `wcdir` of `WorldClimData` (src/sensorsio/worldclim.py:90), `band_type=FRE`
  (src/sensorsio/sentinel2.py:196, 229), `resolution=R1`
  (src/sensorsio/sentinel2.py:213), and `PSF`'s `resolution=0.5`
  (src/sensorsio/sentinel2.py:165). The `None` defaults appear as explicit
  `Option` arguments, with `None` for the default: `month`
  (src/sensorsio/worldclim.py:60), `wc_vars` (src/sensorsio/worldclim.py:147),
  `offsets` (src/sensorsio/sentinel2.py:24, 233) and `PSF`'s
  `half_kernel_width` (src/sensorsio/sentinel2.py:166).
- Exception messages are left out; errors are modelled by kind and by the
  values they name.
- The debug `print` in `crop_to_bbox` (src/sensorsio/worldclim.py:126) is
  left out because it is output only.
- `Text.Upper` upper-cases ASCII letters only. Every enumeration value is
  ASCII.
- WorldClim.StrIdentifiesClim: proves that the string form is injective only when one
  side is a monthly variable. For two bio variables, upper-casing 19 literal
  values costs too much proof effort. Instead, `StrShapeBio` shows that a bio
  variable's string never starts with `C`.
- `Sentinel2.NewProduct`: errors raised while opening the B2 file itself are
  left out, because they come from the foreign raster library. Only the
  missing B2 file is modelled.

## Findings

| source | as written | input that shows it | evidently intended | confidence | as-written member | corrected member |
|---|---|---|---|---|---|---|
| src/sensorsio/sentinel2.py:184-191 | `build_xml_path` raises when no file matches and otherwise falls off its end, returning `None` despite its `-> str` annotation and docstring | a product directory holding `X_MTD_ALL.xml`: the call returns `None`, not that path | return `p[0]`, as `build_band_path` and `build_mask_path` do | high, not executed | `Sentinel2.BuildXmlPathAsWritten` | `Sentinel2.BuildXmlPath` |
| src/sensorsio/sentinel2.py:149-160 | `RES` gives B11 and B12 a resolution of 60, yet `GROUP_20M` lists both bands | `PSF([B11])` builds B11's kernel for a 60 metre resolution (`PsfOfB11`) | 20 for B11 and B12, matching `GROUP_20M` | medium, not executed | `Sentinel2.Psf` | `Sentinel2.PsfCorrected` |
