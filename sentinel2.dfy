/**
  Sentinel-2 L2A products in the MAJA format: the product name's fixed
  layout, the band, mask and metadata file lookups, the band tables and the
  point-spread-function kernels built from them.

  The file system, path normalisation, date parsing, raster reading and
  kernel generation are not modelled; they enter as function parameters.
*/
module Sentinel2 {
  import opened Wrappers
  import opened Text

  // ---------------------------------------------------------------------------
  // Enumerations

  datatype Satellite = S2A | S2B

  function SatelliteValue(s: Satellite): string
  {
    match s
    case S2A => "SENTINEL2A"
    case S2B => "SENTINEL2B"
  }

  /** `Satellite(text)`: the enum member whose value is `text`, if any. */
  function SatelliteOf(text: string): (r: Option<Satellite>)
    ensures r.Some? <==> text == "SENTINEL2A" || text == "SENTINEL2B"
    ensures r.Some? ==> SatelliteValue(r.value) == text
  {
    if text == "SENTINEL2A" then Some(S2A)
    else if text == "SENTINEL2B" then Some(S2B)
    else None
  }

  /** Looking a satellite up by its value gives it back. */
  lemma SatelliteOfValue(s: Satellite)
    ensures SatelliteOf(SatelliteValue(s)) == Some(s)
  {
  }

  datatype Band = B2 | B3 | B4 | B5 | B6 | B7 | B8 | B8A | B9 | B10 | B11 | B12

  function BandValue(b: Band): string
  {
    match b
    case B2 => "B2"
    case B3 => "B3"
    case B4 => "B4"
    case B5 => "B5"
    case B6 => "B6"
    case B7 => "B7"
    case B8 => "B8"
    case B8A => "B8A"
    case B9 => "B9"
    case B10 => "B10"
    case B11 => "B11"
    case B12 => "B12"
  }

  /** The members of `Band` in declaration order. */
  const BandAll: seq<Band> := [B2, B3, B4, B5, B6, B7, B8, B8A, B9, B10, B11, B12]

  /** `BandAll` lists every band exactly once. */
  lemma BandAllEnumerates()
    ensures |BandAll| == 12
    ensures forall b :: b in BandAll
    ensures forall i, j :: 0 <= i < j < |BandAll| ==> BandAll[i] != BandAll[j]
  {
    forall b ensures b in BandAll {
      match b {
        case B2 => case B3 => case B4 => case B5 => case B6 => case B7 =>
        case B8 => case B8A => case B9 => case B10 => case B11 => case B12 =>
      }
    }
  }

  /** Distinct bands have distinct values. */
  lemma BandValueInjective(b1: Band, b2: Band)
    requires BandValue(b1) == BandValue(b2)
    ensures b1 == b2
  {
    var s1, s2 := BandValue(b1), BandValue(b2);
    assert |s1| == |s2| && s1[1] == s2[1];
    if |s1| == 3 {
      assert s1[2] == s2[2];
    }
  }

  datatype Mask = Sat | Clm | Edg | Mg2

  function MaskValue(m: Mask): string
  {
    match m
    case Sat => "SAT"
    case Clm => "CLM"
    case Edg => "EDG"
    case Mg2 => "MG2"
  }

  datatype MaskRes = R1 | R2

  function MaskResValue(r: MaskRes): string
  {
    match r
    case R1 => "R1"
    case R2 => "R2"
  }

  datatype BandType = Fre | Sre

  function BandTypeValue(t: BandType): string
  {
    match t
    case Fre => "FRE"
    case Sre => "SRE"
  }

  // ---------------------------------------------------------------------------
  // Band tables

  const Group10m: seq<Band> := [B2, B3, B4, B8]
  const Group20m: seq<Band> := [B5, B6, B7, B8A, B11, B12]
  const Group60m: seq<Band> := [B9, B10]

  /** The three resolution groups split the twelve bands: each band is in exactly one group, once. */
  lemma GroupsPartitionBands()
    ensures forall b :: b in Group10m || b in Group20m || b in Group60m
    ensures forall b :: !(b in Group10m && b in Group20m)
    ensures forall b :: !(b in Group10m && b in Group60m)
    ensures forall b :: !(b in Group20m && b in Group60m)
    ensures |Group10m| + |Group20m| + |Group60m| == |BandAll|
  {
    forall b ensures b in Group10m || b in Group20m || b in Group60m {
      match b {
        case B2 => case B3 => case B4 => case B5 => case B6 => case B7 =>
        case B8 => case B8A => case B9 => case B10 => case B11 => case B12 =>
      }
    }
  }

  /** The modulation transfer function value of each band; B10 has none. */
  function Mtf(): (m: map<Band, real>)
    ensures B10 !in m
    ensures forall b :: b in m ==> 0.0 < m[b] < 1.0
  {
    map[B2 := 0.304, B3 := 0.276, B4 := 0.233, B5 := 0.343, B6 := 0.336, B7 := 0.338,
              B8 := 0.222, B8A := 0.325, B9 := 0.39, B11 := 0.21, B12 := 0.19]
  }

  /** The resolution table as written: B11 and B12 at 60 metres. */
  function ResAsWritten(): (m: map<Band, int>)
    ensures B10 !in m
    ensures forall b :: b in m ==> m[b] in {10, 20, 60}
  {
    map[B2 := 10, B3 := 10, B4 := 10, B5 := 20, B6 := 20, B7 := 20,
              B8 := 10, B8A := 20, B9 := 60, B11 := 60, B12 := 60]
  }

  /** Every band but B10 has an MTF value, strictly between 0 and 1. */
  lemma {:induction false} MtfCoversAllButB10()
    ensures forall b :: b in Mtf() <==> b != B10
    ensures forall b :: b in Mtf() ==> 0.0 < Mtf()[b] < 1.0
  {
    forall b ensures b in Mtf() <==> b != B10 {
      match b {
        case B2 => case B3 => case B4 => case B5 => case B6 => case B7 =>
        case B8 => case B8A => case B9 => case B10 => case B11 => case B12 =>
      }
    }
  }

  /** As written, every band but B10 has a resolution of 10, 20 or 60 metres. */
  lemma {:induction false} ResAsWrittenCoversAllButB10()
    ensures forall b :: b in ResAsWritten() <==> b != B10
    ensures forall b :: b in ResAsWritten() ==> ResAsWritten()[b] in {10, 20, 60}
  {
    forall b ensures b in ResAsWritten() <==> b != B10 {
      match b {
        case B2 => case B3 => case B4 => case B5 => case B6 => case B7 =>
        case B8 => case B8A => case B9 => case B10 => case B11 => case B12 =>
      }
    }
  }

  /** As written, the resolution table puts B11 and B12 at 60 metres although they are in the 20 metre group. */
  lemma ResAsWrittenContradictsGroups()
    ensures B11 in Group20m && ResAsWritten()[B11] == 60
    ensures B12 in Group20m && ResAsWritten()[B12] == 60
  {
  }

  /** The resolution of each band in metres; B10 has none. B11 and B12 are 20 metre bands. */
  function Res(): (m: map<Band, int>)
    ensures B10 !in m
    ensures forall b :: b in m ==> m[b] in {10, 20, 60}
  {
    map[B2 := 10, B3 := 10, B4 := 10, B5 := 20, B6 := 20, B7 := 20,
              B8 := 10, B8A := 20, B9 := 60, B11 := 20, B12 := 20]
  }

  /** Every band but B10 has a resolution of 10, 20 or 60 metres. */
  lemma {:induction false} ResCoversAllButB10()
    ensures forall b :: b in Res() <==> b != B10
    ensures forall b :: b in Res() ==> Res()[b] in {10, 20, 60}
  {
    forall b ensures b in Res() <==> b != B10 {
      match b {
        case B2 => case B3 => case B4 => case B5 => case B6 => case B7 =>
        case B8 => case B8A => case B9 => case B10 => case B11 => case B12 =>
      }
    }
  }

  /**
    The resolution table agrees with the groups: a band's resolution is 10, 20
    or 60 exactly when it is in the 10, 20 or 60 metre group. Both tables have
    the same keys.
  */
  lemma {:induction false} ResAgreesWithGroups()
    ensures Res().Keys == Mtf().Keys
    ensures forall b :: b in Res() ==> (Res()[b] == 10 <==> b in Group10m)
    ensures forall b :: b in Res() ==> (Res()[b] == 20 <==> b in Group20m)
    ensures forall b :: b in Res() ==> (Res()[b] == 60 <==> b in Group60m)
  {
    ResCoversAllButB10();
    MtfCoversAllButB10();
    forall b | b in Res()
      ensures (Res()[b] == 10 <==> b in Group10m) && (Res()[b] == 20 <==> b in Group20m)
      ensures Res()[b] == 60 <==> b in Group60m
    {
      match b {
        case B2 => case B3 => case B4 => case B5 => case B6 => case B7 =>
        case B8 => case B8A => case B9 => case B11 => case B12 =>
      }
    }
  }

  // ---------------------------------------------------------------------------
  // Errors

  datatype Error =
    | UnknownSatellite(text: string)
    | UnparsableDate(text: string)
    | BandNotFound(band: Band, bandType: BandType, dir: string)
    | MaskNotFound(mask: Mask, res: MaskRes, dir: string)
    | XmlNotFound(dir: string)
    | MissingKey(key: Band)
    | EmptyStack

  // ---------------------------------------------------------------------------
  // The product name

  /** `os.path.basename`: the text after the last `/`, all of the path when it has none. */
  function Basename(p: string): (r: string)
    ensures '/' !in r
    ensures |r| <= |p| && r == p[|p| - |r|..]
    ensures |r| < |p| ==> p[|p| - |r| - 1] == '/'
    decreases |p|
  {
    if |p| == 0 || p[|p| - 1] == '/' then ""
    else
      var r' := Basename(p[..|p| - 1]);
      assert p[..|p| - 1][|p| - 1 - |r'|..] + [p[|p| - 1]] == p[|p| - 1 - |r'|..];
      r' + [p[|p| - 1]]
  }

  /** The base name of `dir + "/" + name` is `name` when `name` holds no `/`. */
  lemma {:induction false} BasenameOfJoin(dir: string, name: string)
    requires '/' !in name
    ensures Basename(dir + "/" + name) == name
    decreases |name|
  {
    var p := dir + "/" + name;
    if |name| == 0 {
      assert p[|p| - 1] == '/';
    } else {
      var init := name[..|name| - 1];
      assert p[..|p| - 1] == dir + "/" + init;
      assert p[|p| - 1] == name[|name| - 1];
      BasenameOfJoin(dir, init);
      assert init + [name[|name| - 1]] == name;
    }
  }

  /**
    A product: its normalised directory and base name, the origin offsets it
    was opened with, and the fields sliced out of the name.
  */
  datatype Product<D> = Product(
    productDir: string,
    productName: string,
    offsets: Option<(real, real)>,
    satellite: Satellite,
    tile: string,
    dateText: string,
    date: D)

  /**
    `Sentinel2(product_dir, offsets)`. The satellite is the first 10
    characters of the base name, the tile characters 35 to 41 and the date
    characters 11 to 19, all with Python's clamped slicing. Construction fails
    on an unknown satellite, an unparsable date, or when no FRE B2 band file is
    found. `normpath`, `parseDate` and `glob` stand for `os.path.normpath`,
    `dateutil.parser.parse` and `glob.glob`.
  */
  function NewProduct<D>(productDir: string, offsets: Option<(real, real)>, normpath: string -> string,
                         parseDate: string -> Option<D>, glob: string -> seq<string>): (r: Result<Product<D>, Error>)
    ensures r.Success? ==>
      && r.value.productDir == normpath(productDir)
      && r.value.productName == Basename(r.value.productDir)
      && r.value.offsets == offsets
      && |r.value.productName| >= 10
      && r.value.productName[..10] == SatelliteValue(r.value.satellite)
      && r.value.dateText == PySlice(r.value.productName, 11, 19)
      && parseDate(r.value.dateText) == Some(r.value.date)
      && r.value.tile == PySlice(r.value.productName, 35, 41)
      && (|r.value.productName| >= 41 ==> r.value.tile == r.value.productName[35..41])
      && |glob(BandPattern(r.value.productDir, B2, Fre))| > 0
    ensures r.Failure? && r.error.UnknownSatellite? <==>
      PySlice(Basename(normpath(productDir)), 0, 10) !in {"SENTINEL2A", "SENTINEL2B"}
    ensures r.Failure? && r.error.UnparsableDate? <==>
      && PySlice(Basename(normpath(productDir)), 0, 10) in {"SENTINEL2A", "SENTINEL2B"}
      && parseDate(PySlice(Basename(normpath(productDir)), 11, 19)).None?
    ensures r.Failure? && r.error.BandNotFound? <==>
      && PySlice(Basename(normpath(productDir)), 0, 10) in {"SENTINEL2A", "SENTINEL2B"}
      && parseDate(PySlice(Basename(normpath(productDir)), 11, 19)).Some?
      && |glob(BandPattern(normpath(productDir), B2, Fre))| == 0
    ensures r.Failure? ==> r.error.UnknownSatellite? || r.error.UnparsableDate? || r.error == BandNotFound(B2, Fre, normpath(productDir))
    ensures r.Success? <==>
      && PySlice(Basename(normpath(productDir)), 0, 10) in {"SENTINEL2A", "SENTINEL2B"}
      && parseDate(PySlice(Basename(normpath(productDir)), 11, 19)).Some?
      && |glob(BandPattern(normpath(productDir), B2, Fre))| > 0
  {
    var dir := normpath(productDir);
    var name := Basename(dir);
    var satText := PySlice(name, 0, 10);
    var satellite := SatelliteOf(satText);
    if satellite.None? then Failure(UnknownSatellite(satText))
    else
      var tile := PySlice(name, 35, 41);
      var dateText := PySlice(name, 11, 19);
      var date := parseDate(dateText);
      if date.None? then Failure(UnparsableDate(dateText))
      else match BuildBandPath(dir, glob, B2, Fre)
        case Failure(e) => Failure(e)
        case Success(_) => Success(Product(dir, name, offsets, satellite.value, tile, dateText, date.value))
  }

  /** A MAJA product name: satellite, `_`, an 8 character date, 16 more characters, a 6 character tile, the rest. */
  function MajaName(satellite: Satellite, date: string, middle: string, tile: string, rest: string): string
  {
    SatelliteValue(satellite) + "_" + date + middle + tile + rest
  }

  /** Slicing a MAJA product name gives back its satellite, date and tile. */
  lemma MajaNameFields(satellite: Satellite, date: string, middle: string, tile: string, rest: string)
    requires |date| == 8 && |middle| == 16 && |tile| == 6
    ensures var name := MajaName(satellite, date, middle, tile, rest);
      && PySlice(name, 0, 10) == SatelliteValue(satellite)
      && PySlice(name, 11, 19) == date
      && PySlice(name, 35, 41) == tile
  {
    var name := MajaName(satellite, date, middle, tile, rest);
    assert name == SatelliteValue(satellite) + "_" + date + middle + tile + rest;
    assert name[..10] == SatelliteValue(satellite);
    assert name[11..19] == date;
    assert name[35..41] == tile;
  }

  /**
    Opening a directory whose normalised path ends in a MAJA product name
    yields that name's satellite, date text and tile.
  */
  lemma NewProductOfMajaName<D>(parent: string, satellite: Satellite, date: string, middle: string, tile: string,
                                rest: string, productDir: string, offsets: Option<(real, real)>,
                                normpath: string -> string, parseDate: string -> Option<D>, glob: string -> seq<string>)
    requires |date| == 8 && |middle| == 16 && |tile| == 6
    requires '/' !in MajaName(satellite, date, middle, tile, rest)
    requires normpath(productDir) == parent + "/" + MajaName(satellite, date, middle, tile, rest)
    requires parseDate(date).Some?
    requires |glob(BandPattern(normpath(productDir), B2, Fre))| > 0
    ensures NewProduct(productDir, offsets, normpath, parseDate, glob).Success?
    ensures var p := NewProduct(productDir, offsets, normpath, parseDate, glob).value;
      p.satellite == satellite && p.dateText == date && p.tile == tile
  {
    var name := MajaName(satellite, date, middle, tile, rest);
    BasenameOfJoin(parent, name);
    MajaNameFields(satellite, date, middle, tile, rest);
    var p := NewProduct(productDir, offsets, normpath, parseDate, glob);
    assert p.Success?;
    assert SatelliteValue(p.value.satellite) == SatelliteValue(satellite);
    match satellite {
      case S2A => assert p.value.satellite == satellite;
      case S2B => assert p.value.satellite == satellite;
    }
  }

  /** `repr(product)`: satellite value, date and tile separated by `", "`; `showDate` stands for `str` of the date. */
  function Repr<D>(p: Product<D>, showDate: D -> string): (s: string)
    ensures |s| >= 12 + |p.tile|
    ensures s[..10] == SatelliteValue(p.satellite) && s[10..12] == ", "
    ensures s[|s| - |p.tile|..] == p.tile
    ensures s[12..|s| - |p.tile|] == showDate(p.date) + ", "
  {
    var s := SatelliteValue(p.satellite) + ", " + showDate(p.date) + ", " + p.tile;
    assert s[|s| - |p.tile|..] == p.tile;
    assert s[12..|s| - |p.tile|] == showDate(p.date) + ", ";
    s
  }

  /** Two products with the same text form are of the same satellite, and of the same tile when their tiles are equally long. */
  lemma ReprIdentifies<D>(p: Product<D>, q: Product<D>, showDate: D -> string)
    requires Repr(p, showDate) == Repr(q, showDate)
    ensures p.satellite == q.satellite
    ensures |p.tile| == |q.tile| ==> p.tile == q.tile
  {
    var s := Repr(p, showDate);
    assert SatelliteValue(p.satellite)[9] == s[9] == SatelliteValue(q.satellite)[9];
  }

  // ---------------------------------------------------------------------------
  // File lookups

  /** Band and band-type values are plain names. */
  lemma BandNamesHaveNoSlash(band: Band, bandType: BandType)
    ensures '/' !in BandValue(band) && '/' !in BandTypeValue(bandType)
  {
  }

  /** Mask and mask-resolution values are plain names. */
  lemma MaskNamesHaveNoSlash(mask: Mask, res: MaskRes)
    ensures '/' !in MaskValue(mask) && '/' !in MaskResValue(res)
  {
  }

  /** The glob pattern of a band file: any name in the directory ending in `<type>_<band>.tif`. */
  function BandPattern(dir: string, band: Band, bandType: BandType): (r: string)
    ensures StartsWith(r, dir + "/") && '/' !in r[|dir| + 1..]
    ensures EndsWith(r, BandTypeValue(bandType) + "_" + BandValue(band) + ".tif")
    ensures r[|dir| + 1..] == "*" + BandTypeValue(bandType) + "_" + BandValue(band) + ".tif"
  {
    BandNamesHaveNoSlash(band, bandType);
    PatternShape(dir + "/*", BandTypeValue(bandType), BandValue(band));
    dir + "/*" + BandTypeValue(bandType) + "_" + BandValue(band) + ".tif"
  }

  /** The glob pattern of a mask file: any name in the MASKS sub-directory ending in `<mask>_<res>.tif`. */
  function MaskPattern(dir: string, mask: Mask, res: MaskRes): (r: string)
    ensures StartsWith(r, dir + "/MASKS/") && '/' !in r[|dir| + 7..]
    ensures EndsWith(r, MaskValue(mask) + "_" + MaskResValue(res) + ".tif")
    ensures r[|dir| + 7..] == "*" + MaskValue(mask) + "_" + MaskResValue(res) + ".tif"
  {
    MaskNamesHaveNoSlash(mask, res);
    PatternShape(dir + "/MASKS/*", MaskValue(mask), MaskResValue(res));
    dir + "/MASKS/*" + MaskValue(mask) + "_" + MaskResValue(res) + ".tif"
  }

  /** The glob pattern of the product's root metadata file. */
  function XmlPattern(dir: string): (r: string)
    ensures StartsWith(r, dir + "/") && '/' !in r[|dir| + 1..]
    ensures EndsWith(r, "MTD_ALL.xml")
    ensures r[|dir| + 1..] == "*MTD_ALL.xml"
  {
    Framed(dir + "/", "*", "MTD_ALL.xml");
    assert '/' !in "*" + "MTD_ALL.xml";
    dir + "/" + "*" + "MTD_ALL.xml"
  }

  /** A pattern `pre + a + "_" + b + ".tif"` whose `pre` ends in a slash and a star ends in `a_b.tif`, and after that slash holds the star and that name. */
  lemma PatternShape(pre: string, a: string, b: string)
    requires |pre| >= 2 && pre[|pre| - 2..] == "/*"
    ensures var r := pre + a + "_" + b + ".tif";
      && StartsWith(r, pre[..|pre| - 1])
      && r[|pre| - 1..] == "*" + a + "_" + b + ".tif"
      && EndsWith(r, a + "_" + b + ".tif")
  {
    var r := pre + a + "_" + b + ".tif";
    assert r[..|pre| - 1] == pre[..|pre| - 1];
    assert r[|pre| - 1..] == "*" + a + "_" + b + ".tif";
    assert r[|r| - |a + "_" + b + ".tif"|..] == a + "_" + b + ".tif";
  }

  /** Different bands or band types in the same directory give different patterns. */
  lemma BandPatternInjective(dir: string, b1: Band, t1: BandType, b2: Band, t2: BandType)
    requires BandPattern(dir, b1, t1) == BandPattern(dir, b2, t2)
    ensures b1 == b2 && t1 == t2
  {
    assert |BandTypeValue(t1)| == |BandTypeValue(t2)| == 3;
    SplitAtSeparator(dir + "/*", BandTypeValue(t1), BandValue(b1), BandTypeValue(t2), BandValue(b2), ".tif");
    assert BandTypeValue(t1)[0] == BandTypeValue(t2)[0];
    BandValueInjective(b1, b2);
  }

  /** Different masks or mask resolutions in the same directory give different patterns. */
  lemma MaskPatternInjective(dir: string, m1: Mask, r1: MaskRes, m2: Mask, r2: MaskRes)
    requires MaskPattern(dir, m1, r1) == MaskPattern(dir, m2, r2)
    ensures m1 == m2 && r1 == r2
  {
    assert |MaskValue(m1)| == |MaskValue(m2)| == 3;
    SplitAtSeparator(dir + "/MASKS/*", MaskValue(m1), MaskResValue(r1), MaskValue(m2), MaskResValue(r2), ".tif");
    assert MaskResValue(r1)[1] == MaskResValue(r2)[1];
    assert MaskValue(m1)[0] == MaskValue(m2)[0] && MaskValue(m1)[2] == MaskValue(m2)[2];
  }

  /** Band files are looked up directly in the product directory, masks in its MASKS sub-directory: no pattern is both. */
  lemma BandAndMaskPatternsDiffer(dir: string, band: Band, bandType: BandType, mask: Mask, res: MaskRes)
    ensures BandPattern(dir, band, bandType) != MaskPattern(dir, mask, res)
  {
    assert BandPattern(dir, band, bandType)[|dir| + 1] == '*';
    assert MaskPattern(dir, mask, res)[|dir| + 1] == 'M';
  }

  /** The selection rule of the lookups: no match is the given error, otherwise the first match. */
  function FirstMatch(matches: seq<string>, notFound: Error): (r: Result<string, Error>)
    ensures r.Success? <==> |matches| > 0
    ensures r.Success? ==> r.value in matches && r.value == matches[0]
    ensures r.Failure? ==> r.error == notFound
  {
    if |matches| == 0 then Failure(notFound) else Success(matches[0])
  }

  /** Matches after the first never change the outcome. */
  lemma FirstMatchIgnoresRest(matches: seq<string>, more: seq<string>, notFound: Error)
    requires |matches| > 0
    ensures FirstMatch(matches + more, notFound) == FirstMatch(matches, notFound)
  {
    assert (matches + more)[0] == matches[0];
  }

  /** `build_band_path(band, band_type)`: the first file matching the band pattern. */
  function BuildBandPath(dir: string, glob: string -> seq<string>, band: Band, bandType: BandType): (r: Result<string, Error>)
    ensures r.Success? <==> |glob(BandPattern(dir, band, bandType))| > 0
    ensures r.Success? ==> r.value == glob(BandPattern(dir, band, bandType))[0]
    ensures r.Failure? ==> r.error == BandNotFound(band, bandType, dir)
  {
    FirstMatch(glob(BandPattern(dir, band, bandType)), BandNotFound(band, bandType, dir))
  }

  /** `build_mask_path(mask, resolution)`: the first file matching the mask pattern. */
  function BuildMaskPath(dir: string, glob: string -> seq<string>, mask: Mask, res: MaskRes): (r: Result<string, Error>)
    ensures r.Success? <==> |glob(MaskPattern(dir, mask, res))| > 0
    ensures r.Success? ==> r.value == glob(MaskPattern(dir, mask, res))[0]
    ensures r.Failure? ==> r.error == MaskNotFound(mask, res, dir)
  {
    FirstMatch(glob(MaskPattern(dir, mask, res)), MaskNotFound(mask, res, dir))
  }

  /** `build_xml_path()` as written: it fails when nothing matches and otherwise returns no path at all. */
  function BuildXmlPathAsWritten(dir: string, glob: string -> seq<string>): (r: Result<Option<string>, Error>)
    ensures r.Success? <==> |glob(XmlPattern(dir))| > 0
    ensures r.Success? ==> r.value == None
    ensures r.Failure? ==> r.error == XmlNotFound(dir)
  {
    if |glob(XmlPattern(dir))| == 0 then Failure(XmlNotFound(dir)) else Success(None)
  }

  /** Even when the metadata file exists, the lookup as written never yields its path. */
  lemma XmlPathAsWrittenIsLost(dir: string, glob: string -> seq<string>)
    requires |glob(XmlPattern(dir))| > 0
    ensures BuildXmlPathAsWritten(dir, glob) == Success(None)
    ensures BuildXmlPath(dir, glob) == Success(glob(XmlPattern(dir))[0])
  {
  }

  /** `build_xml_path()` as its documentation and its siblings intend: the first matching file. */
  function BuildXmlPath(dir: string, glob: string -> seq<string>): (r: Result<string, Error>)
    ensures r.Success? <==> |glob(XmlPattern(dir))| > 0
    ensures r.Success? ==> r.value == glob(XmlPattern(dir))[0]
    ensures r.Failure? ==> r.error == XmlNotFound(dir)
  {
    FirstMatch(glob(XmlPattern(dir)), XmlNotFound(dir))
  }

  /** The corrected lookup fails exactly where the one as written does, and succeeds with the path where it returned nothing. */
  lemma BuildXmlPathAgrees(dir: string, glob: string -> seq<string>)
    ensures BuildXmlPath(dir, glob).Success? <==> BuildXmlPathAsWritten(dir, glob).Success?
    ensures BuildXmlPath(dir, glob).Failure? ==> BuildXmlPathAsWritten(dir, glob).error == BuildXmlPath(dir, glob).error
  {
  }

  // ---------------------------------------------------------------------------
  // Reading bands and kernels

  /** `bands[i]` is the first band in `bands` without a file. */
  predicate FirstMissing(dir: string, glob: string -> seq<string>, bands: seq<Band>, bandType: BandType, i: int)
  {
    && 0 <= i < |bands|
    && BuildBandPath(dir, glob, bands[i], bandType).Failure?
    && forall j :: 0 <= j < i ==> BuildBandPath(dir, glob, bands[j], bandType).Success?
  }

  /**
    The file list `read_bands` builds: one band path per requested band, in
    request order; the first band without a file stops it with that band's error.
  */
  function ResolveBandPaths(dir: string, glob: string -> seq<string>, bands: seq<Band>, bandType: BandType): (r: Result<seq<string>, Error>)
    ensures r.Success? <==> forall i :: 0 <= i < |bands| ==> BuildBandPath(dir, glob, bands[i], bandType).Success?
    ensures r.Success? ==> |r.value| == |bands|
    ensures r.Success? ==> forall i :: 0 <= i < |bands| ==> r.value[i] == BuildBandPath(dir, glob, bands[i], bandType).value
    ensures r.Failure? ==> exists i :: FirstMissing(dir, glob, bands, bandType, i) && r.error == BandNotFound(bands[i], bandType, dir)
  {
    if |bands| == 0 then Success([])
    else match BuildBandPath(dir, glob, bands[0], bandType)
      case Failure(e) =>
        assert FirstMissing(dir, glob, bands, bandType, 0);
        Failure(e)
      case Success(path) =>
        match ResolveBandPaths(dir, glob, bands[1..], bandType)
        case Failure(e) =>
          MissingLater(dir, glob, bands, bandType, e);
          Failure(e)
        case Success(paths) =>
          FoundAll(dir, glob, bands, bandType, path, paths);
          Success([path] + paths)
  }

  /** A band missing after a found first band is the first missing band of the whole list. */
  lemma MissingLater(dir: string, glob: string -> seq<string>, bands: seq<Band>, bandType: BandType, e: Error)
    requires |bands| > 0 && BuildBandPath(dir, glob, bands[0], bandType).Success?
    requires exists i :: FirstMissing(dir, glob, bands[1..], bandType, i) && e == BandNotFound(bands[1..][i], bandType, dir)
    ensures exists i :: FirstMissing(dir, glob, bands, bandType, i) && e == BandNotFound(bands[i], bandType, dir)
  {
    var i :| FirstMissing(dir, glob, bands[1..], bandType, i) && e == BandNotFound(bands[1..][i], bandType, dir);
    assert FirstMissing(dir, glob, bands, bandType, i + 1);
  }

  /** The first band's path followed by the paths of the rest are the paths of every band. */
  lemma FoundAll(dir: string, glob: string -> seq<string>, bands: seq<Band>, bandType: BandType, path: string, paths: seq<string>)
    requires |bands| > 0 && BuildBandPath(dir, glob, bands[0], bandType) == Success(path)
    requires |paths| == |bands| - 1
    requires forall i :: 0 <= i < |bands| - 1 ==> BuildBandPath(dir, glob, bands[1..][i], bandType).Success?
    requires forall i :: 0 <= i < |bands| - 1 ==> paths[i] == BuildBandPath(dir, glob, bands[1..][i], bandType).value
    ensures forall i :: 0 <= i < |bands| ==> BuildBandPath(dir, glob, bands[i], bandType).Success?
    ensures forall i :: 0 <= i < |bands| ==> ([path] + paths)[i] == BuildBandPath(dir, glob, bands[i], bandType).value
  {
    forall i | 0 < i < |bands|
      ensures BuildBandPath(dir, glob, bands[i], bandType).Success?
      ensures ([path] + paths)[i] == BuildBandPath(dir, glob, bands[i], bandType).value
    {
      assert bands[1..][i - 1] == bands[i];
    }
  }

  /**
    `read_bands`: the band files handed to the raster reader `readAsNumpy`
    together with the offsets the product was opened with; `options` stands
    for the remaining arguments, passed through unchanged. `readAsNumpy`
    stands for the reader followed by the `[0, ...]` selection `read_bands`
    applies to its result, so `A` is the type of that selection.
  */
  function ReadBands<D, O, A>(p: Product<D>, glob: string -> seq<string>, bands: seq<Band>, bandType: BandType,
                              offsets: Option<(real, real)>, options: O,
                              readAsNumpy: (seq<string>, Option<(real, real)>, O) -> A): (r: Result<A, Error>)
    ensures r.Success? <==> forall i :: 0 <= i < |bands| ==> BuildBandPath(p.productDir, glob, bands[i], bandType).Success?
    ensures r.Success? ==> exists files ::
      && |files| == |bands|
      && (forall i :: 0 <= i < |bands| ==> files[i] == glob(BandPattern(p.productDir, bands[i], bandType))[0])
      && r.value == readAsNumpy(files, p.offsets, options)
  {
    match ResolveBandPaths(p.productDir, glob, bands, bandType)
    case Failure(e) => Failure(e)
    case Success(files) => Success(readAsNumpy(files, p.offsets, options))
  }

  /** The `offsets` argument of `read_bands` has no effect: the product's own offsets are used. */
  lemma ReadBandsIgnoresOffsets<D, O, A>(p: Product<D>, glob: string -> seq<string>, bands: seq<Band>, bandType: BandType,
                                         o1: Option<(real, real)>, o2: Option<(real, real)>, options: O,
                                         readAsNumpy: (seq<string>, Option<(real, real)>, O) -> A)
    ensures ReadBands(p, glob, bands, bandType, o1, options, readAsNumpy)
         == ReadBands(p, glob, bands, bandType, o2, options, readAsNumpy)
  {
  }

  /** One kernel per band, in order, from the band's entry in the resolution table `res` and its MTF value. */
  function Kernels<K>(res: map<Band, int>, bands: seq<Band>, resolution: real, halfWidth: Option<int>,
                      kernel: (real, int, real, Option<int>) -> K): (ks: seq<K>)
    requires forall i :: 0 <= i < |bands| ==> bands[i] in res && bands[i] in Mtf()
    ensures |ks| == |bands|
    ensures forall i :: 0 <= i < |bands| ==> ks[i] == kernel(resolution, res[bands[i]], Mtf()[bands[i]], halfWidth)
  {
    seq(|bands|, i requires 0 <= i < |bands| => kernel(resolution, res[bands[i]], Mtf()[bands[i]], halfWidth))
  }

  /**
    `PSF(bands, resolution, half_kernel_width)` as written: one kernel per band
    from its `RES` entry and its MTF value, by `kernel` (`generate_psf_kernel`).
    A band without a table entry (B10) fails the lookup; an empty list fails
    the stack. B11 and B12 get kernels for 60 metres.
  */
  function Psf<K>(bands: seq<Band>, resolution: real, halfWidth: Option<int>,
                  kernel: (real, int, real, Option<int>) -> K): (r: Result<seq<K>, Error>)
    ensures r.Success? <==> |bands| > 0 && B10 !in bands
    ensures r.Failure? ==> (r.error == MissingKey(B10) <==> B10 in bands)
    ensures r.Failure? ==> r.error == MissingKey(B10) || r.error == EmptyStack
    ensures r.Success? ==> |r.value| == |bands| && forall i :: 0 <= i < |bands| ==>
      bands[i] in ResAsWritten() && bands[i] in Mtf() &&
      r.value[i] == kernel(resolution, ResAsWritten()[bands[i]], Mtf()[bands[i]], halfWidth)
  {
    ResAsWrittenCoversAllButB10();
    MtfCoversAllButB10();
    if B10 in bands then Failure(MissingKey(B10))
    else if |bands| == 0 then Failure(EmptyStack)
    else Success(Kernels(ResAsWritten(), bands, resolution, halfWidth, kernel))
  }

  /** `PSF` on the corrected resolution table: B11 and B12 get kernels for 20 metres. */
  function PsfCorrected<K>(bands: seq<Band>, resolution: real, halfWidth: Option<int>,
                           kernel: (real, int, real, Option<int>) -> K): (r: Result<seq<K>, Error>)
    ensures r.Success? <==> |bands| > 0 && B10 !in bands
    ensures r.Failure? ==> (r.error == MissingKey(B10) <==> B10 in bands)
    ensures r.Failure? ==> r.error == MissingKey(B10) || r.error == EmptyStack
    ensures r.Success? ==> |r.value| == |bands| && forall i :: 0 <= i < |bands| ==>
      bands[i] in Res() && bands[i] in Mtf() &&
      r.value[i] == kernel(resolution, Res()[bands[i]], Mtf()[bands[i]], halfWidth)
  {
    ResCoversAllButB10();
    MtfCoversAllButB10();
    if B10 in bands then Failure(MissingKey(B10))
    else if |bands| == 0 then Failure(EmptyStack)
    else Success(Kernels(Res(), bands, resolution, halfWidth, kernel))
  }

  /** For B11 the kernel as written is built for 60 metres, the corrected one for 20 metres. */
  lemma PsfOfB11<K>(resolution: real, halfWidth: Option<int>, kernel: (real, int, real, Option<int>) -> K)
    ensures Psf([B11], resolution, halfWidth, kernel) == Success([kernel(resolution, 60, 0.21, halfWidth)])
    ensures PsfCorrected([B11], resolution, halfWidth, kernel) == Success([kernel(resolution, 20, 0.21, halfWidth)])
  {
    var r1, r2 := Psf([B11], resolution, halfWidth, kernel), PsfCorrected([B11], resolution, halfWidth, kernel);
    assert r1.Success? && r1.value[0] == kernel(resolution, 60, 0.21, halfWidth);
    assert r1.value == [kernel(resolution, 60, 0.21, halfWidth)];
    assert r2.Success? && r2.value[0] == kernel(resolution, 20, 0.21, halfWidth);
    assert r2.value == [kernel(resolution, 20, 0.21, halfWidth)];
  }

  /** Both tables agree on every band but B11 and B12, so the two `PSF`s differ only where those bands are requested. */
  lemma {:induction false} PsfAgreesWithoutB11B12<K>(bands: seq<Band>, resolution: real, halfWidth: Option<int>,
                                                     kernel: (real, int, real, Option<int>) -> K)
    requires B11 !in bands && B12 !in bands
    ensures Psf(bands, resolution, halfWidth, kernel) == PsfCorrected(bands, resolution, halfWidth, kernel)
  {
    var r1, r2 := Psf(bands, resolution, halfWidth, kernel), PsfCorrected(bands, resolution, halfWidth, kernel);
    if r1.Success? {
      forall i | 0 <= i < |bands|
        ensures r1.value[i] == r2.value[i]
      {
        var b := bands[i];
        assert b != B11 && b != B12 && b != B10;
        assert ResAsWritten()[b] == Res()[b];
      }
      assert r1.value == r2.value;
    }
  }
}
