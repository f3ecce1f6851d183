/**
  The WorldClim 2.0 variable catalogue: the physical quantities and bio
  variables, the validated variable descriptor, its string and file names,
  the global enumerations, the pixel window that encloses a bounding box and
  the transform of the cropped stack.
*/
module WorldClim {
  import opened Wrappers
  import opened Text

  /** The monthly physical quantities of the data base. */
  datatype Quantity = Prec | Srad | Tavg | Tmax | Tmin | Vapr | Wind

  function QuantityValue(q: Quantity): string
  {
    match q
    case Prec => "prec"
    case Srad => "srad"
    case Tavg => "tavg"
    case Tmax => "tmax"
    case Tmin => "tmin"
    case Vapr => "vapr"
    case Wind => "wind"
  }

  /** `list(WorldClimQuantity)`: the quantities in declaration order. */
  const QuantityAll: seq<Quantity> := [Prec, Srad, Tavg, Tmax, Tmin, Vapr, Wind]

  /** Position of a quantity in `QuantityAll`. */
  function QuantityIndex(q: Quantity): (i: nat)
    ensures i < |QuantityAll| && QuantityAll[i] == q
  {
    match q
    case Prec => 0
    case Srad => 1
    case Tavg => 2
    case Tmax => 3
    case Tmin => 4
    case Vapr => 5
    case Wind => 6
  }

  /** The annual derived ("bio") variables of the data base. */
  datatype Bio =
    | AnnualMeanTemp | MeanDiurnalTempRange | Isothermality | TempSeasonality
    | MaxTempWarmestMonth | MinTempColdestMonth | TempAnnualRange
    | MeanTempWettestQuart | MeanTempDriestQuart | MeanTempWarmestQuart | MeanTempColdestQuart
    | AnnualPrec | PrecWettestMonth | PrecDriestMonth | PrecSeasonality
    | PrecWettestQuart | PrecDriestQuart | PrecWarmestQuart | PrecColdestQuart

  function BioValue(b: Bio): string
  {
    match b
    case AnnualMeanTemp => "Annual_Mean_Temp"
    case MeanDiurnalTempRange => "Mean_Diurnal_Temp_Range"
    case Isothermality => "Isothermality"
    case TempSeasonality => "Temp_Seasonality"
    case MaxTempWarmestMonth => "Max_Temp_Warmest_Month"
    case MinTempColdestMonth => "Min_Temp_Coldest_Month"
    case TempAnnualRange => "Temp_Annual_Range"
    case MeanTempWettestQuart => "Mean_Temp_Wettest_Quart"
    case MeanTempDriestQuart => "Mean_Temp_Driest_Quart"
    case MeanTempWarmestQuart => "Mean_Temp_Warmest_Quart"
    case MeanTempColdestQuart => "Mean_Temp_Coldest_Quart"
    case AnnualPrec => "Annual_Prec"
    case PrecWettestMonth => "Prec_Wettest_Month"
    case PrecDriestMonth => "Prec_Driest_Month"
    case PrecSeasonality => "Prec_Seasonality"
    case PrecWettestQuart => "Prec_Wettest_Quart"
    case PrecDriestQuart => "Prec_Driest_Quart"
    case PrecWarmestQuart => "Prec_Warmest_Quart"
    case PrecColdestQuart => "Prec_Coldest_Quart"
  }

  /** `list(WorldClimBio)`: the bio variables in declaration order. */
  const BioAll: seq<Bio> := [
    AnnualMeanTemp, MeanDiurnalTempRange, Isothermality, TempSeasonality,
    MaxTempWarmestMonth, MinTempColdestMonth, TempAnnualRange,
    MeanTempWettestQuart, MeanTempDriestQuart, MeanTempWarmestQuart, MeanTempColdestQuart,
    AnnualPrec, PrecWettestMonth, PrecDriestMonth, PrecSeasonality,
    PrecWettestQuart, PrecDriestQuart, PrecWarmestQuart, PrecColdestQuart
  ]

  /** Position of a bio variable in `BioAll`. */
  function BioIndex(b: Bio): (i: nat)
    ensures i < |BioAll| && BioAll[i] == b
  {
    match b
    case AnnualMeanTemp => 0
    case MeanDiurnalTempRange => 1
    case Isothermality => 2
    case TempSeasonality => 3
    case MaxTempWarmestMonth => 4
    case MinTempColdestMonth => 5
    case TempAnnualRange => 6
    case MeanTempWettestQuart => 7
    case MeanTempDriestQuart => 8
    case MeanTempWarmestQuart => 9
    case MeanTempColdestQuart => 10
    case AnnualPrec => 11
    case PrecWettestMonth => 12
    case PrecDriestMonth => 13
    case PrecSeasonality => 14
    case PrecWettestQuart => 15
    case PrecDriestQuart => 16
    case PrecWarmestQuart => 17
    case PrecColdestQuart => 18
  }

  /** Every position of `BioAll` holds the bio variable whose index it is: the list has no repeats. */
  lemma BioAllIndexed()
    ensures forall i :: 0 <= i < |BioAll| ==> BioIndex(BioAll[i]) == i
  {
  }

  /** Every position of `QuantityAll` holds the quantity whose index it is: the list has no repeats. */
  lemma QuantityAllIndexed()
    ensures forall i :: 0 <= i < |QuantityAll| ==> QuantityIndex(QuantityAll[i]) == i
  {
  }

  /** Distinct quantities have distinct values, as Python's `Enum` requires of its members. */
  lemma QuantityValueInjective(q1: Quantity, q2: Quantity)
    requires QuantityValue(q1) == QuantityValue(q2)
    ensures q1 == q2
  {
    var s1, s2 := QuantityValue(q1), QuantityValue(q2);
    assert s1[0] == s2[0] && s1[1] == s2[1] && s1[2] == s2[2];
  }

  /** Distinct bio variables have distinct values, as Python's `Enum` requires of its members. */
  lemma BioValueInjective(b1: Bio, b2: Bio)
    requires BioValue(b1) == BioValue(b2)
    ensures b1 == b2
  {
    var s1, s2 := BioValue(b1), BioValue(b2);
    assert |s1| == |s2|;
    assert s1[0] == s2[0] && s1[1] == s2[1] && s1[5] == s2[5] && s1[6] == s2[6];
    assert s1[10] == s2[10];
    if |s1| > 13 {
      assert s1[11] == s2[11] && s1[12] == s2[12] && s1[13] == s2[13];
    }
  }

  /** What `WorldClimVar`'s first argument may be: a member of either enumeration. */
  datatype Member = QuantityMember(quantity: Quantity) | BioMember(bio: Bio)

  function MemberValue(m: Member): string
  {
    match m
    case QuantityMember(q) => QuantityValue(q)
    case BioMember(b) => BioValue(b)
  }

  type Month = m: int | 1 <= m <= 12 witness 1

  /**
    A validated WorldClim variable: a monthly quantity always carries a month in
    1..12, a bio variable never carries one.
  */
  datatype WorldClimVar = Clim(quantity: Quantity, month: Month) | BioVar(bio: Bio)

  /** The `typ` attribute. */
  function Typ(v: WorldClimVar): string
  {
    if v.BioVar? then "bio" else "clim"
  }

  /** The `value` attribute: the value of the enumeration member. */
  function Value(v: WorldClimVar): string
  {
    match v
    case Clim(q, _) => QuantityValue(q)
    case BioVar(b) => BioValue(b)
  }

  /** The errors the catalogue raises itself. */
  datatype Error =
    | ValueError      // inconsistent member/month pairing in `WorldClimVar`
    | EmptyStack      // `np.stack` of no layers

  /**
    `WorldClimVar(var, month)`: a bio member without a month, or a quantity
    member with a month in 1..12; any other pairing raises ValueError.
  */
  function NewVar(member: Member, month: Option<int>): (r: Result<WorldClimVar, Error>)
    ensures r.Success? <==>
              || (member.BioMember? && month.None?)
              || (member.QuantityMember? && month.Some? && 1 <= month.value <= 12)
    ensures r.Failure? ==> r.error == ValueError
    ensures r.Success? ==> Value(r.value) == MemberValue(member)
    ensures r.Success? && r.value.BioVar? ==> Typ(r.value) == "bio" && member == BioMember(r.value.bio)
    ensures r.Success? && r.value.Clim? ==>
              && Typ(r.value) == "clim"
              && member == QuantityMember(r.value.quantity)
              && month == Some(r.value.month as int)
  {
    if month.None? && member.BioMember? then
      Success(BioVar(member.bio))
    else if month.Some? && 1 <= month.value <= 12 && member.QuantityMember? then
      Success(Clim(member.quantity, month.value))
    else
      Failure(ValueError)
  }

  /** The arguments that describe a variable. */
  function MemberOf(v: WorldClimVar): Member
  {
    match v
    case Clim(q, _) => QuantityMember(q)
    case BioVar(b) => BioMember(b)
  }

  function MonthOf(v: WorldClimVar): Option<int>
  {
    match v
    case Clim(_, m) => Some(m as int)
    case BioVar(_) => None
  }

  /** Every valid variable is built back from its own member and month. */
  lemma NewVarRoundTrip(v: WorldClimVar)
    ensures NewVar(MemberOf(v), MonthOf(v)) == Success(v)
  {
  }

  /** `str(var)`: the upper-cased value, prefixed with `CLIM_` and suffixed with the month for a quantity. */
  function Str(v: WorldClimVar): (s: string)
    ensures v.BioVar? ==> |s| == |BioValue(v.bio)|
    ensures v.Clim? ==> |s| == 12 && s[..5] == "CLIM_" && s[9] == '_'
  {
    if Typ(v) == "bio" then Upper(Value(v))
    else
      QuantityValueLength(v.quantity);
      "CLIM_" + Upper(Value(v)) + "_" + Pad2(v.month)
  }

  /**
    The string form of a monthly variable is `CLIM_`, its upper-cased value,
    `_` and two month digits that read back as its month.
  */
  lemma StrShapeClim(v: WorldClimVar)
    requires v.Clim?
    ensures |Str(v)| == 12
    ensures Str(v)[..5] == "CLIM_"
    ensures Str(v)[5..9] == Upper(QuantityValue(v.quantity))
    ensures Str(v)[9] == '_'
    ensures AllDigits(Str(v)[10..])
    ensures ParseDecimal(Str(v)[10..]) == v.month
  {
    Pad2RoundTrip(v.month);
    assert Str(v)[10..] == Pad2(v.month);
  }

  /** The string form of a bio variable is its upper-cased value and never starts with `C`. */
  lemma StrShapeBio(v: WorldClimVar)
    requires v.BioVar?
    ensures Str(v) == Upper(BioValue(v.bio)) && Str(v)[0] != 'C'
  {
    BioValueInitial(v.bio);
  }

  /** Every bio value starts with a capital letter other than `C`. */
  lemma BioValueInitial(b: Bio)
    ensures |BioValue(b)| > 0 && BioValue(b)[0] in {'A', 'I', 'M', 'P', 'T'}
  {
  }

  /** The Python name of a quantity member. */
  function QuantityName(q: Quantity): string
  {
    match q
    case Prec => "PREC"
    case Srad => "SRAD"
    case Tavg => "TAVG"
    case Tmax => "TMAX"
    case Tmin => "TMIN"
    case Vapr => "VAPR"
    case Wind => "WIND"
  }

  /** Upper-casing a quantity's value gives the quantity's name. */
  lemma UpperQuantityValue(q: Quantity)
    ensures Upper(QuantityValue(q)) == QuantityName(q)
  {
    match q {
      case Prec => case Srad => case Tavg => case Tmax => case Tmin => case Vapr => case Wind =>
    }
  }

  /** Distinct quantities have distinct names. */
  lemma QuantityNameInjective(q1: Quantity, q2: Quantity)
    requires QuantityName(q1) == QuantityName(q2)
    ensures q1 == q2
  {
    var s1, s2 := QuantityName(q1), QuantityName(q2);
    assert s1[0] == s2[0] && s1[1] == s2[1] && s1[2] == s2[2];
  }

  /**
    A string form that names a monthly variable names no other variable: the
    quantity and month are read back from it.
  */
  lemma StrIdentifiesClim(v1: WorldClimVar, v2: WorldClimVar)
    requires v1.Clim? && Str(v1) == Str(v2)
    ensures v1 == v2
  {
    StrShapeClim(v1);
    if v2.BioVar? {
      StrShapeBio(v2);
    } else {
      StrShapeClim(v2);
    }
    var s := Str(v1);
    UpperQuantityValue(v1.quantity);
    if v2.Clim? {
      UpperQuantityValue(v2.quantity);
      assert s[5..9] == QuantityName(v1.quantity) == QuantityName(v2.quantity);
      QuantityNameInjective(v1.quantity, v2.quantity);
    }
  }

  // ---------------------------------------------------------------------------
  // Global enumerations

  /** Concatenation of a list of lists, as a nested comprehension produces it. */
  function Flatten<T>(xss: seq<seq<T>>): seq<T>
  {
    if xss == [] then [] else xss[0] + Flatten(xss[1..])
  }

  /** Flattening rows of equal length `n` puts element `j` of row `i` at `i * n + j`. */
  lemma {:induction false} FlattenAt<T>(xss: seq<seq<T>>, n: nat, i: nat, j: nat)
    requires forall k :: 0 <= k < |xss| ==> |xss[k]| == n
    requires i < |xss| && j < n
    ensures |Flatten(xss)| == |xss| * n
    ensures i * n + j < |Flatten(xss)| && Flatten(xss)[i * n + j] == xss[i][j]
  {
    FlattenLength(xss, n);
    assert Flatten(xss) == xss[0] + Flatten(xss[1..]) && |xss[0]| == n;
    if i > 0 {
      FlattenAt(xss[1..], n, i - 1, j);
      assert (i - 1) * n + j + n == i * n + j;
    }
  }

  /** Flattening `|xss|` rows of length `n` gives `|xss| * n` elements. */
  lemma {:induction false} FlattenLength<T>(xss: seq<seq<T>>, n: nat)
    requires forall k :: 0 <= k < |xss| ==> |xss[k]| == n
    ensures |Flatten(xss)| == |xss| * n
  {
    if xss != [] {
      FlattenLength(xss[1..], n);
    }
  }

  /** The twelve monthly variables of one quantity, months 1..12. */
  function MonthsOf(q: Quantity): seq<WorldClimVar>
  {
    seq(12, mi requires 0 <= mi < 12 => NewVar(QuantityMember(q), Some(mi + 1)).value)
  }

  /** `WorldClimQuantityVarAll`: quantity-major, months 1..12 within each quantity. */
  function QuantityVarAll(): (vars: seq<WorldClimVar>)
    ensures |vars| == 84
  {
    FlattenLength(seq(|QuantityAll|, qi requires 0 <= qi < |QuantityAll| => MonthsOf(QuantityAll[qi])), 12);
    Flatten(seq(|QuantityAll|, qi requires 0 <= qi < |QuantityAll| => MonthsOf(QuantityAll[qi])))
  }

  /** `WorldClimBioVarAll`: one variable per bio member, in declaration order. */
  function BioVarAll(): (vars: seq<WorldClimVar>)
    ensures |vars| == 19
  {
    seq(|BioAll|, bi requires 0 <= bi < |BioAll| => NewVar(BioMember(BioAll[bi]), None).value)
  }

  /** `WorldClimVarAll`: the monthly variables followed by the bio variables. */
  function VarAll(): (vars: seq<WorldClimVar>)
    ensures |vars| == 103
  {
    QuantityVarAll() + BioVarAll()
  }

  /** Position of a variable in `VarAll`. */
  function VarIndex(v: WorldClimVar): nat
  {
    match v
    case Clim(q, m) => 12 * QuantityIndex(q) + m - 1
    case BioVar(b) => 84 + BioIndex(b)
  }

  /**
    `VarAll` holds 7 x 12 monthly variables, quantity-major with months
    1..12 inside each quantity, then the 19 bio variables in declaration order.
  */
  lemma {:induction false} VarAllLayout()
    ensures |QuantityVarAll()| == 84 && |BioVarAll()| == 19 && |VarAll()| == 103
    ensures forall k :: 0 <= k < 84 ==> VarAll()[k] == Clim(QuantityAll[k / 12], k % 12 + 1)
    ensures forall k :: 84 <= k < 103 ==> VarAll()[k] == BioVar(BioAll[k - 84])
  {
    QuantityVarAllLayout();
    BioVarAllLayout();
    assert VarAll() == QuantityVarAll() + BioVarAll();
  }

  /** The monthly part of `VarAll`: entry k is quantity k / 12 for month k % 12 + 1. */
  lemma {:induction false} QuantityVarAllLayout()
    ensures |QuantityVarAll()| == 84
    ensures forall k :: 0 <= k < 84 ==> QuantityVarAll()[k] == Clim(QuantityAll[k / 12], k % 12 + 1)
  {
    var rows := seq(|QuantityAll|, qi requires 0 <= qi < |QuantityAll| => MonthsOf(QuantityAll[qi]));
    assert QuantityVarAll() == Flatten(rows);
    forall k | 0 <= k < 7
      ensures |rows[k]| == 12
    {
      MonthsOfAt(QuantityAll[k], 0);
    }
    FlattenLength(rows, 12);
    forall k | 0 <= k < 84
      ensures QuantityVarAll()[k] == Clim(QuantityAll[k / 12], k % 12 + 1)
    {
      var qi, mi := k / 12, k % 12;
      assert 0 <= qi < 7 && 0 <= mi < 12 && qi * 12 + mi == k;
      FlattenAt(rows, 12, qi, mi);
      MonthsOfAt(QuantityAll[qi], mi);
      assert QuantityVarAll()[k] == MonthsOf(QuantityAll[qi])[mi];
    }
  }

  /** Month `mi + 1` sits at position `mi` of a quantity's months. */
  lemma MonthsOfAt(q: Quantity, mi: nat)
    requires mi < 12
    ensures |MonthsOf(q)| == 12 && MonthsOf(q)[mi] == Clim(q, mi + 1)
  {
  }

  /** The bio part of `VarAll`: one variable per bio member, in declaration order. */
  lemma BioVarAllLayout()
    ensures |BioVarAll()| == 19
    ensures forall k :: 0 <= k < 19 ==> BioVarAll()[k] == BioVar(BioAll[k])
  {
  }

  /** Every variable occurs in `VarAll`, exactly once, at `VarIndex`. */
  lemma VarAllEnumerates(v: WorldClimVar)
    ensures VarIndex(v) < |VarAll()| && VarAll()[VarIndex(v)] == v
    ensures forall k :: 0 <= k < |VarAll()| && VarAll()[k] == v ==> k == VarIndex(v)
  {
    VarAllLayout();
    QuantityAllIndexed();
    BioAllIndexed();
    if v.Clim? {
      var k := VarIndex(v);
      assert k / 12 == QuantityIndex(v.quantity) && k % 12 + 1 == v.month;
    }
    forall k | 0 <= k < |VarAll()| && VarAll()[k] == v
      ensures k == VarIndex(v)
    {
      if k < 84 {
        assert k / 12 * 12 + k % 12 == k;
      }
    }
  }

  // ---------------------------------------------------------------------------
  // Variable names and file paths

  const WcPrefix: string := "wc2.0"
  const WcRes: string := "30s"

  /** The bio values in declaration order. */
  function BioKeys(): (keys: seq<string>)
    ensures |keys| == |BioAll|
    ensures forall i :: 0 <= i < |BioAll| ==> keys[i] == BioValue(BioAll[i])
  {
    seq(|BioAll|, i requires 0 <= i < |BioAll| => BioValue(BioAll[i]))
  }

  /** No key occurs at two positions. */
  predicate Distinct(keys: seq<string>)
  {
    forall i, j :: 0 <= i < |keys| && 0 <= j < |keys| && keys[i] == keys[j] ==> i == j
  }

  /** No two positions of `BioAll` hold members with the same value. */
  lemma BioKeysDistinct()
    ensures Distinct(BioKeys())
  {
    var keys := BioKeys();
    BioAllIndexed();
    forall i, j | 0 <= i < |keys| && 0 <= j < |keys| && keys[i] == keys[j]
      ensures i == j
    {
      BioValueInjective(BioAll[i], BioAll[j]);
    }
  }

  /** `{k: f"{idx:02}" for idx, k in enumerate(keys, start=1)}` for distinct keys. */
  function Numbering(keys: seq<string>): map<string, string>
    requires Distinct(keys)
  {
    map i | 0 <= i < |keys| :: keys[i] := Pad2(i + 1)
  }

  /** Each key of a numbering maps to its own 1-based position, two digits. */
  lemma NumberingAt(keys: seq<string>, i: nat)
    requires Distinct(keys) && i < |keys|
    ensures keys[i] in Numbering(keys) && Numbering(keys)[keys[i]] == Pad2(i + 1)
  {
  }

  /** The value-keyed lookup `bio_names`: each bio value maps to its 1-based position, two digits. */
  function BioNames(): (m: map<string, string>)
    ensures forall i :: 0 <= i < |BioKeys()| ==> BioKeys()[i] in m
    ensures forall k :: k in m ==> k in BioKeys() && |m[k]| == 2
  {
    BioKeysDistinct();
    var keys := BioKeys();
    assert forall k :: k in Numbering(keys) ==> |Numbering(keys)[k]| == 2 by {
      forall k | k in Numbering(keys)
        ensures |Numbering(keys)[k]| == 2
      {
        var i :| 0 <= i < |keys| && keys[i] == k;
        NumberingAt(keys, i);
      }
    }
    Numbering(keys)
  }

  /** `bio_names` has an entry for every bio variable: its 1-based position, two digits. */
  lemma BioNamesLookup(b: Bio)
    ensures BioValue(b) in BioNames() && BioNames()[BioValue(b)] == Pad2(BioIndex(b) + 1)
  {
    var keys, i := BioKeys(), BioIndex(b);
    BioKeysDistinct();
    assert BioAll[i] == b;
    assert keys[i] == BioValue(b);
    NumberingAt(keys, i);
  }

  /** `get_var_name`: `bio_30s_NN` for a bio variable, `30s_<value>_MM` for a monthly one. */
  function GetVarName(v: WorldClimVar): (name: string)
    ensures |name| == if v.BioVar? then 10 else 11
  {
    if Typ(v) == "bio" then
      BioNamesLookup(v.bio);
      "bio_" + WcRes + "_" + BioNames()[Value(v)]
    else
      QuantityValueLength(v.quantity);
      WcRes + "_" + Value(v) + "_" + Pad2(v.month)
  }

  /** A bio variable is named after its 1-based position in the bio enumeration, zero-padded to two digits. */
  lemma GetVarNameBio(b: Bio)
    ensures GetVarName(BioVar(b)) == "bio_30s_" + Pad2(BioIndex(b) + 1)
    ensures |GetVarName(BioVar(b))| == 10
  {
    BioNamesLookup(b);
    GetVarNameOfBio(b);
    BioPrefix(BioNames()[BioValue(b)]);
    Pad2RoundTrip(BioIndex(b) + 1);
  }

  /** `get_var_name` of a bio variable, before the resolution is spelled out. */
  lemma GetVarNameOfBio(b: Bio)
    requires BioValue(b) in BioNames()
    ensures GetVarName(BioVar(b)) == "bio_" + WcRes + "_" + BioNames()[BioValue(b)]
  {
    var v := BioVar(b);
    assert GetVarName(v) == "bio_" + WcRes + "_" + BioNames()[BioValue(b)] by {
      assert Typ(v) == "bio" && Value(v) == BioValue(b);
    }
  }

  /** The prefix of a bio name, spelled out. */
  lemma BioPrefix(x: string)
    ensures "bio_" + WcRes + "_" + x == "bio_30s_" + x
  {
  }

  /** A monthly variable is named after its quantity value and its two-digit month. */
  lemma GetVarNameClim(q: Quantity, m: Month)
    ensures GetVarName(Clim(q, m)) == "30s_" + QuantityValue(q) + "_" + Pad2(m)
    ensures |GetVarName(Clim(q, m))| == 11
  {
    GetVarNameOfClim(q, m);
    assert WcRes + "_" == "30s_";
    QuantityValueLength(q);
    Pad2RoundTrip(m);
  }

  /** `get_var_name` of a monthly variable, before the resolution is spelled out. */
  lemma GetVarNameOfClim(q: Quantity, m: Month)
    ensures GetVarName(Clim(q, m)) == WcRes + "_" + QuantityValue(q) + "_" + Pad2(m)
  {
    assert Typ(Clim(q, m)) != "bio" && Value(Clim(q, m)) == QuantityValue(q);
  }

  /** Every quantity value has four letters. */
  lemma QuantityValueLength(q: Quantity)
    ensures |QuantityValue(q)| == 4
  {
  }

  /** Distinct variables have distinct names, so each has a file of its own. */
  lemma GetVarNameInjective(v1: WorldClimVar, v2: WorldClimVar)
    requires GetVarName(v1) == GetVarName(v2)
    ensures v1 == v2
  {
    match v1 {
      case BioVar(b1) =>
        GetVarNameBio(b1);
        match v2 {
          case BioVar(b2) => BioNamesInjective(b1, b2);
          case Clim(q2, m2) => GetVarNameClim(q2, m2);
        }
      case Clim(q1, m1) =>
        GetVarNameClim(q1, m1);
        match v2 {
          case BioVar(b2) => GetVarNameBio(b2);
          case Clim(q2, m2) => ClimNamesInjective(q1, m1, q2, m2);
        }
    }
  }

  /** Two bio variables with the same name are the same. */
  lemma BioNamesInjective(b1: Bio, b2: Bio)
    requires GetVarName(BioVar(b1)) == GetVarName(BioVar(b2))
    ensures b1 == b2
  {
    GetVarNameBio(b1);
    GetVarNameBio(b2);
    FrameCancel("bio_30s_", Pad2(BioIndex(b1) + 1), Pad2(BioIndex(b2) + 1), [], []);
    Pad2Injective(BioIndex(b1) + 1, BioIndex(b2) + 1);
  }

  /** Two monthly variables with the same name share quantity and month. */
  lemma ClimNamesInjective(q1: Quantity, m1: Month, q2: Quantity, m2: Month)
    requires GetVarName(Clim(q1, m1)) == GetVarName(Clim(q2, m2))
    ensures q1 == q2 && m1 == m2
  {
    GetVarNameOfClim(q1, m1);
    GetVarNameOfClim(q2, m2);
    QuantityValueLength(q1);
    QuantityValueLength(q2);
    var pre := WcRes + "_";
    SplitAtSeparator(pre, QuantityValue(q1), Pad2(m1), QuantityValue(q2), Pad2(m2), []);
    QuantityValueInjective(q1, q2);
    Pad2Injective(m1, m2);
  }

  /** `get_file_path`: `<wcdir>/wc2.0_<name>.tif`. */
  function GetFilePath(wcdir: string, v: WorldClimVar): (path: string)
    ensures StartsWith(path, wcdir + "/" + WcPrefix + "_") && EndsWith(path, ".tif")
    ensures path[|wcdir| + 7..] == GetVarName(v) + ".tif"
  {
    Framed(wcdir + "/" + WcPrefix + "_", GetVarName(v), ".tif");
    wcdir + "/" + WcPrefix + "_" + GetVarName(v) + ".tif"
  }

  /** Within one directory, distinct variables resolve to distinct files. */
  lemma GetFilePathInjective(wcdir: string, v1: WorldClimVar, v2: WorldClimVar)
    requires GetFilePath(wcdir, v1) == GetFilePath(wcdir, v2)
    ensures v1 == v2
  {
    var pre := wcdir + "/" + WcPrefix + "_";
    assert GetFilePath(wcdir, v1) == pre + GetVarName(v1) + ".tif";
    assert GetFilePath(wcdir, v2) == pre + GetVarName(v2) + ".tif";
    FrameCancel(pre, GetVarName(v1), GetVarName(v2), ".tif", ".tif");
    GetVarNameInjective(v1, v2);
  }

  // ---------------------------------------------------------------------------
  // The catalogue

  /** A six-coefficient affine map from (column, row) to (x, y). */
  datatype Affine = Affine(a: real, b: real, c: real, d: real, e: real, f: real)

  function Apply(t: Affine, col: real, row: real): (real, real)
  {
    (t.a * col + t.b * row + t.c, t.d * col + t.e * row + t.f)
  }

  /** The base transform: the file's transform with its origin moved by half a pixel in x and y. */
  function HalfPixelShift(t: Affine): (s: Affine)
    ensures s.a == t.a && s.b == t.b && s.d == t.d && s.e == t.e
    ensures s.c == t.c - t.a / 2.0 && s.f == t.f - t.e / 2.0
    ensures t.b == 0.0 && t.d == 0.0 ==> Apply(s, 0.5, 0.5) == Apply(t, 0.0, 0.0)
  {
    Affine(t.a, t.b, t.c - t.a / 2.0, t.d, t.e, t.f - t.e / 2.0)
  }

  /**
    For a transform without rotation, the shifted transform puts pixel
    coordinate (col + 1/2, row + 1/2) where the file's transform puts (col, row).
  */
  lemma HalfPixelShiftMovesCentres(t: Affine, col: real, row: real)
    requires t.b == 0.0 && t.d == 0.0
    ensures Apply(HalfPixelShift(t), col + 0.5, row + 0.5) == Apply(t, col, row)
  {
    var p, q := Apply(HalfPixelShift(t), col + 0.5, row + 0.5), Apply(t, col, row);
    assert t.a * (col + 0.5) == t.a * col + t.a / 2.0;
    assert t.e * (row + 0.5) == t.e * row + t.e / 2.0;
    assert t.b * (row + 0.5) == 0.0 && t.d * (col + 0.5) == 0.0 && t.b * row == 0.0 && t.d * col == 0.0;
    assert p.0 == t.a * (col + 0.5) + t.b * (row + 0.5) + (t.c - t.a / 2.0);
    assert q.0 == t.a * col + t.b * row + t.c;
    assert p.0 == q.0;
    assert p.1 == t.d * (col + 0.5) + t.e * (row + 0.5) + (t.f - t.e / 2.0);
    assert q.1 == t.d * col + t.e * row + t.f;
    assert p.1 == q.1;
  }

  /** Row `mi` holds the files of all quantities for month `mi + 1`. */
  function ClimRows(wcdir: string): (rows: seq<seq<string>>)
    ensures |rows| == 12
    ensures forall mi :: 0 <= mi < 12 ==> |rows[mi]| == 7
    ensures forall mi, qi :: 0 <= mi < 12 && 0 <= qi < 7 ==>
              rows[mi][qi] == GetFilePath(wcdir, Clim(QuantityAll[qi], mi + 1))
  {
    seq(12, mi requires 0 <= mi < 12 =>
      seq(|QuantityAll|, qi requires 0 <= qi < |QuantityAll| =>
        GetFilePath(wcdir, NewVar(QuantityMember(QuantityAll[qi]), Some(mi + 1)).value)))
  }

  /** The monthly files as the catalogue lists them: month-major, all quantities of one month together. */
  function ClimFiles(wcdir: string): (files: seq<string>)
    ensures |files| == 84
  {
    FlattenLength(ClimRows(wcdir), 7);
    Flatten(ClimRows(wcdir))
  }

  /** The bio files, in declaration order. */
  function BioFiles(wcdir: string): (files: seq<string>)
    ensures |files| == 19
    ensures forall k :: 0 <= k < 19 ==> files[k] == GetFilePath(wcdir, BioVar(BioAll[k]))
  {
    seq(|BioAll|, bi requires 0 <= bi < |BioAll| => GetFilePath(wcdir, NewVar(BioMember(BioAll[bi]), None).value))
  }

  /** Monthly file `7 * (m - 1) + i` is that of quantity `i` for month `m`; the first is precipitation of January. */
  lemma {:induction false} ClimFilesLayout(wcdir: string)
    ensures |ClimFiles(wcdir)| == 84
    ensures forall k :: 0 <= k < 84 ==> ClimFiles(wcdir)[k] == GetFilePath(wcdir, Clim(QuantityAll[k % 7], k / 7 + 1))
  {
    forall k | 0 <= k < 84
      ensures ClimFiles(wcdir)[k] == GetFilePath(wcdir, Clim(QuantityAll[k % 7], k / 7 + 1))
    {
      ClimFileAt(wcdir, k / 7, k % 7);
    }
  }

  /** The monthly file at row `mi`, column `qi` of the month-by-quantity grid. */
  lemma ClimFileAt(wcdir: string, mi: nat, qi: nat)
    requires mi < 12 && qi < 7
    ensures mi * 7 + qi < |ClimFiles(wcdir)|
    ensures ClimFiles(wcdir)[mi * 7 + qi] == GetFilePath(wcdir, Clim(QuantityAll[qi], mi + 1))
  {
    var rows := ClimRows(wcdir);
    FlattenAt(rows, 7, mi, qi);
  }

  /**
    `WorldClimData`: the data directory, the monthly files in month-major order
    (all quantities of month 1 first), the bio files, and the base transform.
  */
  datatype Catalog = Catalog(wcdir: string, climfiles: seq<string>, biofiles: seq<string>, transform: Affine)

  /**
    `WorldClimData(wcdir)`. The transform of the first monthly file is read by
    `fileTransform`, which stands for opening that file.
  */
  function NewCatalog(wcdir: string, fileTransform: string -> Affine): (cat: Catalog)
    ensures cat.wcdir == wcdir
    ensures |cat.climfiles| == 84 && |cat.biofiles| == 19
    ensures forall k :: 0 <= k < 84 ==> cat.climfiles[k] == GetFilePath(wcdir, Clim(QuantityAll[k % 7], k / 7 + 1))
    ensures forall k :: 0 <= k < 19 ==> cat.biofiles[k] == GetFilePath(wcdir, BioVar(BioAll[k]))
    ensures cat.transform == HalfPixelShift(fileTransform(GetFilePath(wcdir, Clim(Prec, 1))))
  {
    ClimFilesLayout(wcdir);
    var climfiles := ClimFiles(wcdir);
    Catalog(wcdir, climfiles, BioFiles(wcdir), HalfPixelShift(fileTransform(climfiles[0])))
  }

  // ---------------------------------------------------------------------------
  // The pixel window of a bounding box

  /** A box in the catalogue's coordinates; nothing orders its edges. */
  datatype BoundingBox = BoundingBox(left: real, bottom: real, right: real, top: real)

  /**
    What `rowcol` returns for the corners (left, top) and (right, bottom):
    their rows `top` and `bottom` and their columns `left` and `right`.
  */
  datatype Corners = Corners(top: int, bottom: int, left: int, right: int)

  /** A read window `((top, bottom), (left, right))`: rows top..bottom, columns left..right. */
  datatype PixelWindow = PixelWindow(top: int, bottom: int, left: int, right: int)

  function Min(x: int, y: int): int { if x <= y then x else y }

  function Max(x: int, y: int): int { if x <= y then y else x }

  function Height(w: PixelWindow): int { w.bottom - w.top }

  function Width(w: PixelWindow): int { w.right - w.left }

  /** Every row and column of `c` lies inside `w`. */
  predicate Encloses(w: PixelWindow, c: Corners)
  {
    && w.top <= c.top <= w.bottom && w.top <= c.bottom <= w.bottom
    && w.left <= c.left <= w.right && w.left <= c.right <= w.right
  }

  /** `w` lies inside `outer`. */
  predicate Within(w: PixelWindow, outer: PixelWindow)
  {
    outer.top <= w.top && w.bottom <= outer.bottom && outer.left <= w.left && w.right <= outer.right
  }

  /**
    The window of `crop_to_bbox`: the outer envelope of the floor candidates
    `fl` and the ceil candidates `ce`. Each edge is one of the candidates, every
    candidate lies inside, and the window has non-negative height and width.
  */
  function CropWindow(fl: Corners, ce: Corners): (w: PixelWindow)
    ensures Encloses(w, fl) && Encloses(w, ce)
    ensures w.left in {fl.left, fl.right, ce.left, ce.right}
    ensures w.right in {fl.left, fl.right, ce.left, ce.right}
    ensures w.top in {fl.top, fl.bottom, ce.top, ce.bottom}
    ensures w.bottom in {fl.top, fl.bottom, ce.top, ce.bottom}
    ensures w.left <= w.right && w.top <= w.bottom && Height(w) >= 0 && Width(w) >= 0
  {
    var left := Min(Min(ce.left, ce.right), Min(fl.left, fl.right));
    var right := Max(Max(ce.left, ce.right), Max(fl.left, fl.right));
    var bottom := Max(Max(ce.bottom, ce.top), Max(fl.bottom, fl.top));
    var top := Min(Min(ce.bottom, ce.top), Min(fl.bottom, fl.top));
    PixelWindow(top, bottom, left, right)
  }

  /** No window that encloses all the candidates is smaller than `CropWindow`'s. */
  lemma CropWindowIsSmallest(fl: Corners, ce: Corners, w: PixelWindow)
    requires Encloses(w, fl) && Encloses(w, ce)
    ensures Within(CropWindow(fl, ce), w)
  {
  }

  /** Rounding to an integer in the direction `np.floor` or `np.ceil` takes. */
  datatype Rounding = Floor | Ceil

  function Round(r: real, op: Rounding): (n: int)
    ensures op == Floor ==> n as real <= r < n as real + 1.0
    ensures op == Ceil ==> n as real - 1.0 < r <= n as real
    ensures r == r.Floor as real ==> n == r.Floor
  {
    if op == Floor then r.Floor else -((-r).Floor)
  }

  function Det(t: Affine): real
  {
    t.a * t.e - t.b * t.d
  }

  /** The fractional (column, row) that an invertible transform maps to (x, y). */
  function Inverse(t: Affine, x: real, y: real): (real, real)
    requires Det(t) != 0.0
  {
    ((t.e * (x - t.c) - t.b * (y - t.f)) / Det(t), (t.a * (y - t.f) - t.d * (x - t.c)) / Det(t))
  }

  /** `Inverse` undoes `Apply`. */
  lemma InverseInverts(t: Affine, x: real, y: real)
    requires Det(t) != 0.0
    ensures Apply(t, Inverse(t, x, y).0, Inverse(t, x, y).1) == (x, y)
  {
    var D := Det(t);
    var X, Y := x - t.c, y - t.f;
    var u, v := Inverse(t, x, y).0, Inverse(t, x, y).1;
    assert u * D == t.e * X - t.b * Y;
    assert v * D == t.a * Y - t.d * X;
    assert (t.a * u + t.b * v) * D == t.a * (u * D) + t.b * (v * D);
    assert (t.d * u + t.e * v) * D == t.d * (u * D) + t.e * (v * D);
    assert (t.a * u + t.b * v) * D == X * D;
    assert (t.d * u + t.e * v) * D == Y * D;
    assert t.a * u + t.b * v == X;
    assert t.d * u + t.e * v == Y;
    assert Apply(t, u, v).0 == x && Apply(t, u, v).1 == y;
  }

  /**
    rasterio's `rowcol(transform, [left, right], [top, bottom], op)` in exact
    arithmetic: the corners' inverse coordinates, rounded by `op`.
  */
  function IdealRowCol(t: Affine, bbox: BoundingBox, op: Rounding): (c: Corners)
    requires Det(t) != 0.0
    ensures var tl, br := Inverse(t, bbox.left, bbox.top), Inverse(t, bbox.right, bbox.bottom);
      op == Floor ==>
        && c.left as real <= tl.0 < c.left as real + 1.0 && c.right as real <= br.0 < c.right as real + 1.0
        && c.top as real <= tl.1 < c.top as real + 1.0 && c.bottom as real <= br.1 < c.bottom as real + 1.0
    ensures var tl, br := Inverse(t, bbox.left, bbox.top), Inverse(t, bbox.right, bbox.bottom);
      op == Ceil ==>
        && c.left as real - 1.0 < tl.0 <= c.left as real && c.right as real - 1.0 < br.0 <= c.right as real
        && c.top as real - 1.0 < tl.1 <= c.top as real && c.bottom as real - 1.0 < br.1 <= c.bottom as real
  {
    var tl := Inverse(t, bbox.left, bbox.top);
    var br := Inverse(t, bbox.right, bbox.bottom);
    Corners(Round(tl.1, op), Round(br.1, op), Round(tl.0, op), Round(br.0, op))
  }

  /** The window of the ideal floor and ceil candidates. */
  function IdealWindow(t: Affine, bbox: BoundingBox): PixelWindow
    requires Det(t) != 0.0
  {
    CropWindow(IdealRowCol(t, bbox, Floor), IdealRowCol(t, bbox, Ceil))
  }

  /** `lo <= x <= hi` with the two ends in either order. */
  predicate Between(lo: real, x: real, hi: real)
  {
    (lo <= x <= hi) || (hi <= x <= lo)
  }

  /** The pixel coordinate `u` lies between pixel indices `lo` and `hi`. */
  predicate InSpan(lo: int, u: real, hi: int)
  {
    lo as real <= u <= hi as real
  }

  /** In pixel space the window holds both corners of the box. */
  lemma IdealWindowHoldsCorners(t: Affine, bbox: BoundingBox)
    requires Det(t) != 0.0
    ensures var w, tl, br := IdealWindow(t, bbox), Inverse(t, bbox.left, bbox.top), Inverse(t, bbox.right, bbox.bottom);
      && InSpan(w.left, tl.0, w.right) && InSpan(w.left, br.0, w.right)
      && InSpan(w.top, tl.1, w.bottom) && InSpan(w.top, br.1, w.bottom)
  {
  }

  /** The window overshoots each edge of the box by less than one pixel. */
  lemma IdealWindowOvershoot(t: Affine, bbox: BoundingBox)
    requires Det(t) != 0.0
    ensures var w, tl, br := IdealWindow(t, bbox), Inverse(t, bbox.left, bbox.top), Inverse(t, bbox.right, bbox.bottom);
      && (tl.0 - 1.0 < w.left as real || br.0 - 1.0 < w.left as real)
      && (w.right as real < tl.0 + 1.0 || w.right as real < br.0 + 1.0)
      && (tl.1 - 1.0 < w.top as real || br.1 - 1.0 < w.top as real)
      && (w.bottom as real < tl.1 + 1.0 || w.bottom as real < br.1 + 1.0)
  {
  }

  /** A point whose pixel coordinate lies between two pixel indices lies between their images. */
  lemma ScaleBetween(a: real, c: real, lo: int, u: real, hi: int, x: real)
    requires InSpan(lo, u, hi)
    requires MapsTo(a, c, u, x)
    ensures Between(a * lo as real + c, x, a * hi as real + c)
  {
    if a >= 0.0 {
      assert a * (u - lo as real) >= 0.0 && a * (hi as real - u) >= 0.0;
    } else {
      assert a * (u - lo as real) <= 0.0 && a * (hi as real - u) <= 0.0;
    }
  }

  /** Two points whose pixel coordinates lie in `lo..hi` lie between the images of `lo` and `hi`. */
  lemma WindowCoversAxis(a: real, c: real, lo: int, hi: int, u1: real, u2: real, x1: real, x2: real)
    requires InSpan(lo, u1, hi) && InSpan(lo, u2, hi)
    requires MapsTo(a, c, u1, x1) && MapsTo(a, c, u2, x2)
    ensures Between(a * lo as real + c, x1, a * hi as real + c)
    ensures Between(a * lo as real + c, x2, a * hi as real + c)
  {
    ScaleBetween(a, c, lo, u1, hi, x1);
    ScaleBetween(a, c, lo, u2, hi, x2);
  }

  /** Along one axis, scale `a` and offset `c` take pixel coordinate `u` to `x`. */
  predicate MapsTo(a: real, c: real, u: real, x: real)
  {
    a * u + c == x
  }

  /** Without rotation, each inverse coordinate depends on one axis only. */
  lemma AxisAlignedInverse(t: Affine, x: real, y: real)
    requires t.b == 0.0 && t.d == 0.0 && t.a != 0.0 && t.e != 0.0
    ensures Det(t) != 0.0
    ensures MapsTo(t.a, t.c, Inverse(t, x, y).0, x) && MapsTo(t.e, t.f, Inverse(t, x, y).1, y)
  {
    assert Det(t) == t.a * t.e;
    InverseInverts(t, x, y);
    var u, v := Inverse(t, x, y).0, Inverse(t, x, y).1;
    assert t.b * v == 0.0 && t.d * u == 0.0;
  }

  /** The images of the window's first and last columns bracket the box's left and right edges. */
  predicate CoversColumns(t: Affine, w: PixelWindow, bbox: BoundingBox)
  {
    && Between(t.a * w.left as real + t.c, bbox.left, t.a * w.right as real + t.c)
    && Between(t.a * w.left as real + t.c, bbox.right, t.a * w.right as real + t.c)
  }

  /** The images of the window's first and last rows bracket the box's top and bottom edges. */
  predicate CoversRows(t: Affine, w: PixelWindow, bbox: BoundingBox)
  {
    && Between(t.e * w.top as real + t.f, bbox.top, t.e * w.bottom as real + t.f)
    && Between(t.e * w.top as real + t.f, bbox.bottom, t.e * w.bottom as real + t.f)
  }

  /** A window whose columns hold the pixel coordinates `u1`, `u2` of the box's left and right edges covers them. */
  lemma ColumnsCovered(t: Affine, w: PixelWindow, bbox: BoundingBox, u1: real, u2: real)
    requires InSpan(w.left, u1, w.right) && InSpan(w.left, u2, w.right)
    requires MapsTo(t.a, t.c, u1, bbox.left) && MapsTo(t.a, t.c, u2, bbox.right)
    ensures CoversColumns(t, w, bbox)
  {
    WindowCoversAxis(t.a, t.c, w.left, w.right, u1, u2, bbox.left, bbox.right);
  }

  /** A window whose rows hold the pixel coordinates `v1`, `v2` of the box's top and bottom edges covers them. */
  lemma RowsCovered(t: Affine, w: PixelWindow, bbox: BoundingBox, v1: real, v2: real)
    requires InSpan(w.top, v1, w.bottom) && InSpan(w.top, v2, w.bottom)
    requires MapsTo(t.e, t.f, v1, bbox.top) && MapsTo(t.e, t.f, v2, bbox.bottom)
    ensures CoversRows(t, w, bbox)
  {
    WindowCoversAxis(t.e, t.f, w.top, w.bottom, v1, v2, bbox.top, bbox.bottom);
  }

  /** Without rotation, the window's first and last columns bracket the box's left and right edges. */
  lemma IdealWindowCoversColumns(t: Affine, bbox: BoundingBox)
    requires t.b == 0.0 && t.d == 0.0 && t.a != 0.0 && t.e != 0.0
    ensures Det(t) != 0.0
    ensures CoversColumns(t, IdealWindow(t, bbox), bbox)
  {
    assert Det(t) != 0.0 by {
      AxisAlignedInverse(t, bbox.left, bbox.top);
    }
    var w := IdealWindow(t, bbox);
    var u1, u2 := Inverse(t, bbox.left, bbox.top).0, Inverse(t, bbox.right, bbox.bottom).0;
    IdealWindowHoldsCorners(t, bbox);
    AxisAlignedInverse(t, bbox.left, bbox.top);
    AxisAlignedInverse(t, bbox.right, bbox.bottom);
    ColumnsCovered(t, w, bbox, u1, u2);
  }

  /** Without rotation, the window's first and last rows bracket the box's top and bottom edges. */
  lemma IdealWindowCoversRows(t: Affine, bbox: BoundingBox)
    requires t.b == 0.0 && t.d == 0.0 && t.a != 0.0 && t.e != 0.0
    ensures Det(t) != 0.0
    ensures CoversRows(t, IdealWindow(t, bbox), bbox)
  {
    assert Det(t) != 0.0 by {
      AxisAlignedInverse(t, bbox.left, bbox.top);
    }
    var w := IdealWindow(t, bbox);
    var v1, v2 := Inverse(t, bbox.left, bbox.top).1, Inverse(t, bbox.right, bbox.bottom).1;
    IdealWindowHoldsCorners(t, bbox);
    AxisAlignedInverse(t, bbox.left, bbox.top);
    AxisAlignedInverse(t, bbox.right, bbox.bottom);
    RowsCovered(t, w, bbox, v1, v2);
  }

  /**
    When the box's corners fall exactly on pixel boundaries the floor and ceil
    candidates coincide, and the window's edges map exactly onto the box's
    edges: no overshoot.
  */
  lemma AlignedBoxHasNoOvershoot(t: Affine, bbox: BoundingBox)
    requires Det(t) != 0.0
    requires var tl, br := Inverse(t, bbox.left, bbox.top), Inverse(t, bbox.right, bbox.bottom);
      && tl.0 == tl.0.Floor as real && tl.1 == tl.1.Floor as real
      && br.0 == br.0.Floor as real && br.1 == br.1.Floor as real
    ensures IdealRowCol(t, bbox, Floor) == IdealRowCol(t, bbox, Ceil)
    ensures var w := IdealWindow(t, bbox);
      var tl, br := Inverse(t, bbox.left, bbox.top), Inverse(t, bbox.right, bbox.bottom);
      && w.left as real == (if tl.0 <= br.0 then tl.0 else br.0)
      && w.right as real == (if tl.0 <= br.0 then br.0 else tl.0)
      && w.top as real == (if tl.1 <= br.1 then tl.1 else br.1)
      && w.bottom as real == (if tl.1 <= br.1 then br.1 else tl.1)
  {
  }

  /**
    Without rotation, the half-pixel shift moves every fractional pixel
    coordinate by one half: the base transform's column and row of a point are
    the file transform's plus 1/2.
  */
  lemma HalfPixelShiftInverse(f: Affine, x: real, y: real)
    requires f.b == 0.0 && f.d == 0.0 && f.a != 0.0 && f.e != 0.0
    ensures Det(f) != 0.0 && Det(HalfPixelShift(f)) != 0.0
    ensures Inverse(HalfPixelShift(f), x, y) == (Inverse(f, x, y).0 + 0.5, Inverse(f, x, y).1 + 0.5)
  {
    var t := HalfPixelShift(f);
    AxisAlignedInverse(f, x, y);
    AxisAlignedInverse(t, x, y);
    var u, v := Inverse(f, x, y).0, Inverse(f, x, y).1;
    var u', v' := Inverse(t, x, y).0, Inverse(t, x, y).1;
    ShiftedCoordinate(f.a, f.c, u, u', x);
    ShiftedCoordinate(f.e, f.f, v, v', y);
  }

  /** If scale `a` takes `u` to `x` from offset `c`, and `u'` to `x` from offset `c - a / 2`, then `u' = u + 1/2`. */
  lemma ShiftedCoordinate(a: real, c: real, u: real, u': real, x: real)
    requires a != 0.0
    requires MapsTo(a, c - a / 2.0, u', x) && MapsTo(a, c, u, x)
    ensures u' == u + 0.5
  {
    var p, q := a * u', a * u;
    assert p + (c - a / 2.0) == x && q + c == x;
    assert a * (u + 0.5) == q + a / 2.0;
    CancelFactor(a, u', u + 0.5);
  }

  /** A non-zero factor cancels. */
  lemma CancelFactor(a: real, p: real, q: real)
    requires a != 0.0 && a * p == a * q
    ensures p == q
  {
    assert a * (p - q) == 0.0;
  }

  /**
    On the file's own grid the window may start up to half a pixel inside the
    box: the file's fractional column of each vertical box edge lies between
    `left - 1/2` and `right - 1/2`, and likewise for rows. So the pixels read,
    columns `left` to `right - 1`, cover the box except for at most half a
    pixel before the window's first column and row.
  */
  lemma ShiftedWindowOnFileGrid(f: Affine, bbox: BoundingBox)
    requires f.b == 0.0 && f.d == 0.0 && f.a != 0.0 && f.e != 0.0
    ensures Det(f) != 0.0 && Det(HalfPixelShift(f)) != 0.0
    ensures var w, tl, br := IdealWindow(HalfPixelShift(f), bbox), Inverse(f, bbox.left, bbox.top), Inverse(f, bbox.right, bbox.bottom);
      && InSpan(w.left, tl.0 + 0.5, w.right) && InSpan(w.left, br.0 + 0.5, w.right)
      && InSpan(w.top, tl.1 + 0.5, w.bottom) && InSpan(w.top, br.1 + 0.5, w.bottom)
  {
    HalfPixelShiftInverse(f, bbox.left, bbox.top);
    HalfPixelShiftInverse(f, bbox.right, bbox.bottom);
    IdealWindowHoldsCorners(HalfPixelShift(f), bbox);
  }

  /**
    The half pixel can be lost: with unit pixels at the origin and a box from
    x = -0.2 to 2.0 and y = -2.0 to 0.2, the window is rows and columns 0 to 3,
    whose file pixels start at x = 0 and y = 0, inside the box.
  */
  lemma ShiftedWindowMissesBox()
    ensures var f, bbox := Affine(1.0, 0.0, 0.0, 0.0, -1.0, 0.0), BoundingBox(-0.2, -2.0, 2.0, 0.2);
      && Det(HalfPixelShift(f)) != 0.0
      && IdealWindow(HalfPixelShift(f), bbox) == PixelWindow(0, 3, 0, 3)
      && !CoversColumns(f, IdealWindow(HalfPixelShift(f), bbox), bbox)
      && !CoversRows(f, IdealWindow(HalfPixelShift(f), bbox), bbox)
  {
    var f, bbox := Affine(1.0, 0.0, 0.0, 0.0, -1.0, 0.0), BoundingBox(-0.2, -2.0, 2.0, 0.2);
    assert HalfPixelShift(f) == Affine(1.0, 0.0, -0.5, 0.0, -1.0, 0.5);
    UnitShiftedWindow();
    UnitGridMissesBox();
  }

  /** On the unit grid, columns and rows 0 to 3 start inside the box above. */
  lemma UnitGridMissesBox()
    ensures var f, bbox := Affine(1.0, 0.0, 0.0, 0.0, -1.0, 0.0), BoundingBox(-0.2, -2.0, 2.0, 0.2);
      !CoversColumns(f, PixelWindow(0, 3, 0, 3), bbox) && !CoversRows(f, PixelWindow(0, 3, 0, 3), bbox)
  {
    var f, w := Affine(1.0, 0.0, 0.0, 0.0, -1.0, 0.0), PixelWindow(0, 3, 0, 3);
    assert f.a * w.left as real + f.c == 0.0 && f.a * w.right as real + f.c == 3.0;
    assert f.e * w.top as real + f.f == 0.0 && f.e * w.bottom as real + f.f == -3.0;
  }

  /** The window of the box above on the unit grid shifted by half a pixel. */
  lemma UnitShiftedWindow()
    ensures var t, bbox := Affine(1.0, 0.0, -0.5, 0.0, -1.0, 0.5), BoundingBox(-0.2, -2.0, 2.0, 0.2);
      Det(t) != 0.0 && IdealWindow(t, bbox) == PixelWindow(0, 3, 0, 3)
  {
    var t, bbox := Affine(1.0, 0.0, -0.5, 0.0, -1.0, 0.5), BoundingBox(-0.2, -2.0, 2.0, 0.2);
    assert Det(t) == -1.0;
    assert Inverse(t, bbox.left, bbox.top) == (0.3, 0.3);
    assert Inverse(t, bbox.right, bbox.bottom) == (2.5, 2.5);
    assert IdealRowCol(t, bbox, Floor) == Corners(0, 2, 0, 2);
    assert IdealRowCol(t, bbox, Ceil) == Corners(1, 3, 1, 3);
  }

  // ---------------------------------------------------------------------------
  // The cropped stack

  /** `w` encloses the candidates `fl` and `ce`, and lies inside every window that does. */
  ghost predicate Envelope(w: PixelWindow, fl: Corners, ce: Corners)
  {
    && Encloses(w, fl) && Encloses(w, ce)
    && forall w' :: Encloses(w', fl) && Encloses(w', ce) ==> Within(w, w')
  }

  /**
    `crop_to_bbox(imfile, bbox)`: `imfile` read at the smallest window that
    encloses the floor and ceil `rowcol` candidates of the box's corners,
    computed on the catalogue's base transform. `rowcol` stands for rasterio's
    `rowcol` and `read` for opening the file and reading a window.
  */
  function CropToBbox<L>(cat: Catalog, imfile: string, bbox: BoundingBox,
                         rowcol: (Affine, BoundingBox, Rounding) -> Corners,
                         read: (string, PixelWindow) -> L): (image: L)
    ensures var fl, ce := rowcol(cat.transform, bbox, Floor), rowcol(cat.transform, bbox, Ceil);
      exists w :: Envelope(w, fl, ce) && image == read(imfile, w)
  {
    var fl := rowcol(cat.transform, bbox, Floor);
    var ce := rowcol(cat.transform, bbox, Ceil);
    assert Envelope(CropWindow(fl, ce), fl, ce);
    read(imfile, CropWindow(fl, ce))
  }

  /** The variables a call reads: those requested, or all of them when none are named. */
  function Requested(wcVars: Option<seq<WorldClimVar>>): (vars: seq<WorldClimVar>)
    ensures wcVars.Some? ==> vars == wcVars.value
    ensures wcVars.None? ==> vars == VarAll() && |vars| == 103
  {
    if wcVars.None? then VarAll() else wcVars.value
  }

  /**
    The layers of `vars`' files, in order: each is `select` applied to the
    crop, where `select` stands for the `[0, :, :]` that keeps the crop's
    first band.
  */
  function Stack<L, M>(cat: Catalog, bbox: BoundingBox, vars: seq<WorldClimVar>,
                       rowcol: (Affine, BoundingBox, Rounding) -> Corners,
                       read: (string, PixelWindow) -> L, select: L -> M): (layers: seq<M>)
    ensures |layers| == |vars|
    ensures forall i :: 0 <= i < |vars| ==>
              layers[i] == select(CropToBbox(cat, GetFilePath(cat.wcdir, vars[i]), bbox, rowcol, read))
  {
    seq(|vars|, i requires 0 <= i < |vars| => select(CropToBbox(cat, GetFilePath(cat.wcdir, vars[i]), bbox, rowcol, read)))
  }

  /**
    `get_wc_for_bbox`: one cropped layer per requested variable, in request
    order and with repeats kept, and a transform that keeps the base
    transform's coefficients a, b, d, e and moves the origin to the box's
    top-left corner. Stacking no layers fails.
  */
  function GetWcForBbox<L, M>(cat: Catalog, bbox: BoundingBox, wcVars: Option<seq<WorldClimVar>>,
                              rowcol: (Affine, BoundingBox, Rounding) -> Corners,
                              read: (string, PixelWindow) -> L, select: L -> M): (r: Result<(seq<M>, Affine), Error>)
    ensures r.Success? <==> wcVars.None? || |wcVars.value| > 0
    ensures r.Failure? ==> r.error == EmptyStack
    ensures r.Success? ==> |r.value.0| == |Requested(wcVars)|
    ensures r.Success? ==>
              forall i :: 0 <= i < |Requested(wcVars)| ==>
                r.value.0[i] == select(CropToBbox(cat, GetFilePath(cat.wcdir, Requested(wcVars)[i]), bbox, rowcol, read))
    ensures r.Success? ==>
              forall i, j ::
                0 <= i < |Requested(wcVars)| && 0 <= j < |Requested(wcVars)| && Requested(wcVars)[i] == Requested(wcVars)[j]
                ==> r.value.0[i] == r.value.0[j]
    ensures r.Success? ==>
              var t, base := r.value.1, cat.transform;
              && t.a == base.a && t.b == base.b && t.d == base.d && t.e == base.e
              && Apply(t, 0.0, 0.0) == (bbox.left, bbox.top)
  {
    if wcVars.Some? && |wcVars.value| == 0 then
      Failure(EmptyStack)
    else
      Success((Stack(cat, bbox, Requested(wcVars), rowcol, read, select),
               Affine(cat.transform.a, cat.transform.b, bbox.left, cat.transform.d, cat.transform.e, bbox.top)))
  }

  /** Without a variable list, the stack holds all 103 variables in `VarAll` order. */
  lemma DefaultStackReadsAll<L, M>(cat: Catalog, bbox: BoundingBox,
                                   rowcol: (Affine, BoundingBox, Rounding) -> Corners,
                                   read: (string, PixelWindow) -> L, select: L -> M)
    ensures var r := GetWcForBbox(cat, bbox, None, rowcol, read, select);
      && r.Success? && |r.value.0| == 103
      && (forall i :: 0 <= i < 103 ==>
            r.value.0[i] == select(CropToBbox(cat, GetFilePath(cat.wcdir, VarAll()[i]), bbox, rowcol, read)))
      && r.value.0[0] == select(CropToBbox(cat, GetFilePath(cat.wcdir, Clim(Prec, 1)), bbox, rowcol, read))
      && r.value.0[102] == select(CropToBbox(cat, GetFilePath(cat.wcdir, BioVar(PrecColdestQuart)), bbox, rowcol, read))
  {
    VarAllLayout();
  }
}
