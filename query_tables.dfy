/**
 The concrete cases the repository's query tests pin down, stated about the
 model: the `cols` table and its three kinds of prefix and field errors, and
 the `age_grouper` table for widths 10, 20, 30 and the cut list [20, 60].
 */
module QueryTables {
  import opened Common
  import opened Decimal
  import opened Schema
  import opened Columns
  import opened AgeGroups

  lemma CasesDeathsString()
    ensures FieldsString([Cases, Deaths]) == "cases deaths"
  {
    assert FieldNames([Cases, Deaths]) == ["cases", "deaths"];
  }

  lemma CasesString()
    ensures FieldsString([Cases]) == "cases"
  {
    assert FieldNames([Cases]) == ["cases"];
  }

  lemma CasesDeathsCanonical()
    ensures InCanonicalOrder([Cases, Deaths]) == [Cases, Deaths]
    ensures InCanonicalOrder([Cases]) == [Cases]
  {
    CanonicalKept([Cases, Deaths]);
    CanonicalKept([Cases]);
  }

  lemma CasesDeathsRequest()
    ensures ParseFields("cases deaths") == Ok([Cases, Deaths])
  {
    CasesDeathsString();
    CasesDeathsCanonical();
    ParseFieldsString([Cases, Deaths]);
  }

  lemma CasesRequest()
    ensures ParseFields("cases") == Ok([Cases])
  {
    CasesString();
    CasesDeathsCanonical();
    ParseFieldsString([Cases]);
  }

  lemma ColumnNames()
    ensures ColumnName(T, Cases) == "cases" && ColumnName(T, Deaths) == "deaths"
    ensures ColumnName(M, Cases) == "male_cases" && ColumnName(M, Deaths) == "male_deaths"
    ensures ColumnName(F, Cases) == "female_cases" && ColumnName(F, Deaths) == "female_deaths"
  {
  }

  lemma ExpandCasesDeaths()
    ensures Expand(M, [Cases, Deaths]) == ["male_cases", "male_deaths"]
    ensures Expand(F, [Cases, Deaths]) == ["female_cases", "female_deaths"]
  {
    ColumnNames();
  }

  /** A prefix string of distinct letters parses to the prefixes those letters name. */
  lemma PrefixesOfLetters(s: string, ps: seq<Prefix>)
    requires s != "" && '*' !in s && Distinct(s)
    requires |ps| == |s| && forall i :: 0 <= i < |s| ==> PrefixChar(ps[i]) == s[i]
    ensures ParsePrefixes(s) == Ok(ps)
  {
    forall i | 0 <= i < |s| ensures ParsePrefixChar(s[i]).Some? {
      assert PrefixChar(ps[i]) == s[i];
    }
    assert ParsePrefixes(s).Ok?;
    var qs := ParsePrefixes(s).value;
    forall i | 0 <= i < |s| ensures qs[i] == ps[i] {
      assert PrefixChar(qs[i]) == PrefixChar(ps[i]);
    }
    assert qs == ps;
  }

  /** Whenever both arguments parse, `cols` resolves the parsed prefixes against the parsed fields. */
  lemma ColsOfParsed(prefixes: string, fields: string, ps: seq<Prefix>, fs: seq<Field>)
    requires ParsePrefixes(prefixes) == Ok(ps) && ParseFields(fields) == Ok(fs)
    ensures Cols(prefixes, fields) == Ok(Resolve(ps, fs))
  {
  }

  lemma SinglePrefixes()
    ensures ParsePrefixes("m") == Ok([M]) && ParsePrefixes("f") == Ok([F])
  {
    PrefixesOfLetters("m", [M]);
    PrefixesOfLetters("f", [F]);
  }

  lemma MaleFemalePrefixes()
    ensures ParsePrefixes("mf") == Ok([M, F])
  {
    PrefixesOfLetters("mf", [M, F]);
  }

  lemma ResolveCasesDeaths()
    ensures Resolve([M], [Cases, Deaths]) == ["male_cases", "male_deaths"]
    ensures Resolve([F], [Cases, Deaths]) == ["female_cases", "female_deaths"]
    ensures Resolve([M, F], [Cases, Deaths]) == ["male_cases", "male_deaths", "female_cases", "female_deaths"]
  {
    var fs := [Cases, Deaths];
    ExpandCasesDeaths();
    assert Resolve([M], fs) == Expand(M, fs) + Resolve([], fs);
    assert Resolve([F], fs) == Expand(F, fs) + Resolve([], fs);
    assert Resolve([M, F], fs) == Expand(M, fs) + Resolve([F], fs);
  }

  lemma ResolveWildcardCases()
    ensures Resolve(WILDCARD_PREFIXES, [Cases]) == ["cases", "male_cases", "female_cases"]
  {
    var fs := [Cases];
    ColumnNames();
    assert Resolve([T, M, F], fs) == Expand(T, fs) + Resolve([M, F], fs);
    assert Resolve([M, F], fs) == Expand(M, fs) + Resolve([F], fs);
    assert Resolve([F], fs) == Expand(F, fs) + Resolve([], fs);
    assert Expand(T, fs) == ["cases"];
    assert Expand(M, fs) == ["male_cases"];
    assert Expand(F, fs) == ["female_cases"];
  }

  /** cols("m", "cases deaths"): the male columns, in field order. */
  lemma ColsMaleRow()
    ensures Cols("m", "cases deaths") == Ok(["male_cases", "male_deaths"])
  {
    SinglePrefixes();
    CasesDeathsRequest();
    ColsOfParsed("m", "cases deaths", [M], [Cases, Deaths]);
    ResolveCasesDeaths();
  }

  /** cols("f", "cases deaths"): the female columns, in field order. */
  lemma ColsFemaleRow()
    ensures Cols("f", "cases deaths") == Ok(["female_cases", "female_deaths"])
  {
    SinglePrefixes();
    CasesDeathsRequest();
    ColsOfParsed("f", "cases deaths", [F], [Cases, Deaths]);
    ResolveCasesDeaths();
  }

  /** cols("mf", "cases deaths"): all male columns, then all female columns. */
  lemma ColsMaleFemaleRow()
    ensures Cols("mf", "cases deaths") == Ok(["male_cases", "male_deaths", "female_cases", "female_deaths"])
  {
    MaleFemalePrefixes();
    CasesDeathsRequest();
    ColsOfParsed("mf", "cases deaths", [M, F], [Cases, Deaths]);
    ResolveCasesDeaths();
  }

  /** cols("*", "cases"): total, male, female. */
  lemma ColsWildcardRow()
    ensures Cols("*", "cases") == Ok(["cases", "male_cases", "female_cases"])
  {
    CasesRequest();
    ColsOfParsed("*", "cases", WILDCARD_PREFIXES, [Cases]);
    ResolveWildcardCases();
  }

  /** cols("g") fails with the "prefixes" error, whatever the fields are. */
  lemma ColsUnknownPrefixRow(fields: string)
    ensures Cols("g", fields) == Err(UnknownPrefix('g'))
  {
    assert ParseChars("g") == Err(UnknownPrefix('g'));
  }

  /** cols("mfm") fails with the "duplicates" error, naming the repeated `m`. */
  lemma ColsDuplicatePrefixRow(fields: string)
    ensures Cols("mfm", fields) == Err(DuplicatePrefix('m'))
  {
    var s := "mfm";
    assert s[0] == s[2];
    assert !Distinct(s);
    assert forall i :: 0 <= i < |s| ==> ParsePrefixChar(s[i]).Some?;
    var r := ParsePrefixes(s);
    assert r.Err? && r.error.DuplicatePrefix?;
  }

  /** cols("") fails with the "empty" error. */
  lemma ColsEmptyPrefixRow(fields: string)
    ensures Cols("", fields) == Err(EmptyPrefixes)
  {
  }

  lemma SplitCounts()
    ensures Split("counts") == ["counts"]
  {
    assert Join(["counts"]) == "counts";
    SplitJoin(["counts"]);
  }

  lemma SplitCommaList()
    ensures Split("cases, deaths") == ["cases,", "deaths"]
  {
    assert Join(["cases,", "deaths"]) == "cases, deaths";
    SplitJoin(["cases,", "deaths"]);
  }

  /** cols("*", "counts") fails: "counts" is not a field. */
  lemma ColsUnknownFieldRow()
    ensures Cols("*", "counts") == Err(UnknownField("counts"))
  {
    SplitCounts();
    assert ParseTokens(["counts"]) == Err(UnknownField("counts"));
  }

  /** cols("*", "cases, deaths") fails: fields are whitespace-separated, so the
      first token is "cases,". */
  lemma ColsCommaFieldsRow()
    ensures Cols("*", "cases, deaths") == Err(UnknownField("cases,"))
  {
    SplitCommaList();
    assert ParseTokens(["cases,", "deaths"]) == Err(UnknownField("cases,"));
  }

  /** cols("*", "") fails with the "empty" error. */
  lemma ColsEmptyFieldsRow()
    ensures Cols("*", "") == Err(EmptyFields)
  {
  }

  /** The labels of a grouping, in `AGE_GROUPS` order. */
  function Labels(r: seq<(string, string)>): (labels: seq<string>)
    ensures |labels| == |r|
  {
    seq(|r|, i requires 0 <= i < |r| => r[i].1)
  }

  lemma SmallNumbers()
    ensures Str(0) == "0" && Str(9) == "9"
    ensures Str(10) == "10" && Str(19) == "19" && Str(20) == "20" && Str(29) == "29"
    ensures Str(30) == "30" && Str(39) == "39" && Str(40) == "40" && Str(49) == "49"
    ensures Str(50) == "50" && Str(59) == "59" && Str(60) == "60" && Str(69) == "69"
    ensures Str(70) == "70" && Str(79) == "79" && Str(80) == "80" && Str(89) == "89"
    ensures Str(90) == "90"
  {
  }

  /** Labels of all bands given each numeric band's group index. */
  lemma LabelsFromGroups(cuts: Cuts, groups: seq<nat>, expected: seq<string>)
    requires ValidCuts(cuts) && |groups| == UNKNOWN_BAND && |expected| == BAND_COUNT
    requires forall i :: 0 <= i < UNKNOWN_BAND ==>
               groups[i] <= |Points(cuts)| && InGroup(Points(cuts), groups[i], LowerBound(i)) &&
               GroupLabel(Points(cuts), groups[i]) == expected[i]
    requires expected[UNKNOWN_BAND] == UNKNOWN
    ensures Labels(AgeGrouper(cuts)) == expected
  {
    var cs := Points(cuts);
    var r := Labels(AgeGrouper(cuts));
    forall i | 0 <= i < UNKNOWN_BAND ensures r[i] == expected[i] {
      GroupOfUnique(cs, groups[i], LowerBound(i));
    }
  }

  /** Explicit cuts [20, 60]: 0-19, 20-59, >=60. */
  lemma AgeGrouperCuts20And60()
    ensures Labels(AgeGrouper(Explicit([20, 60]))) ==
              ["0-19", "0-19", "20-59", "20-59", "20-59", "20-59", ">=60", ">=60", ">=60", ">=60", "unknown"]
  {
    var cs := [20, 60];
    SmallNumbers();
    assert GroupLabel(cs, 0) == "0-19";
    assert GroupLabel(cs, 1) == "20-59";
    assert GroupLabel(cs, 2) == ">=60";
    LabelsFromGroups(Explicit(cs), [0, 0, 1, 1, 1, 1, 2, 2, 2, 2],
      ["0-19", "0-19", "20-59", "20-59", "20-59", "20-59", ">=60", ">=60", ">=60", ">=60", "unknown"]);
  }

  lemma Width10Points()
    ensures WidthPoints(10) == [10, 20, 30, 40, 50, 60, 70, 80, 90]
  {
    assert MultiplesFrom(10, 100) == [];
  }

  lemma Width10LowLabels(cs: seq<nat>)
    requires cs == [10, 20, 30, 40, 50, 60, 70, 80, 90]
    ensures GroupLabel(cs, 0) == "0-9" && GroupLabel(cs, 1) == "10-19" && GroupLabel(cs, 2) == "20-29"
    ensures GroupLabel(cs, 3) == "30-39" && GroupLabel(cs, 4) == "40-49"
  {
    SmallNumbers();
  }

  lemma Width10HighLabels(cs: seq<nat>)
    requires cs == [10, 20, 30, 40, 50, 60, 70, 80, 90]
    ensures GroupLabel(cs, 5) == "50-59" && GroupLabel(cs, 6) == "60-69" && GroupLabel(cs, 7) == "70-79"
    ensures GroupLabel(cs, 8) == "80-89" && GroupLabel(cs, 9) == ">=90"
  {
    SmallNumbers();
  }

  /** Width 10 is the native granularity: every band keeps its own label. */
  lemma AgeGrouperWidth10()
    ensures Labels(AgeGrouper(Width(10))) == AGE_GROUPS
  {
    var cs := [10, 20, 30, 40, 50, 60, 70, 80, 90];
    Width10Points();
    Width10LowLabels(cs);
    Width10HighLabels(cs);
    LabelsFromGroups(Width(10), [0, 1, 2, 3, 4, 5, 6, 7, 8, 9], AGE_GROUPS);
  }

  lemma Width20Points()
    ensures WidthPoints(20) == [20, 40, 60, 80]
  {
    assert MultiplesFrom(20, 100) == [];
    assert MultiplesFrom(20, 80) == [80];
    assert MultiplesFrom(20, 60) == [60, 80];
    assert MultiplesFrom(20, 40) == [40, 60, 80];
  }

  lemma Width20Labels(cs: seq<nat>)
    requires cs == [20, 40, 60, 80]
    ensures GroupLabel(cs, 0) == "0-19" && GroupLabel(cs, 1) == "20-39" && GroupLabel(cs, 2) == "40-59"
    ensures GroupLabel(cs, 3) == "60-79" && GroupLabel(cs, 4) == ">=80"
  {
    SmallNumbers();
  }

  /** Width 20: 0-19, 20-39, 40-59, 60-79, >=80. */
  lemma AgeGrouperWidth20()
    ensures Labels(AgeGrouper(Width(20))) ==
              ["0-19", "0-19", "20-39", "20-39", "40-59", "40-59", "60-79", "60-79", ">=80", ">=80", "unknown"]
  {
    Width20Points();
    Width20Labels([20, 40, 60, 80]);
    LabelsFromGroups(Width(20), [0, 0, 1, 1, 2, 2, 3, 3, 4, 4],
      ["0-19", "0-19", "20-39", "20-39", "40-59", "40-59", "60-79", "60-79", ">=80", ">=80", "unknown"]);
  }

  lemma Width30Points()
    ensures WidthPoints(30) == [30, 60, 90]
  {
    assert MultiplesFrom(30, 120) == [];
    assert MultiplesFrom(30, 90) == [90];
    assert MultiplesFrom(30, 60) == [60, 90];
  }

  lemma Width30Labels(cs: seq<nat>)
    requires cs == [30, 60, 90]
    ensures GroupLabel(cs, 0) == "0-29" && GroupLabel(cs, 1) == "30-59"
    ensures GroupLabel(cs, 2) == "60-89" && GroupLabel(cs, 3) == ">=90"
  {
    SmallNumbers();
  }

  /** Width 30: 0-29, 30-59, 60-89, >=90. */
  lemma AgeGrouperWidth30()
    ensures Labels(AgeGrouper(Width(30))) ==
              ["0-29", "0-29", "0-29", "30-59", "30-59", "30-59", "60-89", "60-89", "60-89", ">=90", "unknown"]
  {
    Width30Points();
    Width30Labels([30, 60, 90]);
    LabelsFromGroups(Width(30), [0, 0, 0, 1, 1, 1, 2, 2, 2, 3],
      ["0-29", "0-29", "0-29", "30-59", "30-59", "30-59", "60-89", "60-89", "60-89", ">=90", "unknown"]);
  }

  /** The arguments of the `age_grouper` table are all accepted as written. */
  lemma TableArgumentsAccepted()
    ensures ValidatedAgeGrouper(WidthArg(10)) == Ok(AgeGrouper(Width(10)))
    ensures ValidatedAgeGrouper(WidthArg(20)) == Ok(AgeGrouper(Width(20)))
    ensures ValidatedAgeGrouper(WidthArg(30)) == Ok(AgeGrouper(Width(30)))
    ensures ValidatedAgeGrouper(PointsArg([20, 60])) == Ok(AgeGrouper(Explicit([20, 60])))
  {
    CheckCutsArgOf(Width(10));
    CheckCutsArgOf(Width(20));
    CheckCutsArgOf(Width(30));
    CheckCutsArgOf(Explicit([20, 60]));
  }

  /** Widths outside the 10..90 range or off the ten-year grid are rejected. */
  lemma RejectedWidths()
    ensures ValidatedAgeGrouper(WidthArg(0)) == Err(NonPositiveCut)
    ensures ValidatedAgeGrouper(WidthArg(-10)) == Err(NonPositiveCut)
    ensures ValidatedAgeGrouper(WidthArg(100)) == Err(CutAboveRange)
    ensures ValidatedAgeGrouper(WidthArg(25)) == Err(MisalignedCut)
  {
  }

  /** Explicit lists that are empty, out of range, not increasing or off the grid are rejected. */
  lemma RejectedPoints()
    ensures ValidatedAgeGrouper(PointsArg([])) == Err(EmptyCuts)
    ensures ValidatedAgeGrouper(PointsArg([0, 20])) == Err(NonPositiveCut)
    ensures ValidatedAgeGrouper(PointsArg([20, 100])) == Err(CutAboveRange)
    ensures ValidatedAgeGrouper(PointsArg([60, 20])) == Err(NotIncreasing)
    ensures ValidatedAgeGrouper(PointsArg([20, 20])) == Err(NotIncreasing)
    ensures ValidatedAgeGrouper(PointsArg([25, 60])) == Err(MisalignedCut)
  {
    var a := [0, 20];
    assert a[0] <= 0;
    var b := [20, 100];
    assert b[1] > 90;
    var c := [60, 20];
    assert c[0] >= c[1];
    var d := [20, 20];
    assert d[0] >= d[1];
    var e := [25, 60];
    assert e[0] % 10 != 0;
  }
}
