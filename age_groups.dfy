/**
 The age grouper `age_grouper(cuts)`: re-buckets the eleven fixed age bands
 into coarser groups. The cut points (a width `w`, standing for every multiple
 of `w` up to 90, or an explicit increasing list) split the ages into the
 groups [0, c1), [c1, c2), ..., [cn, +inf); each numeric band is labelled with
 the group its lower bound falls in ("0-19", ">=60") and `unknown` keeps its
 own label. Bands that share a group share a label, which is how merging is
 expressed.
 */
module AgeGroups {
  import opened Common
  import opened Decimal
  import opened Schema

  /** The two ways of giving the cut points. */
  datatype Cuts = Width(w: nat) | Explicit(points: seq<nat>)

  predicate Increasing(cs: seq<nat>) {
    forall k, l :: 0 <= k < l < |cs| ==> cs[k] < cs[l]
  }

  /** Every cut lands on a boundary of the fixed ten-year bands. */
  predicate Aligned(cs: seq<nat>) {
    forall k :: 0 <= k < |cs| ==> cs[k] % 10 == 0
  }

  /** Cut points the grouper is defined for: a non-empty, strictly increasing
      list of positive multiples of 10 no larger than 90. */
  predicate ValidPoints(cs: seq<nat>) {
    && cs != []
    && Increasing(cs)
    && Aligned(cs)
    && forall k :: 0 <= k < |cs| ==> 0 < cs[k] <= 90
  }

  /** Widths the grouper is defined for: a positive multiple of 10 no larger than 90. */
  predicate ValidWidth(w: nat) {
    0 < w <= 90 && w % 10 == 0
  }

  predicate ValidCuts(cuts: Cuts) {
    match cuts
    case Width(w) => ValidWidth(w)
    case Explicit(cs) => ValidPoints(cs)
  }

  lemma MulOutside(w: int, t: int)
    requires w > 0
    ensures t >= 1 ==> w * t >= w
    ensures t <= -1 ==> w * t <= -w
  {
    if t >= 1 {
      assert w * t == w * (t - 1) + w;
    } else if t <= -1 {
      assert w * t == -(w * (-t - 1)) - w;
    }
  }

  /** Subtracting the divisor does not change the remainder. */
  lemma ModStep(d: nat, w: nat)
    requires 0 < w <= d
    ensures d % w == (d - w) % w
  {
    var q1, r1 := d / w, d % w;
    var q2, r2 := (d - w) / w, (d - w) % w;
    assert d == w * q1 + r1;
    assert d - w == w * q2 + r2;
    assert w * (q1 - q2 - 1) == r2 - r1 by {
      assert w * (q1 - q2 - 1) == w * q1 - w * q2 - w;
    }
    MulOutside(w, q1 - q2 - 1);
  }

  /** A remainder smaller than the divisor is the number itself. */
  lemma ModSmall(d: nat, w: nat)
    requires d < w
    ensures d % w == d
  {
    var q, r := d / w, d % w;
    assert d == w * q + r;
    MulOutside(w, q);
  }

  /** Stepping the start of a grid of multiples forward by one width. */
  lemma GridStep(w: nat, c: nat, x: nat)
    requires 0 < w && c <= x
    ensures (x - c) % w == 0 <==> x == c || (c + w <= x && (x - (c + w)) % w == 0)
  {
    if x - c >= w {
      ModStep(x - c, w);
    } else {
      ModSmall(x - c, w);
    }
  }

  lemma AlignedSum(a: nat, b: nat)
    requires b % 10 == 0
    ensures a % 10 == 0 ==> (a + b) % 10 == 0
  {
  }

  /** The multiples `c, c + w, c + 2w, ...` that do not exceed 90. */
  function MultiplesFrom(w: nat, c: nat): seq<nat>
    requires w > 0
    decreases if c <= 90 then 91 - c else 0
  {
    if c > 90 then [] else [c] + MultiplesFrom(w, c + w)
  }

  /** The multiples from `c` are increasing, lie in [c, 90], are exactly the
      ages on the grid `c + jw` up to 90, and start at `c` when `c` is in range. */
  lemma {:induction false} MultiplesFromSpec(w: nat, c: nat)
    requires ValidWidth(w)
    ensures Increasing(MultiplesFrom(w, c))
    ensures forall k :: 0 <= k < |MultiplesFrom(w, c)| ==> c <= MultiplesFrom(w, c)[k] <= 90
    ensures forall x :: x in MultiplesFrom(w, c) <==> c <= x <= 90 && (x - c) % w == 0
    ensures c % 10 == 0 ==> Aligned(MultiplesFrom(w, c))
    ensures c <= 90 ==> MultiplesFrom(w, c) != [] && MultiplesFrom(w, c)[0] == c
    decreases if c <= 90 then 91 - c else 0
  {
    if c <= 90 {
      var rest := MultiplesFrom(w, c + w);
      MultiplesFromSpec(w, c + w);
      var cs := [c] + rest;
      assert MultiplesFrom(w, c) == cs;
      assert forall k :: 0 < k < |cs| ==> cs[k] == rest[k - 1];
      AlignedSum(c, w);
      forall x: nat ensures x in cs <==> c <= x <= 90 && (x - c) % w == 0 {
        assert x in cs <==> x == c || x in rest;
        if c <= x {
          GridStep(w, c, x);
        }
      }
    }
  }

  /** The cut points a width stands for: every multiple of `w` up to and including 90. */
  function WidthPoints(w: nat): seq<nat>
    requires ValidWidth(w)
  {
    MultiplesFrom(w, w)
  }

  /** A width cuts at exactly the multiples of the width up to 90, and those cut points are valid. */
  lemma WidthPointsSpec(w: nat)
    requires ValidCuts(Width(w))
    ensures ValidPoints(WidthPoints(w))
    ensures forall x :: x in WidthPoints(w) <==> 0 < x <= 90 && x % w == 0
  {
    MultiplesFromSpec(w, w);
    forall x: nat ensures x in WidthPoints(w) <==> 0 < x <= 90 && x % w == 0 {
      if x >= w {
        ModStep(x, w);
      } else {
        ModSmall(x, w);
      }
    }
  }

  /** The cut points, explicit or implied by a width. */
  function Points(cuts: Cuts): (cs: seq<nat>)
    requires ValidCuts(cuts)
    ensures ValidPoints(cs)
  {
    match cuts
    case Width(w) =>
      WidthPointsSpec(w);
      WidthPoints(w)
    case Explicit(cs) => cs
  }

  // ---------------------------------------------------------------------------
  // Groups

  /** Index of the group an age falls in: the number of cut points at or below it. */
  function GroupOf(cs: seq<nat>, age: nat): (k: nat)
    ensures k <= |cs|
  {
    if cs == [] then 0 else (if cs[0] <= age then 1 else 0) + GroupOf(cs[1..], age)
  }

  /** Lower age bound of group `k`: 0 for the first group, otherwise the cut that opens it. */
  function Lower(cs: seq<nat>, k: nat): nat
    requires k <= |cs|
  {
    if k == 0 then 0 else cs[k - 1]
  }

  /** Group `k` is [Lower(k), cs[k]), the last one [Lower(k), +inf). */
  predicate InGroup(cs: seq<nat>, k: nat, age: nat)
    requires k <= |cs|
  {
    Lower(cs, k) <= age && (k == |cs| || age < cs[k])
  }

  lemma IncreasingTail(cs: seq<nat>)
    requires cs != [] && Increasing(cs)
    ensures Increasing(cs[1..])
    ensures forall k :: 0 <= k < |cs| - 1 ==> cs[0] < cs[1..][k]
  {
    assert forall k :: 0 <= k < |cs| - 1 ==> cs[1..][k] == cs[k + 1];
  }

  lemma {:induction false} GroupOfNone(cs: seq<nat>, age: nat)
    requires forall k :: 0 <= k < |cs| ==> age < cs[k]
    ensures GroupOf(cs, age) == 0
  {
    if cs != [] {
      assert forall k :: 0 <= k < |cs| - 1 ==> cs[1..][k] == cs[k + 1];
      GroupOfNone(cs[1..], age);
    }
  }

  /** With increasing cut points, an age lies in the group `GroupOf` gives. */
  lemma {:induction false} GroupOfContains(cs: seq<nat>, age: nat)
    requires Increasing(cs)
    ensures InGroup(cs, GroupOf(cs, age), age)
  {
    if cs != [] {
      IncreasingTail(cs);
      if cs[0] <= age {
        GroupOfContains(cs[1..], age);
        var k := GroupOf(cs[1..], age);
        assert k > 0 ==> cs[k] == cs[1..][k - 1];
        assert k < |cs| - 1 ==> cs[k + 1] == cs[1..][k];
      } else {
        GroupOfNone(cs, age);
      }
    }
  }

  lemma LowerIncreasing(cs: seq<nat>, k: nat, l: nat)
    requires Increasing(cs) && (forall m :: 0 <= m < |cs| ==> 0 < cs[m])
    requires k < l <= |cs|
    ensures Lower(cs, k) < Lower(cs, l)
  {
  }

  /** An age at or above the cut that opens group `k` is in group `k` or later. */
  lemma {:induction false} GroupOfAtLeast(cs: seq<nat>, k: nat, age: nat)
    requires Increasing(cs) && k <= |cs| && Lower(cs, k) <= age
    ensures k <= GroupOf(cs, age)
  {
    if k > 0 {
      IncreasingTail(cs);
      assert cs[0] <= age;
      if k > 1 {
        assert cs[1..][k - 2] == cs[k - 1];
      }
      GroupOfAtLeast(cs[1..], k - 1, age);
    }
  }

  /** An age below the cut that closes group `k` is in group `k` or earlier. */
  lemma {:induction false} GroupOfAtMost(cs: seq<nat>, k: nat, age: nat)
    requires Increasing(cs) && k < |cs| && age < cs[k]
    ensures GroupOf(cs, age) <= k
  {
    IncreasingTail(cs);
    if k == 0 {
      GroupOfNone(cs, age);
    } else {
      assert cs[1..][k - 1] == cs[k];
      GroupOfAtMost(cs[1..], k - 1, age);
    }
  }

  /** The groups do not overlap: only the group `GroupOf` gives contains the age. */
  lemma GroupOfUnique(cs: seq<nat>, k: nat, age: nat)
    requires Increasing(cs)
    requires k <= |cs| && InGroup(cs, k, age)
    ensures k == GroupOf(cs, age)
  {
    GroupOfAtLeast(cs, k, age);
    if k < |cs| {
      GroupOfAtMost(cs, k, age);
    }
  }

  /** Later ages never fall in earlier groups. */
  lemma {:induction false} GroupOfMonotone(cs: seq<nat>, a: nat, b: nat)
    requires a <= b
    ensures GroupOf(cs, a) <= GroupOf(cs, b)
  {
    if cs != [] {
      GroupOfMonotone(cs[1..], a, b);
    }
  }

  /** Moving up one ten-year band enters a new group exactly when a cut sits at the new band's bound. */
  lemma {:induction false} GroupOfStep(cs: seq<nat>, age: nat)
    requires Increasing(cs) && Aligned(cs) && age % 10 == 0
    ensures GroupOf(cs, age + 10) == GroupOf(cs, age) + (if age + 10 in cs then 1 else 0)
  {
    if cs != [] {
      IncreasingTail(cs);
      assert Aligned(cs[1..]) by {
        assert forall k :: 0 <= k < |cs| - 1 ==> cs[1..][k] == cs[k + 1];
      }
      GroupOfStep(cs[1..], age);
      assert age + 10 in cs <==> cs[0] == age + 10 || age + 10 in cs[1..] by {
        assert cs == [cs[0]] + cs[1..];
      }
    }
  }

  // ---------------------------------------------------------------------------
  // Labels

  /** The label of group `k`: "lo-hi" with hi one below the next cut, or ">=lo" for the last group. */
  function GroupLabel(cs: seq<nat>, k: nat): string
    requires ValidPoints(cs) && k <= |cs|
  {
    if k == |cs| then ">=" + Str(cs[k - 1])
    else Str(Lower(cs, k)) + "-" + Str(cs[k] - 1)
  }

  /** Position of the first `-` in a string (its length when there is none). */
  function DashIndex(s: string): (n: nat)
    ensures n <= |s|
  {
    if s == [] || s[0] == '-' then 0 else 1 + DashIndex(s[1..])
  }

  lemma {:induction false} DashAfterDigits(d: string, rest: string)
    requires AllDigits(d)
    ensures DashIndex(d + "-" + rest) == |d|
  {
    if d != [] {
      assert (d + "-" + rest)[1..] == d[1..] + "-" + rest;
      DashAfterDigits(d[1..], rest);
    }
  }

  lemma GroupLabelShape(cs: seq<nat>, k: nat)
    requires ValidPoints(cs) && k <= |cs|
    ensures |GroupLabel(cs, k)| > 0
    ensures GroupLabel(cs, k)[0] == '>' <==> k == |cs|
    ensures k == |cs| ==> GroupLabel(cs, k)[..2] == ">="
    ensures k < |cs| ==> IsDigit(GroupLabel(cs, k)[0])
    ensures k < |cs| ==> DashIndex(GroupLabel(cs, k)) == |Str(Lower(cs, k))|
  {
    if k < |cs| {
      DashAfterDigits(Str(Lower(cs, k)), Str(cs[k] - 1));
    }
  }

  /** Distinct groups have distinct labels. */
  lemma GroupLabelInjective(cs: seq<nat>, k: nat, l: nat)
    requires ValidPoints(cs) && k <= |cs| && l <= |cs|
    ensures GroupLabel(cs, k) == GroupLabel(cs, l) <==> k == l
  {
    var a, b := GroupLabel(cs, k), GroupLabel(cs, l);
    GroupLabelShape(cs, k);
    GroupLabelShape(cs, l);
    if a == b && k < |cs| {
      var sa, sb := Str(Lower(cs, k)), Str(Lower(cs, l));
      assert sa == a[..|sa|] && sb == b[..|sb|];
      StrInjective(Lower(cs, k), Lower(cs, l));
      if k < l {
        LowerIncreasing(cs, k, l);
      } else if l < k {
        LowerIncreasing(cs, l, k);
      }
    }
  }

  /** The label of fixed band `i`: `unknown` for the unknown band, else the label of its group. */
  function BandLabel(cs: seq<nat>, i: nat): string
    requires ValidPoints(cs) && i < BAND_COUNT
  {
    if i == UNKNOWN_BAND then UNKNOWN
    else GroupLabel(cs, GroupOf(cs, LowerBound(i)))
  }

  /** `age_grouper(cuts)`: one entry per fixed band, keyed by the band in
      `AGE_GROUPS` order, valued by its group's label; `unknown` maps to itself. */
  function AgeGrouper(cuts: Cuts): (r: seq<(string, string)>)
    requires ValidCuts(cuts)
    ensures |r| == |AGE_GROUPS| == BAND_COUNT
    ensures forall i :: 0 <= i < |r| ==> r[i].0 == AGE_GROUPS[i]
    ensures r[UNKNOWN_BAND] == (UNKNOWN, UNKNOWN)
  {
    var cs := Points(cuts);
    seq(BAND_COUNT, i requires 0 <= i < BAND_COUNT => (AGE_GROUPS[i], BandLabel(cs, i)))
  }

  // ---------------------------------------------------------------------------
  // Validating the argument

  /** `age_grouper`'s argument as a caller writes it: an integer width or a list of integers. */
  datatype CutsArg = WidthArg(w: int) | PointsArg(points: seq<int>)

  /** Why a cuts argument is rejected. */
  datatype CutsError = EmptyCuts | NonPositiveCut | CutAboveRange | NotIncreasing | MisalignedCut

  /** Each cut point is smaller than the next one. */
  predicate AdjacentIncreasing(ps: seq<int>) {
    forall k :: 0 <= k < |ps| - 1 ==> ps[k] < ps[k + 1]
  }

  /** Checking neighbours is enough: every earlier point is smaller than every later one. */
  lemma {:induction false} AdjacentIncreasingAll(ps: seq<int>, k: nat, l: nat)
    requires AdjacentIncreasing(ps) && k < l < |ps|
    ensures ps[k] < ps[l]
    decreases l - k
  {
    if k + 1 < l {
      AdjacentIncreasingAll(ps, k + 1, l);
    }
  }

  /** The same points, once known not to be negative. */
  function ToNats(ps: seq<int>): (r: seq<nat>)
    requires forall k :: 0 <= k < |ps| ==> ps[k] >= 0
    ensures |r| == |ps| && forall k :: 0 <= k < |r| ==> r[k] == ps[k]
  {
    seq(|ps|, k requires 0 <= k < |ps| => ps[k] as nat)
  }

  /** Validates the argument: "empty" for an empty list, then non-positive
      points, points above 90, a list that is not strictly increasing, and
      points that do not fall on a ten-year boundary. */
  function CheckCuts(arg: CutsArg): (r: Result<Cuts, CutsError>)
    ensures r.Ok? ==> ValidCuts(r.value)
    ensures r.Ok? && arg.WidthArg? ==> r.value.Width? && r.value.w == arg.w
    ensures r.Ok? && arg.PointsArg? ==> r.value.Explicit? && r.value.points == arg.points
    ensures arg.WidthArg? ==> (r.Ok? <==> 0 < arg.w <= 90 && arg.w % 10 == 0)
    ensures arg.PointsArg? ==>
              (r.Ok? <==>
                 && arg.points != []
                 && (forall k :: 0 <= k < |arg.points| ==> 0 < arg.points[k] <= 90 && arg.points[k] % 10 == 0)
                 && AdjacentIncreasing(arg.points))
    ensures r == Err(EmptyCuts) <==> arg == PointsArg([])
    ensures r == Err(NonPositiveCut) ==>
              match arg
              case WidthArg(w) => w <= 0
              case PointsArg(ps) => exists k :: 0 <= k < |ps| && ps[k] <= 0
    ensures r == Err(CutAboveRange) ==>
              match arg
              case WidthArg(w) => w > 90
              case PointsArg(ps) => exists k :: 0 <= k < |ps| && ps[k] > 90
    ensures r == Err(NotIncreasing) ==>
              arg.PointsArg? && exists k :: 0 <= k < |arg.points| - 1 && arg.points[k] >= arg.points[k + 1]
    ensures r == Err(MisalignedCut) ==>
              match arg
              case WidthArg(w) => w % 10 != 0
              case PointsArg(ps) => exists k :: 0 <= k < |ps| && ps[k] % 10 != 0
  {
    match arg
    case WidthArg(w) =>
      if w <= 0 then Err(NonPositiveCut)
      else if w > 90 then Err(CutAboveRange)
      else if w % 10 != 0 then Err(MisalignedCut)
      else Ok(Width(w))
    case PointsArg(ps) =>
      if ps == [] then Err(EmptyCuts)
      else if exists k :: 0 <= k < |ps| && ps[k] <= 0 then Err(NonPositiveCut)
      else if exists k :: 0 <= k < |ps| && ps[k] > 90 then Err(CutAboveRange)
      else if exists k :: 0 <= k < |ps| - 1 && ps[k] >= ps[k + 1] then Err(NotIncreasing)
      else if exists k :: 0 <= k < |ps| && ps[k] % 10 != 0 then Err(MisalignedCut)
      else
        var cs := ToNats(ps);
        assert Increasing(cs) by {
          forall k, l | 0 <= k < l < |cs| ensures cs[k] < cs[l] {
            AdjacentIncreasingAll(ps, k, l);
          }
        }
        Ok(Explicit(cs))
  }

  /** The argument a caller writes for the given cuts. */
  function ArgOf(cuts: Cuts): CutsArg {
    match cuts
    case Width(w) => WidthArg(w)
    case Explicit(cs) => PointsArg(cs)
  }

  /** Every valid cuts value is accepted as written, and read back unchanged. */
  lemma CheckCutsArgOf(cuts: Cuts)
    requires ValidCuts(cuts)
    ensures CheckCuts(ArgOf(cuts)) == Ok(cuts)
  {
    if cuts.Explicit? {
      var cs := cuts.points;
      assert AdjacentIncreasing(cs) by {
        forall k | 0 <= k < |cs| - 1 ensures cs[k] < cs[k + 1] {
          assert Increasing(cs);
        }
      }
    }
  }

  /** `age_grouper(cuts)` on an argument as written: the validation error, or
      the grouping of the validated cuts. */
  function ValidatedAgeGrouper(arg: CutsArg): (r: Result<seq<(string, string)>, CutsError>)
    ensures r.Ok? <==> CheckCuts(arg).Ok?
    ensures r.Err? ==> r.error == CheckCuts(arg).error
    ensures r.Ok? ==> |r.value| == BAND_COUNT && forall i :: 0 <= i < |r.value| ==> r.value[i].0 == AGE_GROUPS[i]
    ensures r.Ok? ==> r.value[UNKNOWN_BAND] == (UNKNOWN, UNKNOWN)
    ensures r.Ok? ==> r.value == AgeGrouper(CheckCuts(arg).value)
  {
    match CheckCuts(arg)
    case Err(e) => Err(e)
    case Ok(cuts) => Ok(AgeGrouper(cuts))
  }

  /** A valid cuts value written as an argument is grouped exactly as the cuts themselves. */
  lemma ValidatedAgeGrouperArgOf(cuts: Cuts)
    requires ValidCuts(cuts)
    ensures ValidatedAgeGrouper(ArgOf(cuts)) == Ok(AgeGrouper(cuts))
  {
    CheckCutsArgOf(cuts);
  }

  // ---------------------------------------------------------------------------
  // Properties of the grouping

  /** A numeric band gets the label of group `k` exactly when its lower bound lies in group `k`. */
  lemma BandLabelIsGroupLabel(cuts: Cuts, i: nat, k: nat)
    requires ValidCuts(cuts) && i < UNKNOWN_BAND && k <= |Points(cuts)|
    ensures AgeGrouper(cuts)[i].1 == GroupLabel(Points(cuts), k) <==> InGroup(Points(cuts), k, LowerBound(i))
  {
    var cs := Points(cuts);
    var g := GroupOf(cs, LowerBound(i));
    GroupLabelInjective(cs, g, k);
    GroupOfContains(cs, LowerBound(i));
    if InGroup(cs, k, LowerBound(i)) {
      GroupOfUnique(cs, k, LowerBound(i));
    }
  }

  /** Only the unknown band is labelled `unknown`. */
  lemma UnknownOnlyForUnknown(cuts: Cuts, i: nat)
    requires ValidCuts(cuts) && i < BAND_COUNT
    ensures AgeGrouper(cuts)[i].1 == UNKNOWN <==> i == UNKNOWN_BAND
  {
    if i < UNKNOWN_BAND {
      var cs := Points(cuts);
      GroupLabelShape(cs, GroupOf(cs, LowerBound(i)));
    }
  }

  /** Along `AGE_GROUPS` the group index never decreases. */
  lemma GroupsNeverDecrease(cuts: Cuts, i: nat, j: nat)
    requires ValidCuts(cuts) && i <= j < UNKNOWN_BAND
    ensures GroupOf(Points(cuts), LowerBound(i)) <= GroupOf(Points(cuts), LowerBound(j))
  {
    GroupOfMonotone(Points(cuts), LowerBound(i), LowerBound(j));
  }

  /** Two numeric bands share a label exactly when they fall in the same group. */
  lemma SameLabelSameGroup(cuts: Cuts, i: nat, j: nat)
    requires ValidCuts(cuts) && i < UNKNOWN_BAND && j < UNKNOWN_BAND
    ensures AgeGrouper(cuts)[i].1 == AgeGrouper(cuts)[j].1 <==>
              GroupOf(Points(cuts), LowerBound(i)) == GroupOf(Points(cuts), LowerBound(j))
  {
    var cs := Points(cuts);
    GroupLabelInjective(cs, GroupOf(cs, LowerBound(i)), GroupOf(cs, LowerBound(j)));
  }

  /** Merged bands are consecutive: a band between two bands with the same label has that label too. */
  lemma MergedBandsConsecutive(cuts: Cuts, i: nat, m: nat, j: nat)
    requires ValidCuts(cuts) && i <= m <= j < BAND_COUNT
    requires AgeGrouper(cuts)[i].1 == AgeGrouper(cuts)[j].1
    ensures AgeGrouper(cuts)[m].1 == AgeGrouper(cuts)[i].1
  {
    UnknownOnlyForUnknown(cuts, i);
    UnknownOnlyForUnknown(cuts, j);
    if j < UNKNOWN_BAND {
      SameLabelSameGroup(cuts, i, j);
      SameLabelSameGroup(cuts, i, m);
      GroupsNeverDecrease(cuts, i, m);
      GroupsNeverDecrease(cuts, m, j);
    }
  }

  /** Adjacent numeric bands get different labels exactly when a cut point sits between them:
      the grouper cuts where it is told to and nowhere else. */
  lemma CutsExactlyAtPoints(cuts: Cuts, i: nat)
    requires ValidCuts(cuts) && i + 1 < UNKNOWN_BAND
    ensures AgeGrouper(cuts)[i].1 != AgeGrouper(cuts)[i + 1].1 <==> LowerBound(i + 1) in Points(cuts)
  {
    var cs := Points(cuts);
    var age := LowerBound(i);
    assert LowerBound(i + 1) == age + 10;
    GroupOfStep(cs, age);
    SameLabelSameGroup(cuts, i, i + 1);
  }

  /** A width `w` separates adjacent bands exactly at the multiples of `w`. */
  lemma WidthCutsAtMultiples(w: nat, i: nat)
    requires ValidCuts(Width(w)) && i + 1 < UNKNOWN_BAND
    ensures AgeGrouper(Width(w))[i].1 != AgeGrouper(Width(w))[i + 1].1 <==> LowerBound(i + 1) % w == 0
  {
    CutsExactlyAtPoints(Width(w), i);
    WidthPointsSpec(w);
  }

  /** A width and the explicit list of its multiples give the same grouping. */
  lemma WidthIsExplicitMultiples(w: nat)
    requires ValidCuts(Width(w))
    ensures ValidCuts(Explicit(WidthPoints(w)))
    ensures AgeGrouper(Width(w)) == AgeGrouper(Explicit(WidthPoints(w)))
  {
    WidthPointsSpec(w);
  }
}
