/**
 The column resolver `cols(prefixes, fields)`: a compact selector made of
 demographic prefixes (`t` total, `m` male, `f` female, or the wildcard `*`)
 and base field names is validated and expanded into the ordered list of
 dataset column names, e.g. ("mf", "cases deaths") gives
 male_cases, male_deaths, female_cases, female_deaths.
 */
module Columns {
  import opened Common
  import opened Schema

  /** A demographic selector: the bare total column, or its male or female decomposition. */
  datatype Prefix = T | M | F

  /** Why a selector was rejected; the first three are the prefix errors
      ("empty", "prefixes", "duplicates"), the last two the field errors. */
  datatype ColsError =
    | EmptyPrefixes
    | UnknownPrefix(c: char)
    | DuplicatePrefix(c: char)
    | EmptyFields
    | UnknownField(token: string)

  /** What the wildcard prefix `*` stands for: total, male, female, in that order. */
  const WILDCARD_PREFIXES: seq<Prefix> := [T, M, F]

  // ---------------------------------------------------------------------------
  // Prefixes

  function PrefixChar(p: Prefix): char {
    match p
    case T => 't'
    case M => 'm'
    case F => 'f'
  }

  function ParsePrefixChar(c: char): (r: Option<Prefix>)
    ensures r.Some? ==> PrefixChar(r.value) == c
    ensures forall p :: PrefixChar(p) == c ==> r == Some(p)
  {
    if c == 't' then Some(T)
    else if c == 'm' then Some(M)
    else if c == 'f' then Some(F)
    else None
  }

  /** Reads each character as a prefix, failing on the first one outside the vocabulary. */
  function ParseChars(s: string): (r: Result<seq<Prefix>, ColsError>)
    ensures r.Ok? <==> forall i :: 0 <= i < |s| ==> ParsePrefixChar(s[i]).Some?
    ensures r.Ok? ==> |r.value| == |s| && forall i :: 0 <= i < |s| ==> PrefixChar(r.value[i]) == s[i]
    ensures r.Err? ==> r.error.UnknownPrefix? && r.error.c in s && ParsePrefixChar(r.error.c).None?
  {
    if s == [] then Ok([])
    else
      match ParsePrefixChar(s[0])
      case None => Err(UnknownPrefix(s[0]))
      case Some(p) =>
        match ParseChars(s[1..])
        case Err(e) => Err(e)
        case Ok(ps) => Ok([p] + ps)
  }

  /** The first prefix that occurs again later, if any. */
  function FirstRepeated(ps: seq<Prefix>): (r: Option<Prefix>)
    ensures r.None? <==> Distinct(ps)
    ensures r.Some? ==> exists i, j :: 0 <= i < j < |ps| && ps[i] == r.value && ps[j] == r.value
  {
    if ps == [] then None
    else if ps[0] in ps[1..] then Some(ps[0])
    else
      var r := FirstRepeated(ps[1..]);
      if r.None? then
        assert forall j :: 0 < j < |ps| ==> ps[j] == ps[1..][j - 1];
        None
      else
        var i, j :| 0 <= i < j < |ps| - 1 && ps[1..][i] == r.value && ps[1..][j] == r.value;
        assert ps[i + 1] == r.value && ps[j + 1] == r.value;
        r
  }

  /** Validates the prefix string: "empty" when there is none, "prefixes" for a
      character outside t, m, f, "duplicates" for a repeated one. The wildcard
      `*` is understood only as the whole prefix string. */
  function ParsePrefixes(s: string): (r: Result<seq<Prefix>, ColsError>)
    ensures r == Err(EmptyPrefixes) <==> s == ""
    ensures s == "*" ==> r == Ok(WILDCARD_PREFIXES)
    ensures r.Ok? ==> r.value != [] && Distinct(r.value)
    ensures r.Ok? && s != "*" ==>
              |r.value| == |s| && forall i :: 0 <= i < |s| ==> PrefixChar(r.value[i]) == s[i]
    ensures r.Ok? <==>
              s == "*" ||
              (s != "" && Distinct(s) && forall i :: 0 <= i < |s| ==> ParsePrefixChar(s[i]).Some?)
    ensures r.Err? && r.error.UnknownPrefix? ==> r.error.c in s && ParsePrefixChar(r.error.c).None?
    ensures r.Err? && r.error.DuplicatePrefix? ==>
              exists i, j :: 0 <= i < j < |s| && s[i] == r.error.c && s[j] == r.error.c
    ensures r.Err? ==> r.error.EmptyPrefixes? || r.error.UnknownPrefix? || r.error.DuplicatePrefix?
  {
    if s == "" then Err(EmptyPrefixes)
    else if s == "*" then Ok(WILDCARD_PREFIXES)
    else
      match ParseChars(s)
      case Err(e) => Err(e)
      case Ok(ps) =>
        assert Distinct(ps) <==> Distinct(s) by {
          assert forall i, j :: 0 <= i < |s| && 0 <= j < |s| ==>
                   (ps[i] == ps[j] <==> s[i] == s[j]);
        }
        match FirstRepeated(ps)
        case Some(p) => Err(DuplicatePrefix(PrefixChar(p)))
        case None => Ok(ps)
  }

  /** The prefix string that selects exactly `ps`. */
  function PrefixString(ps: seq<Prefix>): (s: string)
    ensures |s| == |ps|
  {
    seq(|ps|, i requires 0 <= i < |ps| => PrefixChar(ps[i]))
  }

  /** Writing a non-empty, repetition-free list of prefixes and parsing it back gives the list. */
  lemma ParsePrefixString(ps: seq<Prefix>)
    requires ps != [] && Distinct(ps)
    ensures ParsePrefixes(PrefixString(ps)) == Ok(ps)
  {
    var s := PrefixString(ps);
    assert forall i :: 0 <= i < |s| ==> s[i] == PrefixChar(ps[i]) && s[i] != '*';
    assert forall i :: 0 <= i < |s| ==> ParsePrefixChar(s[i]) == Some(ps[i]);
    assert Distinct(s) by {
      forall i, j | 0 <= i < j < |s| ensures s[i] != s[j] {
        assert ParsePrefixChar(s[i]) == Some(ps[i]) && ParsePrefixChar(s[j]) == Some(ps[j]);
      }
    }
    var r := ParsePrefixes(s);
    assert r.Ok? && |r.value| == |ps|;
    forall i | 0 <= i < |ps| ensures r.value[i] == ps[i] {
      assert ParsePrefixChar(s[i]) == Some(r.value[i]);
    }
    assert r.value == ps;
  }

  // ---------------------------------------------------------------------------
  // Fields

  /** The characters Python's `str.split()` treats as separators. */
  predicate IsSpace(c: char) {
    c == ' ' || '\t' <= c <= '\r' || '\U{1C}' <= c <= '\U{1F}' || c == '\U{85}' || c == '\U{A0}'
    || c == '\U{1680}' || '\U{2000}' <= c <= '\U{200A}' || c == '\U{2028}' || c == '\U{2029}'
    || c == '\U{202F}' || c == '\U{205F}' || c == '\U{3000}'
  }

  /** A (possibly empty) run of separators. */
  predicate Blank(s: string) {
    forall i :: 0 <= i < |s| ==> IsSpace(s[i])
  }

  /** A non-empty run of non-separator characters. */
  predicate IsWord(t: string) {
    t != [] && forall i :: 0 <= i < |t| ==> !IsSpace(t[i])
  }

  /** Length of the leading run of non-separator characters. */
  function WordLength(s: string): (n: nat)
    ensures n <= |s|
    ensures forall i :: 0 <= i < n ==> !IsSpace(s[i])
    ensures n < |s| ==> IsSpace(s[n])
  {
    if s == [] || IsSpace(s[0]) then 0 else 1 + WordLength(s[1..])
  }

  /** Splits on runs of separators, dropping leading and trailing ones, as `str.split()` does. */
  function Split(s: string): (tokens: seq<string>)
    ensures forall k :: 0 <= k < |tokens| ==> IsWord(tokens[k])
    ensures tokens == [] <==> Blank(s)
    decreases |s|
  {
    if s == [] then []
    else if IsSpace(s[0]) then
      var tokens := Split(s[1..]);
      assert tokens == [] <==> Blank(s) by {
        assert forall i :: 0 < i < |s| ==> s[i] == s[1..][i - 1];
      }
      tokens
    else
      var n := WordLength(s);
      [s[..n]] + Split(s[n..])
  }

  /** The tokens separated by single spaces. */
  function Join(tokens: seq<string>): string {
    if tokens == [] then ""
    else if |tokens| == 1 then tokens[0]
    else tokens[0] + " " + Join(tokens[1..])
  }

  lemma {:induction false} WordLengthOfWord(t: string, rest: string)
    requires IsWord(t)
    requires rest == [] || IsSpace(rest[0])
    ensures WordLength(t + rest) == |t|
  {
    if |t| > 1 {
      assert (t + rest)[1..] == t[1..] + rest;
      WordLengthOfWord(t[1..], rest);
    }
  }

  /** A word followed by a separator (or nothing) is the first token. */
  lemma SplitWord(t: string, rest: string)
    requires IsWord(t)
    requires rest == [] || IsSpace(rest[0])
    ensures Split(t + rest) == [t] + Split(rest)
  {
    WordLengthOfWord(t, rest);
    assert (t + rest)[..|t|] == t;
    assert (t + rest)[|t|..] == rest;
  }

  /** A leading separator is dropped. */
  lemma SplitSpace(rest: string)
    ensures Split(" " + rest) == Split(rest)
  {
    assert (" " + rest)[1..] == rest;
  }

  /** Splitting a space-joined list of words gives the list back. */
  lemma {:induction false} SplitJoin(tokens: seq<string>)
    requires forall k :: 0 <= k < |tokens| ==> IsWord(tokens[k])
    ensures Split(Join(tokens)) == tokens
  {
    if tokens == [] {
    } else if |tokens| == 1 {
      SplitWord(tokens[0], "");
      assert tokens[0] + "" == tokens[0];
    } else {
      var rest := " " + Join(tokens[1..]);
      assert Join(tokens) == tokens[0] + rest;
      SplitWord(tokens[0], rest);
      SplitSpace(Join(tokens[1..]));
      SplitJoin(tokens[1..]);
    }
  }

  /** The words with `gaps[k]` before the k-th word and the last gap after the last word. */
  function Spaced(words: seq<string>, gaps: seq<string>): string
    requires |gaps| == |words| + 1
  {
    if words == [] then gaps[0] else gaps[0] + words[0] + Spaced(words[1..], gaps[1..])
  }

  /** Separators before a string do not change its tokens. */
  lemma {:induction false} SplitBlank(b: string, rest: string)
    requires Blank(b)
    ensures Split(b + rest) == Split(rest)
  {
    if b != [] {
      var s := b + rest;
      assert s[0] == b[0] && IsSpace(s[0]);
      assert s[1..] == b[1..] + rest;
      assert Split(s) == Split(s[1..]);
      SplitBlank(b[1..], rest);
    } else {
      assert b + rest == rest;
    }
  }

  /** A spaced text either is empty or starts with a separator, when its first gap is not empty. */
  lemma SpacedStart(words: seq<string>, gaps: seq<string>)
    requires |gaps| == |words| + 1 && Blank(gaps[0])
    ensures var s := Spaced(words, gaps); gaps[0] != [] ==> s != [] && IsSpace(s[0])
    ensures words == [] ==> Blank(Spaced(words, gaps))
  {
  }

  /** Splitting words separated by any non-empty runs of separators, with
      optional runs at either end, gives the words back. */
  lemma {:induction false} SplitSpaced(words: seq<string>, gaps: seq<string>)
    requires |gaps| == |words| + 1
    requires forall k :: 0 <= k < |words| ==> IsWord(words[k])
    requires forall k :: 0 <= k < |gaps| ==> Blank(gaps[k])
    requires forall k :: 0 < k < |words| ==> gaps[k] != []
    ensures Split(Spaced(words, gaps)) == words
  {
    SpacedStart(words, gaps);
    if words != [] {
      var rest := Spaced(words[1..], gaps[1..]);
      SpacedStart(words[1..], gaps[1..]);
      assert rest == [] || IsSpace(rest[0]) by {
        if |words| > 1 {
          assert gaps[1..][0] == gaps[1] != [];
        } else {
          assert Blank(rest);
        }
      }
      assert Spaced(words, gaps) == gaps[0] + (words[0] + rest);
      SplitBlank(gaps[0], words[0] + rest);
      SplitWord(words[0], rest);
      SplitSpaced(words[1..], gaps[1..]);
    }
  }

  /** Reads every token as a base field, failing on the first unknown one. */
  function ParseTokens(tokens: seq<string>): (r: Result<seq<Field>, ColsError>)
    ensures r.Ok? <==> forall i :: 0 <= i < |tokens| ==> ParseField(tokens[i]).Some?
    ensures r.Ok? ==>
              |r.value| == |tokens| && forall i :: 0 <= i < |tokens| ==> FieldName(r.value[i]) == tokens[i]
    ensures r.Err? ==> r.error.UnknownField? && r.error.token in tokens && ParseField(r.error.token).None?
  {
    if tokens == [] then Ok([])
    else
      match ParseField(tokens[0])
      case None => Err(UnknownField(tokens[0]))
      case Some(f) =>
        match ParseTokens(tokens[1..])
        case Err(e) => Err(e)
        case Ok(fs) => Ok([f] + fs)
  }

  function Rank(f: Field): nat {
    match f
    case Cases => 0
    case Deaths => 1
  }

  /** The fields appear in canonical `FIELDS` order, each at most once. */
  predicate Canonical(fs: seq<Field>) {
    forall i, j :: 0 <= i < j < |fs| ==> Rank(fs[i]) < Rank(fs[j])
  }

  /** The elements of `all` that are also in `wanted`, in the order of `all`. */
  function Keep(all: seq<Field>, wanted: seq<Field>): (r: seq<Field>)
    ensures forall f :: f in r <==> f in all && f in wanted
    ensures Canonical(all) ==> Canonical(r)
  {
    if all == [] then []
    else
      var rest := Keep(all[1..], wanted);
      if all[0] in wanted then
        assert Canonical(all) ==> forall f :: f in rest ==> Rank(all[0]) < Rank(f) by {
          if Canonical(all) {
            forall f | f in rest ensures Rank(all[0]) < Rank(f) {
              var j :| 0 <= j < |all[1..]| && all[1..][j] == f;
              assert all[j + 1] == f;
            }
          }
        }
        [all[0]] + rest
      else rest
  }

  /** The requested fields put in canonical order, each once. */
  function InCanonicalOrder(fs: seq<Field>): (r: seq<Field>)
    ensures Canonical(r)
    ensures forall f :: f in r <==> f in fs
  {
    FieldsNamesAllFields();
    Keep(ALL_FIELDS, fs)
  }

  lemma {:induction false} RankAtLeastIndex(a: seq<Field>, i: nat)
    requires Canonical(a) && i < |a|
    ensures Rank(a[i]) >= i
  {
    if i > 0 {
      RankAtLeastIndex(a, i - 1);
    }
  }

  /** A canonical list is determined by which fields it holds. */
  lemma CanonicalShape(a: seq<Field>)
    requires Canonical(a)
    ensures a == (if Cases in a then [Cases] else []) + (if Deaths in a then [Deaths] else [])
  {
    if a != [] {
      RankAtLeastIndex(a, |a| - 1);
    }
    if |a| == 2 {
      assert Rank(a[0]) < Rank(a[1]);
    } else if |a| == 1 {
      assert a == [a[0]];
      if a[0] == Cases {
        assert Deaths !in a;
      } else {
        assert Cases !in a;
      }
    }
  }

  /** Two canonical lists with the same members are equal. */
  lemma CanonicalSame(a: seq<Field>, b: seq<Field>)
    requires Canonical(a) && Canonical(b)
    requires forall f :: f in a <==> f in b
    ensures a == b
  {
    CanonicalShape(a);
    CanonicalShape(b);
  }

  /** A request already in canonical order is kept as written. */
  lemma CanonicalKept(fs: seq<Field>)
    requires Canonical(fs)
    ensures InCanonicalOrder(fs) == fs
  {
    CanonicalSame(InCanonicalOrder(fs), fs);
  }

  /** Validates the fields argument: `*` is every base field; otherwise the
      whitespace-separated tokens must all be base field names ("counts" and
      "cases," are not), and there must be at least one ("empty"). */
  function ParseFields(s: string): (r: Result<seq<Field>, ColsError>)
    ensures s == "*" ==> r == Ok(ALL_FIELDS)
    ensures r == Err(EmptyFields) <==> s != "*" && Blank(s)
    ensures r.Ok? ==> r.value != [] && Canonical(r.value)
    ensures r.Ok? && s != "*" ==> forall f :: f in r.value <==> FieldName(f) in Split(s)
    ensures r.Ok? <==> s == "*" || (Split(s) != [] && forall t :: t in Split(s) ==> ParseField(t).Some?)
    ensures r.Err? ==>
              r.error.EmptyFields? ||
              (r.error.UnknownField? && r.error.token in Split(s) && ParseField(r.error.token).None?)
  {
    if s == "*" then
      FieldsNamesAllFields();
      Ok(ALL_FIELDS)
    else
      var tokens := Split(s);
      if tokens == [] then Err(EmptyFields)
      else
        match ParseTokens(tokens)
        case Err(e) => Err(e)
        case Ok(fs) =>
          assert fs != [] && fs[0] in InCanonicalOrder(fs);
          assert forall f :: f in fs <==> FieldName(f) in tokens by {
            forall f ensures f in fs <==> FieldName(f) in tokens {
              if FieldName(f) in tokens {
                var i :| 0 <= i < |tokens| && tokens[i] == FieldName(f);
                assert ParseField(FieldName(fs[i])) == Some(fs[i]);
              }
            }
          }
          Ok(InCanonicalOrder(fs))
  }

  /** The names of the fields, in the order given. */
  function FieldNames(fs: seq<Field>): (names: seq<string>)
    ensures |names| == |fs|
  {
    seq(|fs|, i requires 0 <= i < |fs| => FieldName(fs[i]))
  }

  /** The fields string that requests exactly `fs`. */
  function FieldsString(fs: seq<Field>): string {
    Join(FieldNames(fs))
  }

  /** The tokens of a written request are the field names, and the request is not the wildcard. */
  lemma FieldsStringTokens(fs: seq<Field>)
    requires fs != []
    ensures Split(FieldsString(fs)) == FieldNames(fs)
    ensures FieldsString(fs) != "*"
  {
    var names := FieldNames(fs);
    forall k | 0 <= k < |names| ensures IsWord(names[k]) {
      FieldNameIsWord(fs[k]);
    }
    SplitJoin(names);
    var s := FieldsString(fs);
    assert |s| >= 5 by {
      FieldNameIsWord(fs[0]);
      if |names| > 1 {
        assert s == names[0] + " " + Join(names[1..]);
      }
    }
  }

  /** Parsing the names of some fields gives those fields back. */
  lemma ParseTokensNames(fs: seq<Field>)
    ensures ParseTokens(FieldNames(fs)) == Ok(fs)
  {
    var names := FieldNames(fs);
    forall k | 0 <= k < |names| ensures ParseField(names[k]).Some? {
      assert ParseField(FieldName(fs[k])) == Some(fs[k]);
    }
    var r := ParseTokens(names);
    forall k | 0 <= k < |fs| ensures r.value[k] == fs[k] {
      assert FieldName(r.value[k]) == names[k] == FieldName(fs[k]);
      assert ParseField(FieldName(r.value[k])) == Some(r.value[k]);
      assert ParseField(FieldName(fs[k])) == Some(fs[k]);
    }
    assert r.value == fs;
  }

  /** Writing a non-empty list of fields and parsing it back gives those fields in canonical order. */
  lemma ParseFieldsString(fs: seq<Field>)
    requires fs != []
    ensures ParseFields(FieldsString(fs)) == Ok(InCanonicalOrder(fs))
  {
    FieldsStringTokens(fs);
    ParseTokensNames(fs);
  }

  /** A field request written with any separator runs (tabs, several spaces,
      leading or trailing ones) parses to its fields in canonical order. */
  lemma ParseFieldsSpaced(fs: seq<Field>, gaps: seq<string>)
    requires fs != [] && |gaps| == |fs| + 1
    requires forall k :: 0 <= k < |gaps| ==> Blank(gaps[k])
    requires forall k :: 0 < k < |fs| ==> gaps[k] != []
    ensures ParseFields(Spaced(FieldNames(fs), gaps)) == Ok(InCanonicalOrder(fs))
  {
    var names := FieldNames(fs);
    forall k | 0 <= k < |names| ensures IsWord(names[k]) {
      FieldNameIsWord(fs[k]);
    }
    SplitSpaced(names, gaps);
    var s := Spaced(names, gaps);
    assert Split("*") == ["*"] by {
      assert Join(["*"]) == "*";
      SplitJoin(["*"]);
    }
    assert Split(s)[0] == FieldName(fs[0]) != "*";
    ParseTokensNames(fs);
  }

  lemma FieldNameIsWord(f: Field)
    ensures IsWord(FieldName(f)) && |FieldName(f)| >= 5
  {
  }

  // ---------------------------------------------------------------------------
  // Column names

  /** The dataset column for a prefix applied to a base field. */
  function ColumnName(p: Prefix, f: Field): string {
    match p
    case T => FieldName(f)
    case M => "male_" + FieldName(f)
    case F => "female_" + FieldName(f)
  }

  /** Recovers the prefix and base field from a column name. */
  function ParseColumn(name: string): (r: Option<(Prefix, Field)>)
    ensures r.Some? ==> ColumnName(r.value.0, r.value.1) == name
  {
    if |name| >= 5 && name[..5] == "male_" then
      match ParseField(name[5..])
      case None => None
      case Some(f) =>
        assert name == name[..5] + name[5..];
        Some((M, f))
    else if |name| >= 7 && name[..7] == "female_" then
      match ParseField(name[7..])
      case None => None
      case Some(f) =>
        assert name == name[..7] + name[7..];
        Some((F, f))
    else
      match ParseField(name)
      case None => None
      case Some(f) => Some((T, f))
  }

  /** Every column name parses back to the prefix and field it was built from. */
  lemma ParseColumnName(p: Prefix, f: Field)
    ensures ParseColumn(ColumnName(p, f)) == Some((p, f))
  {
    var name := ColumnName(p, f);
    match p
    case T =>
      assert name[0] != 'm' && name[0] != 'f';
    case M =>
      assert name[..5] == "male_" && name[5..] == FieldName(f);
    case F =>
      assert name[..5][0] == 'f';
      assert name[..7] == "female_" && name[7..] == FieldName(f);
  }

  /** Different (prefix, field) pairs name different columns. */
  lemma ColumnNameInjective(p: Prefix, f: Field, q: Prefix, g: Field)
    requires ColumnName(p, f) == ColumnName(q, g)
    ensures p == q && f == g
  {
    ParseColumnName(p, f);
    ParseColumnName(q, g);
  }

  // ---------------------------------------------------------------------------
  // Resolution

  /** One prefix applied to each field, in field order. */
  function Expand(p: Prefix, fs: seq<Field>): seq<string> {
    seq(|fs|, i requires 0 <= i < |fs| => ColumnName(p, fs[i]))
  }

  /** The expansions of the prefixes, concatenated in the order the prefixes were given. */
  function Resolve(ps: seq<Prefix>, fs: seq<Field>): seq<string> {
    if ps == [] then [] else Expand(ps[0], fs) + Resolve(ps[1..], fs)
  }

  /** Resolving a concatenation of prefix lists concatenates the results. */
  lemma {:induction false} ResolveAppend(ps: seq<Prefix>, qs: seq<Prefix>, fs: seq<Field>)
    ensures Resolve(ps + qs, fs) == Resolve(ps, fs) + Resolve(qs, fs)
  {
    if ps == [] {
      assert ps + qs == qs;
    } else {
      assert (ps + qs)[1..] == ps[1..] + qs;
      ResolveAppend(ps[1..], qs, fs);
    }
  }

  /** Each prefix contributes one column per field. */
  lemma {:induction false} ResolveLength(ps: seq<Prefix>, fs: seq<Field>)
    ensures |Resolve(ps, fs)| == |ps| * |fs|
  {
    if ps != [] {
      ResolveLength(ps[1..], fs);
      StepProduct(|ps|, |fs|);
    }
  }

  lemma StepProduct(i: nat, n: nat)
    requires i > 0
    ensures i * n == n + (i - 1) * n
  {
  }

  /** The result is a block per prefix, in the order the prefixes were given. */
  lemma {:induction false} ResolveBlock(ps: seq<Prefix>, fs: seq<Field>, i: nat)
    requires i < |ps|
    ensures Resolve(ps, fs) == Resolve(ps[..i], fs) + Expand(ps[i], fs) + Resolve(ps[i + 1..], fs)
  {
    assert ps == ps[..i] + ([ps[i]] + ps[i + 1..]);
    ResolveAppend(ps[..i], [ps[i]] + ps[i + 1..], fs);
    ResolveAppend([ps[i]], ps[i + 1..], fs);
    assert Resolve([ps[i]], fs) == Expand(ps[i], fs) + Resolve([], fs);
  }

  /** A column is in the result exactly when some requested prefix applied to some requested field names it. */
  lemma {:induction false} ResolveMembers(ps: seq<Prefix>, fs: seq<Field>, name: string)
    ensures name in Resolve(ps, fs) <==>
              exists i, j :: 0 <= i < |ps| && 0 <= j < |fs| && name == ColumnName(ps[i], fs[j])
  {
    if ps != [] {
      ResolveMembers(ps[1..], fs, name);
      if exists i, j :: 0 <= i < |ps| && 0 <= j < |fs| && name == ColumnName(ps[i], fs[j]) {
        var i, j :| 0 <= i < |ps| && 0 <= j < |fs| && name == ColumnName(ps[i], fs[j]);
        if i == 0 {
          assert Expand(ps[0], fs)[j] == name;
        } else {
          assert ps[1..][i - 1] == ps[i];
        }
      }
      if name in Resolve(ps[1..], fs) {
        var i, j :| 0 <= i < |ps[1..]| && 0 <= j < |fs| && name == ColumnName(ps[1..][i], fs[j]);
        assert name == ColumnName(ps[i + 1], fs[j]);
      }
    }
  }

  /** Repetition-free prefixes and fields never yield the same column twice. */
  lemma {:induction false} ResolveDistinct(ps: seq<Prefix>, fs: seq<Field>)
    requires Distinct(ps) && Distinct(fs)
    ensures Distinct(Resolve(ps, fs))
  {
    if ps != [] {
      var head := Expand(ps[0], fs);
      var tail := Resolve(ps[1..], fs);
      assert Distinct(ps[1..]) by {
        assert forall i :: 0 <= i < |ps| - 1 ==> ps[1..][i] == ps[i + 1];
      }
      ResolveDistinct(ps[1..], fs);
      forall a, b | 0 <= a < b < |head| ensures head[a] != head[b] {
        if head[a] == head[b] {
          ColumnNameInjective(ps[0], fs[a], ps[0], fs[b]);
        }
      }
      forall a, b | 0 <= a < |head| && 0 <= b < |tail| ensures head[a] != tail[b] {
        ResolveMembers(ps[1..], fs, tail[b]);
        var i, j :| 0 <= i < |ps[1..]| && 0 <= j < |fs| && tail[b] == ColumnName(ps[1..][i], fs[j]);
        if head[a] == tail[b] {
          ColumnNameInjective(ps[0], fs[a], ps[i + 1], fs[j]);
        }
      }
      var r := head + tail;
      forall a, b | 0 <= a < b < |r| ensures r[a] != r[b] {
        if b < |head| {
        } else if a < |head| {
          assert r[b] == tail[b - |head|];
        } else {
          assert r[a] == tail[a - |head|] && r[b] == tail[b - |head|];
        }
      }
    }
  }

  // ---------------------------------------------------------------------------
  // cols

  /** `cols(prefixes, fields)`: prefixes are validated first, so a bad prefix
      string is rejected whatever the fields are; then the fields; then the
      columns are listed prefix by prefix in the order written, each prefix's
      block in canonical field order. */
  function Cols(prefixes: string, fields: string): (r: Result<seq<string>, ColsError>)
    ensures ParsePrefixes(prefixes).Err? ==> r == Err(ParsePrefixes(prefixes).error)
    ensures ParsePrefixes(prefixes).Ok? && ParseFields(fields).Err? ==> r == Err(ParseFields(fields).error)
    ensures r.Ok? <==> ParsePrefixes(prefixes).Ok? && ParseFields(fields).Ok?
    ensures r.Ok? ==> r.value == Resolve(ParsePrefixes(prefixes).value, ParseFields(fields).value)
    ensures r.Ok? ==> Distinct(r.value)
  {
    match ParsePrefixes(prefixes)
    case Err(e) => Err(e)
    case Ok(ps) =>
      match ParseFields(fields)
      case Err(e) => Err(e)
      case Ok(fs) =>
        ResolveDistinct(ps, fs);
        Ok(Resolve(ps, fs))
  }

  /** A single `m` or `f` prefix decorates each requested field, in field order;
      `t` gives the bare names. */
  lemma ColsSinglePrefix(p: Prefix, fields: string)
    requires ParseFields(fields).Ok?
    ensures Cols([PrefixChar(p)], fields) == Ok(Expand(p, ParseFields(fields).value))
  {
    ParsePrefixString([p]);
    assert PrefixString([p]) == [PrefixChar(p)];
    assert Resolve([p], ParseFields(fields).value) == Expand(p, ParseFields(fields).value);
  }

  /** Several prefixes give the concatenation of what each gives alone, in the order written. */
  lemma ColsConcat(p1: string, p2: string, fields: string)
    requires p1 != "" && p2 != ""
    requires Cols(p1 + p2, fields).Ok?
    ensures Cols(p1, fields).Ok? && Cols(p2, fields).Ok?
    ensures Cols(p1 + p2, fields).value == Cols(p1, fields).value + Cols(p2, fields).value
  {
    var s := p1 + p2;
    var ps := ParsePrefixes(s).value;
    assert forall i :: 0 <= i < |p1| ==> p1[i] == s[i];
    assert forall i :: 0 <= i < |p2| ==> p2[i] == s[|p1| + i];
    assert ParsePrefixChar(s[0]).Some? && ParsePrefixChar(s[|p1|]).Some?;
    assert p1 != "*" && p2 != "*";
    assert Distinct(p1) by {
      forall i, j | 0 <= i < j < |p1| ensures p1[i] != p1[j] {
        assert s[i] != s[j];
      }
    }
    assert Distinct(p2) by {
      forall i, j | 0 <= i < j < |p2| ensures p2[i] != p2[j] {
        assert s[|p1| + i] != s[|p1| + j];
      }
    }
    var ps1 := ParsePrefixes(p1).value;
    var ps2 := ParsePrefixes(p2).value;
    assert ps == ps1 + ps2 by {
      forall i | 0 <= i < |ps| ensures ps[i] == (ps1 + ps2)[i] {
        var q := (ps1 + ps2)[i];
        assert PrefixChar(ps[i]) == s[i] == PrefixChar(q);
        assert ParsePrefixChar(s[i]) == Some(ps[i]) && ParsePrefixChar(s[i]) == Some(q);
      }
    }
    ResolveAppend(ps1, ps2, ParseFields(fields).value);
  }

  /** A `*` written together with other characters is not the wildcard: it is
      reported as a prefix outside the vocabulary. */
  lemma WildcardNotMixable(s: string)
    requires '*' in s && s != "*"
    ensures ParsePrefixes(s).Err? && ParsePrefixes(s).error.UnknownPrefix?
  {
    var i :| 0 <= i < |s| && s[i] == '*';
    assert ParsePrefixChar(s[i]).None?;
  }

  /** The wildcard prefix is the same as writing `tmf`. */
  lemma ColsWildcard(fields: string)
    ensures Cols("*", fields) == Cols("tmf", fields)
  {
    assert ParsePrefixes("tmf") == Ok(WILDCARD_PREFIXES) by {
      ParsePrefixString(WILDCARD_PREFIXES);
      assert PrefixString(WILDCARD_PREFIXES) == "tmf";
    }
  }

  /** `t` with every field is exactly the `FIELDS` constant. */
  lemma ColsTotalAll()
    ensures Cols("t", "*") == Ok(FIELDS)
  {
    ColsSinglePrefix(T, "*");
    assert [PrefixChar(T)] == "t";
    assert Expand(T, ALL_FIELDS) == FIELDS;
  }
}
