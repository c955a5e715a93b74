/**
 The two schema constants shared by the column resolver and the age grouper:
 the base measured fields (`FIELDS`) and the eleven fixed age bands of the
 dataset (`AGE_GROUPS`).
 */
module Schema {
  import opened Common

  /** A base measured quantity; the sex decompositions are derived from it by a prefix. */
  datatype Field = Cases | Deaths

  /** The base fields in canonical order. */
  const ALL_FIELDS: seq<Field> := [Cases, Deaths]

  /** The column names of the base fields, in canonical order. */
  const FIELDS: seq<string> := ["cases", "deaths"]

  function FieldName(f: Field): string {
    match f
    case Cases => "cases"
    case Deaths => "deaths"
  }

  /** Recognises a base field name; anything else (including "counts" or "cases,") is not one. */
  function ParseField(token: string): (r: Option<Field>)
    ensures r.Some? ==> FieldName(r.value) == token
    ensures forall f :: FieldName(f) == token ==> r == Some(f)
  {
    if token == "cases" then Some(Cases)
    else if token == "deaths" then Some(Deaths)
    else None
  }

  /** `FIELDS` lists the names of `ALL_FIELDS`, position by position. */
  lemma FieldsNamesAllFields()
    ensures |FIELDS| == |ALL_FIELDS|
    ensures forall i :: 0 <= i < |FIELDS| ==> FIELDS[i] == FieldName(ALL_FIELDS[i])
    ensures forall f: Field :: f in ALL_FIELDS
  {
    forall f: Field ensures f in ALL_FIELDS {
      assert ALL_FIELDS[if f == Cases then 0 else 1] == f;
    }
  }

  /** Number of fixed age bands, the `unknown` band included. */
  const BAND_COUNT: nat := 11

  /** Index of the `unknown` band; bands below it are numeric. */
  const UNKNOWN_BAND: nat := 10

  const UNKNOWN: string := "unknown"

  /** The fixed age bands: ten-year bands from 0 to 89, the open band `>=90`, and `unknown`. */
  const AGE_GROUPS: seq<string> :=
    ["0-9", "10-19", "20-29", "30-39", "40-49", "50-59", "60-69", "70-79", "80-89", ">=90", UNKNOWN]

  /** Lower age bound of numeric band `i`. */
  function LowerBound(i: nat): (lb: nat)
    requires i < UNKNOWN_BAND
    ensures lb % 10 == 0 && lb <= 90
  {
    10 * i
  }
}
