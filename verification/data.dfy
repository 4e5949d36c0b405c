/** Values and objects the merge works on: parsed numbers, CSV rows and GeoJSON features. */
module Data {

  /** A JavaScript number as `parseFloat` produces it: a finite value or NaN. */
  datatype Num = Real(r: real) | NaN

  datatype Option<T> = None | Some(value: T)

  /** One row of income_dept.csv: the department name and its income column, still unparsed. */
  datatype Record = Record(name: string, wIncome: string)

  /**
   * One GeoJSON feature of peru_adm1.geojson (a member of the FeatureCollection's `features`
   * array, section 3.3 of RFC 7946). Its `properties` member (section 3.2) is flattened into the
   * object: `lower_name`, `NAME_1` and the `value` the merge attaches, absent until then.
   */
  class Feature {
    var lowerName: string
    var displayName: string
    var value: Option<Num>
  }

  /** JSON parsing gives every feature its own object: no two array slots share one. */
  predicate Distinct(features: array<Feature>)
    reads features
  {
    forall i, j :: 0 <= i < j < features.Length ==> features[i] != features[j]
  }

  /** The `lower_name` of each feature, in array order. */
  function Names(fs: seq<Feature>): seq<string>
    reads fs
  {
    seq(|fs|, k requires 0 <= k < |fs| reads fs => fs[k].lowerName)
  }

  /** The `NAME_1` of each feature, in array order. */
  function DisplayNames(fs: seq<Feature>): seq<string>
    reads fs
  {
    seq(|fs|, k requires 0 <= k < |fs| reads fs => fs[k].displayName)
  }

  /** The `value` of each feature, in array order. */
  function Values(fs: seq<Feature>): seq<Option<Num>>
    reads fs
  {
    seq(|fs|, k requires 0 <= k < |fs| reads fs => fs[k].value)
  }
}
