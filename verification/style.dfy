/** The colours a region can be filled with, and when a value counts as present. */
module Style {
  import opened Data
  import opened Join

  /** The five colours of the quantize scale's range, lightest first. */
  const Palette: seq<string> := ["rgb(237, 248, 233)", "rgb(186, 228, 179)", "rgb(116, 196, 118)",
                                 "rgb(49, 163, 84)", "rgb(0, 109, 44)"]

  /** The fill of a region that has no data. */
  const NoData: string := "#ccc"

  /** A colour the quantize scale can return. */
  type Colour = c: string | c in Palette witness "rgb(237, 248, 233)"

  /** JavaScript truthiness of a feature's `value`: absent, zero and NaN are falsy. */
  predicate Truthy(v: Option<Num>)
  {
    match v
    case None => false
    case Some(NaN) => false
    case Some(Real(r)) => r != 0.0
  }

  /** The "no data" grey is not one of the scale's colours, so the two kinds of fill never meet. */
  lemma NoDataNotInPalette()
    ensures NoData !in Palette
  {
  }

  /**
   * Starting from features with no values, as the GeoJSON file has them, a feature whose name no
   * record carries is still falsy after the merge, so it is filled with the "no data" grey.
   */
  lemma {:induction false} UnmatchedFeatureHasNoData(records: seq<Record>, names: seq<string>, parse: string -> Num,
                                  k: nat)
    requires k < |names|
    requires forall i :: 0 <= i < |records| ==> records[i].name != names[k]
    ensures !Truthy(MergeValues(records, names, seq(|names|, _ => None), parse)[k])
  {
    UnmatchedFeatureUntouched(records, names, seq(|names|, _ => None), parse, k);
  }

  /**
   * A feature that is the first with its name, when the last record carrying that name parses to
   * a non-zero number, is truthy after the merge: it is coloured by the scale.
   */
  lemma {:induction false} MatchedFeatureHasData(records: seq<Record>, names: seq<string>, vals: seq<Option<Num>>,
                              parse: string -> Num, i: nat, j: nat)
    requires |vals| == |names| && i < |records| && j < |names|
    requires names[j] == records[i].name && FirstOccurrence(names, j)
    requires forall i' :: i < i' < |records| ==> records[i'].name != records[i].name
    requires parse(records[i].wIncome).Real? && parse(records[i].wIncome).r != 0.0
    ensures Truthy(MergeValues(records, names, vals, parse)[j])
  {
    LastRecordWins(records, names, vals, parse, i, j);
  }
}
