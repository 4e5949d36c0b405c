/**
 * The record-to-feature merge as a function on values: which feature each record writes, the
 * values after all records, and the properties the nested loop with its `break` guarantees.
 */
module Join {
  import opened Data

  /** No feature before index `k` has the same name as feature `k`. */
  predicate FirstOccurrence(names: seq<string>, k: nat)
    requires k < |names|
  {
    forall k' :: 0 <= k' < k ==> names[k'] != names[k]
  }

  /** The index at which a scan starting at `from` stops: the first name equal to `name`. */
  function FirstMatchFrom(names: seq<string>, name: string, from: nat): (r: Option<nat>)
    requires from <= |names|
    ensures r.Some? ==> from <= r.value < |names| && names[r.value] == name
    ensures r.Some? ==> forall k :: from <= k < r.value ==> names[k] != name
    ensures r.None? ==> forall k :: from <= k < |names| ==> names[k] != name
    decreases |names| - from
  {
    if from == |names| then None
    else if names[from] == name then Some(from)
    else FirstMatchFrom(names, name, from + 1)
  }

  /** The feature the inner scan of the merge stops at for a record named `name`, if any. */
  function FirstMatch(names: seq<string>, name: string): (r: Option<nat>)
    ensures r.Some? ==> r.value < |names| && names[r.value] == name && FirstOccurrence(names, r.value)
    ensures r.None? <==> name !in names
  {
    FirstMatchFrom(names, name, 0)
  }

  /**
   * The effect of one record on the feature values: the first feature named `name` gets the
   * record's parsed value `v`; every other feature, and every feature when none matches, keeps
   * its value.
   */
  function Write(vals: seq<Option<Num>>, names: seq<string>, name: string, v: Num)
    : (w: seq<Option<Num>>)
    requires |vals| == |names|
    ensures |w| == |vals|
    ensures name !in names ==> w == vals
  {
    match FirstMatch(names, name)
    case None => vals
    case Some(j) => vals[j := Some(v)]
  }

  /**
   * Feature `k` after one write: it gets `v` exactly when it is named `name` and no earlier
   * feature is; otherwise it keeps its value. So each record writes at most one feature.
   */
  lemma WriteAt(vals: seq<Option<Num>>, names: seq<string>, name: string, v: Num, k: nat)
    requires |vals| == |names| && k < |names|
    ensures Write(vals, names, name, v)[k]
         == if names[k] == name && FirstOccurrence(names, k) then Some(v) else vals[k]
  {
  }

  /** The feature values after every record, in data order, has been written. */
  function MergeValues(records: seq<Record>, names: seq<string>, vals: seq<Option<Num>>,
                       parse: string -> Num): (m: seq<Option<Num>>)
    requires |vals| == |names|
    ensures |m| == |names|
  {
    if records == [] then vals
    else Write(MergeValues(records[..|records| - 1], names, vals, parse), names,
               records[|records| - 1].name, parse(records[|records| - 1].wIncome))
  }

  /** Merging one more record is writing it over the values the earlier records left. */
  lemma MergeSnoc(records: seq<Record>, names: seq<string>, vals: seq<Option<Num>>,
                  parse: string -> Num, i: nat)
    requires |vals| == |names| && i < |records|
    ensures MergeValues(records[..i + 1], names, vals, parse)
         == Write(MergeValues(records[..i], names, vals, parse), names, records[i].name,
                  parse(records[i].wIncome))
  {
    assert records[..i + 1][..i] == records[..i];
  }

  /** When the scan stops at `j`, the write sets exactly `vals[j]`. */
  lemma WriteFound(vals: seq<Option<Num>>, names: seq<string>, name: string, v: Num, j: nat)
    requires |vals| == |names| && j < |names| && names[j] == name
    requires forall k :: 0 <= k < j ==> names[k] != name
    ensures Write(vals, names, name, v) == vals[j := Some(v)]
  {
  }

  /** The index of the last record named `name`, if there is one. */
  function LastNamed(records: seq<Record>, name: string): (r: Option<nat>)
    ensures r.Some? ==> r.value < |records| && records[r.value].name == name
    ensures r.Some? ==> forall i :: r.value < i < |records| ==> records[i].name != name
    ensures r.None? <==> forall i :: 0 <= i < |records| ==> records[i].name != name
  {
    if records == [] then None
    else if records[|records| - 1].name == name then Some(|records| - 1)
    else LastNamed(records[..|records| - 1], name)
  }

  /**
   * A direct description of a feature's final value, independent of the order of writes:
   * a feature shadowed by an earlier one of the same name, or named by no record, keeps its
   * value; otherwise it holds the income of the last record with its name.
   */
  function FinalValue(records: seq<Record>, names: seq<string>, vals: seq<Option<Num>>,
                      parse: string -> Num, k: nat): Option<Num>
    requires |vals| == |names| && k < |names|
  {
    if !FirstOccurrence(names, k) then vals[k]
    else match LastNamed(records, names[k])
      case None => vals[k]
      case Some(i) => Some(parse(records[i].wIncome))
  }

  /** The merge leaves every feature with the value `FinalValue` describes. */
  lemma {:induction false} MergeValueAt(records: seq<Record>, names: seq<string>,
                                        vals: seq<Option<Num>>, parse: string -> Num, k: nat)
    requires |vals| == |names| && k < |names|
    ensures MergeValues(records, names, vals, parse)[k] == FinalValue(records, names, vals, parse, k)
  {
    if records != [] {
      var init := records[..|records| - 1];
      var last := records[|records| - 1];
      MergeValueAt(init, names, vals, parse, k);
      WriteAt(MergeValues(init, names, vals, parse), names, last.name, parse(last.wIncome), k);
      if records[|records| - 1].name != names[k] {
        assert LastNamed(records, names[k]) == LastNamed(init, names[k]);
        match LastNamed(init, names[k])
        case None =>
        case Some(i) => assert init[i] == records[i];
      }
    }
  }

  /** The last record with a name writes its income into the first feature with that name. */
  lemma {:induction false} LastRecordWins(records: seq<Record>, names: seq<string>, vals: seq<Option<Num>>,
                       parse: string -> Num, i: nat, j: nat)
    requires |vals| == |names| && i < |records| && j < |names|
    requires names[j] == records[i].name && FirstOccurrence(names, j)
    requires forall i' :: i < i' < |records| ==> records[i'].name != records[i].name
    ensures MergeValues(records, names, vals, parse)[j] == Some(parse(records[i].wIncome))
  {
    MergeValueAt(records, names, vals, parse, j);
  }

  /**
   * Each record writes at most one feature: a feature preceded by another with the same name is
   * never written, whatever the records.
   */
  lemma {:induction false} ShadowedFeatureUntouched(records: seq<Record>, names: seq<string>, vals: seq<Option<Num>>,
                                 parse: string -> Num, j: nat, k: nat)
    requires |vals| == |names| && j < k < |names| && names[j] == names[k]
    ensures MergeValues(records, names, vals, parse)[k] == vals[k]
  {
    MergeValueAt(records, names, vals, parse, k);
  }

  /** A feature whose name no record carries keeps its prior value. */
  lemma {:induction false} UnmatchedFeatureUntouched(records: seq<Record>, names: seq<string>, vals: seq<Option<Num>>,
                                  parse: string -> Num, k: nat)
    requires |vals| == |names| && k < |names|
    requires forall i :: 0 <= i < |records| ==> records[i].name != names[k]
    ensures MergeValues(records, names, vals, parse)[k] == vals[k]
  {
    MergeValueAt(records, names, vals, parse, k);
  }

  /**
   * A record matching no feature changes nothing: dropping it from the data gives the same
   * final values.
   */
  lemma {:induction false} UnmatchedRecordIgnored(records: seq<Record>, rec: Record, rest: seq<Record>,
                                                  names: seq<string>, vals: seq<Option<Num>>,
                                                  parse: string -> Num)
    requires |vals| == |names| && rec.name !in names
    ensures MergeValues(records + [rec] + rest, names, vals, parse)
         == MergeValues(records + rest, names, vals, parse)
  {
    var withRec := records + [rec] + rest;
    var without := records + rest;
    if rest == [] {
      assert withRec[..|withRec| - 1] == records && withRec[|withRec| - 1] == rec;
      assert without == records;
      var before := MergeValues(records, names, vals, parse);
      assert MergeValues(withRec, names, vals, parse)
          == Write(before, names, rec.name, parse(rec.wIncome));
    } else {
      var n := |rest| - 1;
      var last := rest[n];
      UnmatchedRecordIgnored(records, rec, rest[..n], names, vals, parse);
      assert withRec[..|withRec| - 1] == records + [rec] + rest[..n];
      assert without[..|without| - 1] == records + rest[..n];
      assert withRec[|withRec| - 1] == without[|without| - 1] == last;
      var before := MergeValues(records + rest[..n], names, vals, parse);
      assert MergeValues(withRec, names, vals, parse)
          == Write(before, names, last.name, parse(last.wIncome));
      assert MergeValues(without, names, vals, parse)
          == Write(before, names, last.name, parse(last.wIncome));
    }
  }

  /** Running the merge a second time over the same records changes no value. */
  lemma MergeIdempotent(records: seq<Record>, names: seq<string>, vals: seq<Option<Num>>,
                        parse: string -> Num)
    requires |vals| == |names|
    ensures MergeValues(records, names, MergeValues(records, names, vals, parse), parse)
         == MergeValues(records, names, vals, parse)
  {
    var once := MergeValues(records, names, vals, parse);
    var twice := MergeValues(records, names, once, parse);
    forall k | 0 <= k < |names|
      ensures twice[k] == once[k]
    {
      MergeValueAt(records, names, vals, parse, k);
      MergeValueAt(records, names, once, parse, k);
    }
  }

  /**
   * Matching is exact string equality: a record named "Lima" does not reach the feature
   * "lima", while "lima" does; "Cusco" does not reach "cusco"; the feature "puno", named by no
   * record, stays absent.
   */
  lemma ExactNameMatch(parse: string -> Num)
    ensures MergeValues([Record("Lima", "1000")], ["lima"], [None], parse) == [None]
    ensures MergeValues([Record("lima", "1000"), Record("Cusco", "500")],
                        ["lima", "cusco", "puno"], [None, None, None], parse)
         == [Some(parse("1000")), None, None]
  {
  }
}
