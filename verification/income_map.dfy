/** choropleth/income_map.js: the merge of income_dept.csv into peru_adm1.geojson, and the fill. */
module IncomeMap {
  import opened Data
  import opened Join
  import opened Style

  /**
   * For each record in data order, scan the features for the first whose `lower_name` equals the
   * record's `name`, write the parsed income into its `value` and stop the scan.
   */
  method Merge(data: seq<Record>, features: array<Feature>, parseFloat: string -> Num)
    requires Distinct(features)
    modifies features[..]
    ensures Values(features[..]) ==
      MergeValues(data, old(Names(features[..])), old(Values(features[..])), parseFloat)
    ensures Names(features[..]) == old(Names(features[..]))
    ensures DisplayNames(features[..]) == old(DisplayNames(features[..]))
  {
    ghost var fs := features[..];
    ghost var names := Names(fs);
    ghost var initial := Values(fs);
    for i := 0 to |data|
      invariant features[..] == fs
      invariant forall k :: 0 <= k < |fs| ==>
        fs[k].lowerName == old(fs[k].lowerName) && fs[k].displayName == old(fs[k].displayName)
      invariant Values(fs) == MergeValues(data[..i], names, initial, parseFloat)
    {
      var dataDept := data[i].name;
      var dataValue := parseFloat(data[i].wIncome);
      MergeSnoc(data, names, initial, parseFloat, i);
      ghost var before := Values(fs);
      for j := 0 to features.Length
        invariant features[..] == fs
        invariant forall k :: 0 <= k < |fs| ==>
          fs[k].lowerName == old(fs[k].lowerName) && fs[k].displayName == old(fs[k].displayName)
        invariant forall k :: 0 <= k < j ==> names[k] != dataDept
        invariant Values(fs) == before
      {
        var jsonDept := features[j].lowerName;
        if dataDept == jsonDept {
          WriteFound(before, names, dataDept, dataValue, j);
          features[j].value := Some(dataValue);
          assert Values(fs) == before[j := Some(dataValue)];
          break;
        }
      }
    }
    assert data[..|data|] == data;
  }

  /** The fill callback: the scale's colour for a truthy `value`, the "no data" grey otherwise. */
  function FeatureFill(d: Feature, color: Num -> Colour): (c: string)
    reads d
    ensures c == NoData <==> !Truthy(d.value)
    ensures Truthy(d.value) ==> c in Palette && c == color(d.value.value)
  {
    if Truthy(d.value) then color(d.value.value) else NoData
  }
}
