/**
 * The filter translator behind `CmData.GetSystemTypeFilter`: an
 * organisational dimension ("System Type") and a value ("System Name")
 * become the partial-table filter sent to every collector.
 */
module Filters {

  /** The column of the remote endpoint table that holds each dimension. */
  const FieldCodes: map<string, string> := map[
    "Customer" := "2010",
    "Vendor" := "2011",
    "Station" := "2012",
    "Hub" := "2013",
    "Sub-Region" := "2014",
    "Region" := "2015",
    "Network" := "2016"
  ]

  /** The full-table filter that keeps the rows whose column `code` equals `value`. */
  function FullFilter(code: string, value: string): string {
    "forceFullTable=true;fullFilter=(" + code + "==" + value + ")"
  }

  /** The filter for a dimension and value; the empty string for a dimension
      that is not one of the seven. */
  function SystemTypeFilter(systemType: string, systemName: string): (r: string)
    ensures systemType in FieldCodes ==> r == FullFilter(FieldCodes[systemType], systemName)
    ensures systemType !in FieldCodes ==> r == ""
    ensures r == "" <==> systemType !in FieldCodes
  {
    if systemType == "Customer" then FullFilter("2010", systemName)
    else if systemType == "Vendor" then FullFilter("2011", systemName)
    else if systemType == "Network" then FullFilter("2016", systemName)
    else if systemType == "Region" then FullFilter("2015", systemName)
    else if systemType == "Sub-Region" then FullFilter("2014", systemName)
    else if systemType == "Hub" then FullFilter("2013", systemName)
    else if systemType == "Station" then FullFilter("2012", systemName)
    else ""
  }

  /** The filter embeds the value verbatim, right after the field code. */
  lemma FilterEmbedsValue(systemType: string, systemName: string)
    requires systemType in FieldCodes
    ensures var r := SystemTypeFilter(systemType, systemName);
            var prefix := "forceFullTable=true;fullFilter=(" + FieldCodes[systemType] + "==";
            |r| == |prefix| + |systemName| + 1 &&
            r[..|prefix|] == prefix &&
            r[|prefix|..|r| - 1] == systemName &&
            r[|r| - 1] == ')'
  {
    var prefix := "forceFullTable=true;fullFilter=(" + FieldCodes[systemType] + "==";
    assert FullFilter(FieldCodes[systemType], systemName) == prefix + systemName + ")";
  }
}
