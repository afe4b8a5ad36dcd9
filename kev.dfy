/** The exploited-vulnerability index of `get_cve_list` (get_advisories.py,
    lines 54-64): the list of `cveID`s of the feed's `vulnerabilities`, in
    feed order. The HTTP fetch is not modelled: the parsed feed is the input. */
module Kev {
  import opened Json

  const VulnerabilitiesKey := "vulnerabilities"
  const CveIdKey := "cveID"

  /** Line 56 and the iteration of line 61: the entries the loop visits. */
  function FeedEntries(feed: Json): Result<seq<Json>> {
    match GetKey(feed, VulnerabilitiesKey)
    case Err(e) => Err(e)
    case Ok(kev) => Iterate(kev)
  }

  /** Every entry the loop visits has a `cveID`, so the loop runs to the end. */
  predicate FeedUsable(feed: Json) {
    && FeedEntries(feed).Ok?
    && var entries := FeedEntries(feed).value;
       forall i :: 0 <= i < |entries| ==> GetKey(entries[i], CveIdKey).Ok?
  }

  /** `cveList` is the feed's `cveID`s, one per entry, in feed order. */
  predicate ListsFeed(feed: Json, cveList: seq<Json>) {
    && FeedUsable(feed)
    && var entries := FeedEntries(feed).value;
       && |cveList| == |entries|
       && forall i :: 0 <= i < |entries| ==> cveList[i] == GetKey(entries[i], CveIdKey).value
  }

  /** Lines 60-64: every entry's `cveID`, in order. The first entry without
      one (or that is not a dict) raises, and no list is returned. */
  method GetCveList(feed: Json) returns (r: Result<seq<Json>>)
    ensures r.Ok? <==> FeedUsable(feed)
    ensures r.Ok? ==> ListsFeed(feed, r.value)
    ensures FeedEntries(feed).Err? ==> r == Err(FeedEntries(feed).error)
    ensures FeedEntries(feed).Ok? && r.Err? ==>
      var entries := FeedEntries(feed).value;
      exists i :: 0 <= i < |entries| && GetKey(entries[i], CveIdKey) == Err(r.error) &&
        forall j :: 0 <= j < i ==> GetKey(entries[j], CveIdKey).Ok?
  {
    var entries := FeedEntries(feed);
    if entries.Err? {
      return Err(entries.error);
    }
    var kev := entries.value;
    var cveList: seq<Json> := [];
    for i := 0 to |kev|
      invariant |cveList| == i
      invariant forall j :: 0 <= j < i ==> GetKey(kev[j], CveIdKey).Ok? && cveList[j] == GetKey(kev[j], CveIdKey).value
    {
      var id := GetKey(kev[i], CveIdKey);
      if id.Err? {
        return Err(id.error);
      }
      cveList := cveList + [id.value];
    }
    return Ok(cveList);
  }
}
