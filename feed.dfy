/** The IP-range feed as the whitelist updater sees it: the change-detecting
    fetch decision of `fetch_atlassian_data` and the filter-then-sort of
    `extract_email_ips` (postfix/ip_updater.py). */
module Feed {
  import opened Common
  import opened StringOrder

  /** One entry of the feed's `items` list, read with `item.get(...)`: a
      missing `product` or `direction` reads as the empty list, a missing
      `cidr` as None. */
  datatype Record = Record(product: seq<string>, direction: seq<string>, cidr: Option<string>)

  /** What `response.json()` makes of the body: not JSON at all, a JSON value
      that is not an object, or an object with or without a top-level `items`. */
  datatype Body = NotJson | NotObject | Object(items: Option<seq<Record>>)

  /** The HTTP exchange: either the request itself raised (connection error,
      30-second timeout), or a response arrived with a status code, the MD5 of
      its text (opaque here) and its parsed body. */
  datatype FetchOutcome =
    | RequestFailed
    | Response(statusCode: int, bodyHash: string, body: Body)

  /** A changed feed document, tagged with the hash of the body it came from
      (the dictionary with `_content_hash` added). */
  datatype FeedData = FeedData(items: seq<Record>, contentHash: string)

  /** `raise_for_status()` raises for client (4xx) and server (5xx) errors. */
  predicate IsHttpError(code: int) {
    400 <= code < 600
  }

  /** `last_hash and current_hash == last_hash`: a stored, non-empty hash equal
      to the hash of the body just received. */
  predicate Unchanged(lastHash: Option<string>, currentHash: string) {
    lastHash.Some? && lastHash.value != "" && currentHash == lastHash.value
  }

  /** `fetch_atlassian_data`: None means "nothing to do this cycle", whether the
      feed is unchanged or something went wrong; otherwise the parsed items
      tagged with the current hash. */
  function FetchAtlassianData(lastHash: Option<string>, outcome: FetchOutcome): (r: Option<FeedData>)
    ensures outcome.RequestFailed? ==> r.None?
    ensures outcome.Response? && Unchanged(lastHash, outcome.bodyHash) ==> r.None?
    ensures r.Some? <==>
              && outcome.Response?
              && !IsHttpError(outcome.statusCode)
              && !Unchanged(lastHash, outcome.bodyHash)
              && outcome.body.Object? && outcome.body.items.Some?
    ensures r.Some? ==> r.value.items == outcome.body.items.value
    ensures r.Some? ==> r.value.contentHash == outcome.bodyHash
  {
    match outcome
    case RequestFailed => None
    case Response(code, currentHash, body) =>
      if IsHttpError(code) then None
      else if Unchanged(lastHash, currentHash) then None
      else
        match body
        case Object(Some(items)) => Some(FeedData(items, currentHash))
        case _ => None
  }

  /** When the stored hash matches, the body plays no part in the decision: it
      is never parsed, so any two bodies give the same (empty) answer. */
  lemma UnchangedIgnoresBody(lastHash: Option<string>, code: int, currentHash: string, b1: Body, b2: Body)
    requires Unchanged(lastHash, currentHash)
    ensures FetchAtlassianData(lastHash, Response(code, currentHash, b1))
         == FetchAtlassianData(lastHash, Response(code, currentHash, b2))
         == None
  {
  }

  /** The three conditions of the `if` in `extract_email_ips`. */
  predicate Selects(r: Record) {
    "email" in r.product && "egress" in r.direction && r.cidr.Some? && r.cidr.value != ""
  }

  /** The CIDRs of the selected records, in feed order (the list the loop
      builds before sorting). */
  function EmailEgressCidrs(items: seq<Record>): (cidrs: seq<string>)
    ensures |cidrs| <= |items|
    ensures forall k :: 0 <= k < |cidrs| ==> cidrs[k] != ""
    decreases |items|
  {
    if items == [] then []
    else
      var init := EmailEgressCidrs(items[..|items| - 1]);
      var last := items[|items| - 1];
      if Selects(last) then init + [last.cidr.value] else init
  }

  /** The positions of the selected records. */
  function SelectedIndices(items: seq<Record>): set<int> {
    set i | 0 <= i < |items| && Selects(items[i])
  }

  /** The positions of the selected records whose CIDR is `c`. */
  function IndicesWithCidr(items: seq<Record>, c: string): set<int> {
    set i | 0 <= i < |items| && Selects(items[i]) && items[i].cidr.value == c
  }

  /** Appending one record adds its position to the selected positions exactly
      when it is selected. */
  lemma SelectedIndicesSnoc(items: seq<Record>)
    requires items != []
    ensures var n := |items| - 1;
            SelectedIndices(items)
            == SelectedIndices(items[..n]) + (if Selects(items[n]) then {n} else {})
  {
    var n := |items| - 1;
    forall i | i in SelectedIndices(items)
      ensures i in SelectedIndices(items[..n]) + (if Selects(items[n]) then {n} else {})
    {
      if i < n { assert items[..n][i] == items[i]; }
    }
  }

  /** The same for the positions of the selected records carrying `c`. */
  lemma IndicesWithCidrSnoc(items: seq<Record>, c: string)
    requires items != []
    ensures var n := |items| - 1;
            IndicesWithCidr(items, c)
            == IndicesWithCidr(items[..n], c)
               + (if Selects(items[n]) && items[n].cidr.value == c then {n} else {})
  {
    var n := |items| - 1;
    forall i | i in IndicesWithCidr(items, c)
      ensures i in IndicesWithCidr(items[..n], c)
                   + (if Selects(items[n]) && items[n].cidr.value == c then {n} else {})
    {
      if i < n { assert items[..n][i] == items[i]; }
    }
  }

  /** Nothing added, nothing dropped, duplicates kept: each CIDR occurs in the
      filtered list exactly as often as selected records carry it. */
  lemma {:induction false} EmailEgressCidrsCount(items: seq<Record>, c: string)
    ensures multiset(EmailEgressCidrs(items))[c] == |IndicesWithCidr(items, c)|
    decreases |items|
  {
    if items != [] {
      var n := |items| - 1;
      var last := items[n];
      EmailEgressCidrsCount(items[..n], c);
      IndicesWithCidrSnoc(items, c);
      var prefix := EmailEgressCidrs(items[..n]);
      var extra := if Selects(last) then [last.cidr.value] else [];
      assert EmailEgressCidrs(items) == prefix + extra;
      assert multiset(prefix + extra) == multiset(prefix) + multiset(extra);
      assert n !in IndicesWithCidr(items[..n], c);
    }
  }

  /** The filtered list has one entry per selected record. */
  lemma {:induction false} EmailEgressCidrsLength(items: seq<Record>)
    ensures |EmailEgressCidrs(items)| == |SelectedIndices(items)|
    decreases |items|
  {
    if items != [] {
      var n := |items| - 1;
      EmailEgressCidrsLength(items[..n]);
      SelectedIndicesSnoc(items);
      assert n !in SelectedIndices(items[..n]);
    }
  }

  /** A CIDR is in the filtered list exactly when some selected record carries it. */
  lemma EmailEgressCidrsMembers(items: seq<Record>, c: string)
    ensures c in EmailEgressCidrs(items) <==>
              exists i :: 0 <= i < |items| && Selects(items[i]) && items[i].cidr.value == c
  {
    EmailEgressCidrsCount(items, c);
    if exists i :: 0 <= i < |items| && Selects(items[i]) && items[i].cidr.value == c {
      var i :| 0 <= i < |items| && Selects(items[i]) && items[i].cidr.value == c;
      assert i in IndicesWithCidr(items, c);
    }
  }

  /** `extract_email_ips`: loop over the items appending the CIDR of every
      selected record, then `sorted(...)`. */
  method ExtractEmailIps(items: seq<Record>) returns (ips: seq<string>)
    ensures IsSorted(ips)
    ensures multiset(ips) == multiset(EmailEgressCidrs(items))
    ensures |ips| == |SelectedIndices(items)|
    ensures ips == SortStrings(EmailEgressCidrs(items))
  {
    var emailIps: seq<string> := [];
    for k := 0 to |items|
      invariant emailIps == EmailEgressCidrs(items[..k])
    {
      var item := items[k];
      assert items[..k + 1][..k] == items[..k];
      if "email" in item.product && "egress" in item.direction && item.cidr.Some? && item.cidr.value != "" {
        emailIps := emailIps + [item.cidr.value];
      }
    }
    assert items[..|items|] == items;
    ips := SortStrings(emailIps);
    EmailEgressCidrsLength(items);
  }
}
