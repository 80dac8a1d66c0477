/** The "All NOC Requests" page: status and text search, newest update first. */
module AllRequests {
  import opened Noc
  import opened Views
  import Text
  import Seqs
  import Recency

  /** The search box: the lower-cased query occurs in the lower-cased
      student name, company name or role. */
  function MatchesSearch(r: NocRequest, query: string): (b: bool)
    ensures b <==> var q := Text.Lower(query);
                   || Text.IsSubstring(q, Text.Lower(r.studentName))
                   || Text.IsSubstring(q, Text.Lower(r.details.companyName))
                   || Text.IsSubstring(q, Text.Lower(r.details.role))
  {
    var q := Text.Lower(query);
    || Text.Includes(Text.Lower(r.studentName), q)
    || Text.Includes(Text.Lower(r.details.companyName), q)
    || Text.Includes(Text.Lower(r.details.role), q)
  }

  predicate Keeps(f: StatusFilter, query: string, r: NocRequest) {
    PassesStatus(f, r) && MatchesSearch(r, query)
  }

  function Criterion(f: StatusFilter, query: string): NocRequest -> bool {
    (r: NocRequest) => Keeps(f, query, r)
  }

  /** `filteredRequests`: the requests passing both the status filter and the search,
      in scoped order; the "Showing n of m" count never exceeds the total. */
  function FilterRequests(reqs: seq<NocRequest>, f: StatusFilter, query: string): (r: seq<NocRequest>)
    ensures Seqs.IsSubseq(r, reqs)
    ensures |r| <= |reqs|
    ensures forall x :: x in r <==> x in reqs && PassesStatus(f, x) && MatchesSearch(x, query)
    ensures forall x :: multiset(r)[x] == if Keeps(f, query, x) then multiset(reqs)[x] else 0
  {
    Seqs.Filter(reqs, Criterion(f, query))
  }

  /** `sortedRequests`: the filtered requests reordered by non-increasing `updatedAt`. */
  function SortedRequests(reqs: seq<NocRequest>, f: StatusFilter, query: string): (r: seq<NocRequest>)
    ensures multiset(r) == multiset(FilterRequests(reqs, f, query))
    ensures Recency.NewestFirst(r, Recency.UpdatedAt)
    ensures forall x :: x in r ==> x in reqs && PassesStatus(f, x) && MatchesSearch(x, query)
  {
    var kept := FilterRequests(reqs, f, query);
    var r := Recency.SortNewestFirst(kept, Recency.UpdatedAt);
    assert forall x :: x in r ==> x in kept by {
      forall x | x in r ensures x in kept { assert x in multiset(r); }
    }
    r
  }

  /** The empty query matches every request. */
  lemma EmptyQueryMatches(r: NocRequest)
    ensures MatchesSearch(r, "")
  {
    assert Text.Lower("") == "";
    Text.EmptyIncluded(Text.Lower(r.studentName));
  }

  /** With "all" selected and an empty search box the page lists the whole scoped view. */
  lemma DefaultFilterKeepsAll(reqs: seq<NocRequest>)
    ensures FilterRequests(reqs, AnyStatus, "") == reqs
  {
    forall i | 0 <= i < |reqs| ensures Criterion(AnyStatus, "")(reqs[i]) {
      EmptyQueryMatches(reqs[i]);
    }
    Seqs.FilterKeepsAll(reqs, Criterion(AnyStatus, ""));
  }

  /** The search is case-insensitive: lower-casing the query changes nothing. */
  lemma SearchIgnoresQueryCase(r: NocRequest, query: string)
    ensures MatchesSearch(r, Text.Lower(query)) == MatchesSearch(r, query)
  {
    Text.LowerIdempotent(query);
  }
}
