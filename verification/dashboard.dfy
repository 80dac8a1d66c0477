/** The dashboard: per-status counts and the three most recently updated requests. */
module Dashboard {
  import opened Wrappers
  import opened Noc
  import opened Views
  import Auth
  import Seqs
  import Recency

  datatype Stats = Stats(total: nat, pending: nat, approved: nat, rejected: nat)

  /** The number of requests with status `st`, counted as the length of the filtered copy. */
  function CountStatus(reqs: seq<NocRequest>, st: Status): nat {
    |Seqs.Filter(reqs, HasStatus(st))|
  }

  /** The positions of `reqs` holding a request in status `st`. */
  ghost function Positions(reqs: seq<NocRequest>, st: Status): set<nat> {
    set i: nat | i < |reqs| && reqs[i].status == st
  }

  /** The four stat cards: each status card counts the requests in that status,
      so every request is counted under exactly one status. */
  function StatsOf(reqs: seq<NocRequest>): (s: Stats)
    ensures s.total == |reqs|
    ensures s.pending == |Positions(reqs, Pending)|
    ensures s.approved == |Positions(reqs, Approved)|
    ensures s.rejected == |Positions(reqs, Rejected)|
    ensures s.pending + s.approved + s.rejected == s.total
    ensures s.pending <= s.total && s.approved <= s.total && s.rejected <= s.total
  {
    CountsPartition(reqs);
    CountIsPositions(reqs, Pending);
    CountIsPositions(reqs, Approved);
    CountIsPositions(reqs, Rejected);
    Stats(|reqs|, CountStatus(reqs, Pending), CountStatus(reqs, Approved), CountStatus(reqs, Rejected))
  }

  /** The three status counts add up to the number of requests. */
  lemma {:induction false} CountsPartition(reqs: seq<NocRequest>)
    ensures CountStatus(reqs, Pending) + CountStatus(reqs, Approved) + CountStatus(reqs, Rejected) == |reqs|
  {
    if reqs != [] {
      CountsPartition(reqs[1..]);
    }
  }

  /** Counting a filtered copy counts the positions in that status. */
  lemma {:induction false} CountIsPositions(reqs: seq<NocRequest>, st: Status)
    ensures CountStatus(reqs, st) == |Positions(reqs, st)|
    decreases |reqs|
  {
    if reqs != [] {
      CountSnoc(reqs, st);
      PositionsSnoc(reqs, st);
      CountIsPositions(reqs[..|reqs| - 1], st);
    }
  }

  /** The count grows by one exactly when the last request is in the status. */
  lemma CountSnoc(reqs: seq<NocRequest>, st: Status)
    requires reqs != []
    ensures var n := |reqs| - 1;
            CountStatus(reqs, st) == CountStatus(reqs[..n], st) + (if reqs[n].status == st then 1 else 0)
  {
    var n := |reqs| - 1;
    assert reqs == reqs[..n] + [reqs[n]];
    Seqs.FilterAppend(reqs[..n], reqs[n], HasStatus(st));
  }

  /** The positions grow by the last index exactly when its request is in the status. */
  lemma PositionsSnoc(reqs: seq<NocRequest>, st: Status)
    requires reqs != []
    ensures var n := |reqs| - 1;
            |Positions(reqs, st)| == |Positions(reqs[..n], st)| + (if reqs[n].status == st then 1 else 0)
  {
    var n := |reqs| - 1;
    var front := Positions(reqs[..n], st);
    var extra: set<nat> := if reqs[n].status == st then {n} else {};
    assert Positions(reqs, st) == front + extra;
    assert n !in front;
  }

  /** `recentRequests`: the first three of a newest-update-first copy of the list. */
  function Recent(reqs: seq<NocRequest>): (r: seq<NocRequest>)
    ensures |r| == if |reqs| < 3 then |reqs| else 3
    ensures Recency.NewestFirst(r, Recency.UpdatedAt)
    ensures multiset(r) <= multiset(reqs)
    ensures forall x :: x in r ==> x in reqs
    ensures r != [] ==> forall x :: multiset(r)[x] < multiset(reqs)[x] ==>
              Recency.Stamp(x, Recency.UpdatedAt) <= Recency.Stamp(r[|r| - 1], Recency.UpdatedAt)
  {
    var sorted := Recency.SortNewestFirst(reqs, Recency.UpdatedAt);
    var n := if |sorted| < 3 then |sorted| else 3;
    NewestPrefix(reqs, sorted, n);
    sorted[..n]
  }

  /** A prefix of a newest-first arrangement of `reqs` holds their newest
      elements: whatever is left out is no newer than the prefix's last element. */
  lemma NewestPrefix(reqs: seq<NocRequest>, s: seq<NocRequest>, n: nat)
    requires Recency.NewestFirst(s, Recency.UpdatedAt) && multiset(s) == multiset(reqs) && n <= |s|
    ensures Recency.NewestFirst(s[..n], Recency.UpdatedAt)
    ensures multiset(s[..n]) <= multiset(reqs)
    ensures forall x :: x in s[..n] ==> x in reqs
    ensures n > 0 ==> forall x :: multiset(s[..n])[x] < multiset(reqs)[x] ==>
              Recency.Stamp(x, Recency.UpdatedAt) <= Recency.Stamp(s[n - 1], Recency.UpdatedAt)
  {
    var front := s[..n];
    assert s == front + s[n..];
    assert multiset(s) == multiset(front) + multiset(s[n..]);
    forall x | x in front ensures x in reqs {
      assert x in multiset(front);
      assert x in multiset(reqs);
    }
    forall x | n > 0 && multiset(front)[x] < multiset(reqs)[x]
      ensures Recency.Stamp(x, Recency.UpdatedAt) <= Recency.Stamp(s[n - 1], Recency.UpdatedAt)
    {
      assert x in multiset(s[n..]);
      var k :| 0 <= k < |s[n..]| && s[n..][k] == x;
      assert s[n + k] == x;
    }
  }

  /** The header: "Student Dashboard" with a "New NOC Request" action for
      students, "Faculty Dashboard" without it otherwise. */
  function PageHeader(user: Option<Auth.User>): (h: Header)
    ensures h.offersNewRequest <==> IsStudentViewer(user)
    ensures h.title == if IsStudentViewer(user) then "Student Dashboard" else "Faculty Dashboard"
  {
    if IsStudentViewer(user) then Header("Student Dashboard", true)
    else Header("Faculty Dashboard", false)
  }

  /** Title and action depend on nothing but whether the viewer is a student. */
  lemma HeaderFollowsRole(u1: Option<Auth.User>, u2: Option<Auth.User>)
    requires IsStudentViewer(u1) == IsStudentViewer(u2)
    ensures PageHeader(u1) == PageHeader(u2)
    ensures PageHeader(u1).offersNewRequest <==> IsStudentViewer(u1)
  {
  }
}
