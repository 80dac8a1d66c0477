/** The faculty "Pending Requests" page: the pending list and the approve / reject flows. */
module PendingRequests {
  import opened Wrappers
  import opened Noc
  import Text
  import Seqs
  import Recency
  import RequestCard

  /** `sortedRequests`: the pending requests of the scoped view, newest creation first. */
  function PendingList(reqs: seq<NocRequest>): (r: seq<NocRequest>)
    ensures multiset(r) == multiset(Seqs.Filter(reqs, HasStatus(Pending)))
    ensures forall x :: x in r <==> x in reqs && x.status == Pending
    ensures Recency.NewestFirst(r, Recency.CreatedAt)
  {
    var pending := Seqs.Filter(reqs, HasStatus(Pending));
    var r := Recency.SortNewestFirst(pending, Recency.CreatedAt);
    assert forall x :: x in r <==> x in pending by {
      forall x ensures x in r <==> x in pending {
        assert x in r <==> x in multiset(r);
      }
    }
    r
  }

  /** Local state of the reject dialog. */
  datatype RejectDialog = RejectDialog(selected: Option<string>, open: bool, remarks: string)

  const InitialDialog: RejectDialog := RejectDialog(None, false, "")

  /** The page's store and dialog together. */
  datatype Screen = Screen(requests: seq<NocRequest>, dialog: RejectDialog)

  /** `handleApprove`: approve with no remarks. */
  function Approve(reqs: seq<NocRequest>, id: string, now: int): (r: seq<NocRequest>)
    ensures |r| == |reqs|
    ensures forall i :: 0 <= i < |reqs| && reqs[i].id == id ==>
              r[i] == reqs[i].(status := Approved, remarks := None, updatedAt := now)
    ensures forall i :: 0 <= i < |reqs| && reqs[i].id != id ==> r[i] == reqs[i]
  {
    UpdateStatus(reqs, id, Approved, None, now)
  }

  /** `openRejectDialog`: select the request and open the dialog; a half-typed remark stays. */
  function OpenDialog(d: RejectDialog, id: string): (r: RejectDialog)
    ensures r.open && r.selected == Some(id)
    ensures r.remarks == d.remarks
  {
    RejectDialog(Some(id), true, d.remarks)
  }

  /** The Cancel button: close and deselect, but keep the remark text. */
  function CancelDialog(d: RejectDialog): (r: RejectDialog)
    ensures !r.open && r.selected.None?
    ensures r.remarks == d.remarks
  {
    RejectDialog(None, false, d.remarks)
  }

  /** Closing the dialog with Escape or the overlay only hides it: unlike Cancel,
      the selection and the remark text both stay. */
  function DismissDialog(d: RejectDialog): (r: RejectDialog)
    ensures !r.open
    ensures r.selected == d.selected && r.remarks == d.remarks
  {
    d.(open := false)
  }

  /** The Reject button is enabled when not loading and the remark is not blank. */
  function RejectEnabled(loading: bool, remarks: string): (b: bool)
    ensures b <==> !loading && !Text.IsBlank(remarks)
  {
    !loading && Text.Trim(remarks) != ""
  }

  /** A request is selected: both no selection and the empty id count as "nothing selected". */
  predicate HasSelection(d: RejectDialog) {
    d.selected.Some? && d.selected.value != ""
  }

  /** `handleReject`: with nothing selected nothing happens; otherwise the
      selected request is rejected with the typed remark and the dialog resets. */
  function Reject(s: Screen, now: int): (r: Screen)
    ensures !HasSelection(s.dialog) ==> r == s
    ensures HasSelection(s.dialog) ==> r.dialog == InitialDialog
    ensures HasSelection(s.dialog) ==>
              var id := s.dialog.selected.value;
              && |r.requests| == |s.requests|
              && (forall i :: 0 <= i < |s.requests| && s.requests[i].id == id ==>
                    r.requests[i] == s.requests[i].(status := Rejected, remarks := Some(s.dialog.remarks), updatedAt := now))
              && (forall i :: 0 <= i < |s.requests| && s.requests[i].id != id ==>
                    r.requests[i] == s.requests[i])
  {
    if !HasSelection(s.dialog) then s
    else Screen(UpdateStatus(s.requests, s.dialog.selected.value, Rejected, Some(s.dialog.remarks), now), InitialDialog)
  }

  /** A rejection issued through the enabled button stores a non-blank remark. */
  lemma EnabledRejectStoresRemark(s: Screen, loading: bool, now: int)
    requires RejectEnabled(loading, s.dialog.remarks)
    ensures var r := Reject(s, now);
            HasSelection(s.dialog) ==>
              forall i :: 0 <= i < |s.requests| && s.requests[i].id == s.dialog.selected.value ==>
                r.requests[i].remarks.Some? && !Text.IsBlank(r.requests[i].remarks.value)
  {
  }

  /** Opening the dialog on a request and confirming rejects that request; a
      dialog opened on the empty id, or cancelled, rejects nothing, and the
      remark typed before cancelling is still there when the dialog is reopened. */
  lemma DialogFlow(reqs: seq<NocRequest>, d: RejectDialog, id: string, now: int)
    ensures var picked := OpenDialog(d, id);
            var r := Reject(Screen(reqs, picked), now);
            && (id != "" ==> r.requests == UpdateStatus(reqs, id, Rejected, Some(d.remarks), now) && !r.dialog.open)
            && (id == "" ==> r == Screen(reqs, picked))
    ensures Reject(Screen(reqs, CancelDialog(d)), now).requests == reqs
    ensures OpenDialog(CancelDialog(d), id).remarks == d.remarks
  {
  }

  /** A dismissed dialog still holds its request: confirming afterwards would
      reject it just as confirming before dismissal would, while a cancelled one rejects nothing. */
  lemma DismissKeepsSelection(reqs: seq<NocRequest>, d: RejectDialog, id: string, now: int)
    ensures var picked := OpenDialog(d, id);
            && Reject(Screen(reqs, DismissDialog(picked)), now).requests == Reject(Screen(reqs, picked), now).requests
            && HasSelection(DismissDialog(picked)) == (id != "")
            && !HasSelection(CancelDialog(picked))
  {
  }

  /** Every card on this page offers both decisions and no download. */
  lemma PendingCardsOfferDecisions(reqs: seq<NocRequest>)
    ensures forall x :: x in PendingList(reqs) ==>
              var v := RequestCard.Render(x, RequestCard.ReviewHandlers, false);
              v.approve && v.reject && !v.download
  {
  }
}
