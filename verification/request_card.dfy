/** Which parts of a request card are shown. */
module RequestCard {
  import opened Noc

  /** Which callbacks the page passes to the card. */
  datatype Handlers = Handlers(approve: bool, reject: bool, download: bool)

  /** The visible optional parts of a card. */
  datatype CardView = CardView(
    studentName: bool,
    remarks: bool,
    download: bool,
    approve: bool,
    reject: bool)

  /** The card shows a remarks block only for present, non-empty remarks. */
  predicate HasVisibleRemarks(r: NocRequest) {
    r.remarks.Some? && r.remarks.value != ""
  }

  function Render(r: NocRequest, h: Handlers, isStudent: bool): (v: CardView)
    ensures v.studentName <==> !isStudent
    ensures v.remarks <==> r.remarks.Some? && |r.remarks.value| > 0
    ensures v.download <==> r.status == Approved && h.download
    ensures v.approve <==> !isStudent && r.status == Pending && h.approve
    ensures v.reject <==> !isStudent && r.status == Pending && h.reject
  {
    var deciding := !isStudent && r.status == Pending;
    CardView(!isStudent, HasVisibleRemarks(r), r.status == Approved && h.download,
             deciding && h.approve, deciding && h.reject)
  }

  /** The listing pages pass a download callback exactly for approved requests. */
  function ListingHandlers(r: NocRequest): Handlers {
    Handlers(false, false, r.status == Approved)
  }

  /** The review page passes approve and reject callbacks and no download. */
  const ReviewHandlers: Handlers := Handlers(true, true, false)

  /** A card never offers a download and a decision at once, and students never see decisions. */
  lemma ActionsExclusive(r: NocRequest, h: Handlers, isStudent: bool)
    ensures var v := Render(r, h, isStudent);
            && !(v.download && (v.approve || v.reject))
            && (isStudent ==> !v.approve && !v.reject)
  {
  }

  /** In a well-formed store only rejected requests show a remarks block. */
  lemma RemarksShownOnlyWhenRejected(reqs: seq<NocRequest>, h: Handlers, isStudent: bool)
    requires WellFormed(reqs)
    ensures forall i :: 0 <= i < |reqs| && Render(reqs[i], h, isStudent).remarks ==>
              reqs[i].status == Rejected && |reqs[i].remarks.value| > 0
  {
  }

  /** The student name is shown to reviewers only, whatever the request. */
  lemma StudentNameForReviewersOnly(r: NocRequest, h: Handlers, isStudent: bool)
    ensures Render(r, h, isStudent).studentName <==> !isStudent
  {
  }

  /** On a listing page a card offers a download exactly when its request is approved,
      and never offers a decision. */
  lemma ListingCardActions(r: NocRequest, isStudent: bool)
    ensures var v := Render(r, ListingHandlers(r), isStudent);
            (v.download <==> r.status == Approved) && !v.approve && !v.reject
  {
  }
}
