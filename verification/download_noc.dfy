/** The certificate page: approved-only lookup by id and the reference number. */
module DownloadNoc {
  import opened Noc
  import Text
  import Seqs

  /** What the page ends up showing. `NotFound` is the toast and redirect to the listing. */
  datatype DownloadView = Loading | Certificate(request: NocRequest) | NotFound

  /** The lookup effect: no id keeps the loading placeholder; otherwise the first
      request with that id is shown if approved, and anything else redirects. */
  function Lookup(reqs: seq<NocRequest>, id: string): (v: DownloadView)
    ensures id == "" <==> v.Loading?
    ensures v.Certificate? <==>
              id != "" && exists i :: 0 <= i < |reqs| && reqs[i].id == id && reqs[i].status == Approved
                                     && forall j :: 0 <= j < i ==> reqs[j].id != id
    ensures v.Certificate? ==>
              exists i :: 0 <= i < |reqs| && v.request == reqs[i] && reqs[i].id == id && reqs[i].status == Approved
                          && forall j :: 0 <= j < i ==> reqs[j].id != id
  {
    if id == "" then Loading
    else
      match Seqs.Find(reqs, (r: NocRequest) => r.id == id)
      case Some(r) => if r.status == Approved then Certificate(r) else NotFound
      case None => NotFound
  }

  /** In a store with canonical ids the lookup succeeds exactly for an approved request. */
  lemma LookupCanonical(reqs: seq<NocRequest>, k: nat)
    requires IdsCanonical(reqs) && k < |reqs|
    ensures Lookup(reqs, reqs[k].id) == (if reqs[k].status == Approved then Certificate(reqs[k]) else NotFound)
  {
    CanonicalIdsUnique(reqs);
  }

  /** The "Ref:" line: `NOC-` and the id left-padded with zeros to four characters. */
  function Reference(id: string): (r: string)
    ensures |r| == 4 + (if |id| < 4 then 4 else |id|)
    ensures r[..4] == "NOC-"
    ensures r[|r| - |id|..] == id
    ensures forall i :: 4 <= i < |r| - |id| ==> r[i] == '0'
    ensures |id| >= 4 ==> r == "NOC-" + id
  {
    "NOC-" + Text.PadStart(id, 4, '0')
  }

  /** The digits after `NOC-` read back as the request number. */
  lemma ReferenceNumberRoundTrip(n: nat)
    ensures var r := Reference(Text.NatToString(n));
            Text.AllDigits(r[4..]) && Text.ParseDigits(r[4..]) == n
  {
    var s := Text.NatToString(n);
    var padded := Text.PadStart(s, 4, '0');
    assert Reference(s)[4..] == padded;
    var z := |padded| - |s|;
    assert padded == seq(z, _ => '0') + s;
    Text.LeadingZerosIgnored(z, s);
    Text.ParseNatToString(n);
  }

  /** The seed's approved request carries reference `NOC-0002`. */
  lemma SeedReference()
    ensures Reference(InitialRequests[1].id) == "NOC-0002"
  {
  }
}
