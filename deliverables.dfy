/**
 * The proposal detail page's deliverable list: the "last reviewed" label, the
 * search for the first rejected deliverable that switches on the reject
 * comment query, the map from deliverable id to reject comment built from
 * that query's response, and the per-deliverable numbering.
 *
 * `Date.parse`, `parseISO` and `format` are function parameters; the value of
 * `NEVER_REVIEWED_DATE` is a parameter too.
 */
module Deliverables {
  import opened Wrappers

  /** Only "rejected" matters here; every other status key is kept as it is. */
  datatype DeliverableStatus = Rejected | OtherStatus(key: string)

  datatype Deliverable = Deliverable(
    deliverableId: Option<int>,
    status: DeliverableStatus,
    reviewTime: Option<string>,
    smallDescription: string)

  // ---- last reviewed --------------------------------------------------------

  /** JavaScript truthiness of `Date.parse(s)`: `None` stands for NaN; the epoch, 0, is falsy as well. */
  predicate ParsesTruthy(dateParse: string -> Option<int>, s: string) {
    dateParse(s).Some? && dateParse(s).value != 0
  }

  /**
   * `formatLastReviewed`: the formatted date, or "-" for the sentinel and for
   * whatever `Date.parse` turns into NaN or the epoch.
   */
  function FormatLastReviewed(lastReviewed: string, neverReviewed: string,
                              dateParse: string -> Option<int>, render: string -> string): (r: string)
    ensures r == "-" || r == render(lastReviewed)
    ensures lastReviewed == neverReviewed ==> r == "-"
    ensures !ParsesTruthy(dateParse, lastReviewed) ==> r == "-"
    ensures ParsesTruthy(dateParse, lastReviewed) && lastReviewed != neverReviewed ==> r == render(lastReviewed)
  {
    if ParsesTruthy(dateParse, lastReviewed) && lastReviewed != neverReviewed then render(lastReviewed) else "-"
  }

  /** The value shown for a deliverable: `formatLastReviewed(review_time || '')`. */
  function LastReviewedLabel(d: Deliverable, neverReviewed: string,
                             dateParse: string -> Option<int>, render: string -> string): (r: string)
    ensures r == "-" || r == render(d.reviewTime.GetOr(""))
    ensures d.reviewTime.Some? && ParsesTruthy(dateParse, d.reviewTime.value) && d.reviewTime.value != neverReviewed
            ==> r == render(d.reviewTime.value)
    ensures d.reviewTime.Some? && d.reviewTime.value == neverReviewed ==> r == "-"
    ensures !ParsesTruthy(dateParse, d.reviewTime.GetOr("")) ==> r == "-"
  {
    FormatLastReviewed(d.reviewTime.GetOr(""), neverReviewed, dateParse, render)
  }

  /** A deliverable without a review time shows "-", given that the empty string does not parse. */
  lemma MissingReviewTimeShowsDash(d: Deliverable, neverReviewed: string,
                                   dateParse: string -> Option<int>, render: string -> string)
    requires d.reviewTime.None?
    requires dateParse("").None?
    ensures LastReviewedLabel(d, neverReviewed, dateParse, render) == "-"
  {
  }

  // ---- first rejected deliverable -------------------------------------------

  ghost predicate FirstRejectedAt(ds: seq<Deliverable>, i: int) {
    0 <= i < |ds| && ds[i].status == Rejected && forall j :: 0 <= j < i ==> ds[j].status != Rejected
  }

  /** `deliverables.find(d => d.status === REJECTED)` over a loaded list. */
  function FindRejected(ds: seq<Deliverable>): (r: Option<Deliverable>)
    ensures r.Some? <==> exists i :: 0 <= i < |ds| && ds[i].status == Rejected
    ensures r.Some? ==> exists i :: FirstRejectedAt(ds, i) && r.value == ds[i]
  {
    if ds == [] then None
    else if ds[0].status == Rejected then
      assert FirstRejectedAt(ds, 0);
      Some(ds[0])
    else
      var r := FindRejected(ds[1..]);
      assert r.Some? ==> exists i :: FirstRejectedAt(ds, i) && r.value == ds[i] by {
        if r.Some? {
          var i :| FirstRejectedAt(ds[1..], i) && r.value == ds[1..][i];
          assert FirstRejectedAt(ds, i + 1);
        }
      }
      assert (exists i :: 0 <= i < |ds| && ds[i].status == Rejected)
             <==> (exists i :: 0 <= i < |ds[1..]| && ds[1..][i].status == Rejected) by {
        if i :| 0 <= i < |ds| && ds[i].status == Rejected {
          assert i > 0 && ds[1..][i - 1] == ds[i];
        }
      }
      r
  }

  /** `deliverables?.find(...)`: nothing while the list has not loaded. */
  function RejectedDeliverable(deliverables: Option<seq<Deliverable>>): (r: Option<Deliverable>)
    ensures deliverables.None? ==> r.None?
    ensures deliverables.Some? ==>
              (r.Some? <==> exists i :: 0 <= i < |deliverables.value| && deliverables.value[i].status == Rejected)
    ensures deliverables.Some? && r.Some? ==> exists i :: FirstRejectedAt(deliverables.value, i) && r.value == deliverables.value[i]
  {
    match deliverables
    case None => None
    case Some(ds) => FindRejected(ds)
  }

  /**
   * `enabled: !!deliverableId`: a found deliverable is an object, hence
   * truthy, so the comment query runs exactly when the loaded list has a
   * rejected deliverable.
   */
  function CommentQueryEnabled(deliverables: Option<seq<Deliverable>>): (enabled: bool)
    ensures enabled <==>
              deliverables.Some? && exists i :: 0 <= i < |deliverables.value| && deliverables.value[i].status == Rejected
  {
    RejectedDeliverable(deliverables).Some?
  }

  // ---- reject comments --------------------------------------------------------

  /** One item of the status-comment response. */
  datatype StatusComment = StatusComment(deliverableId: int, statusComment: string)

  /** The fold `reduce` performs: each item overwrites its id's entry. */
  function CommentMap(response: seq<StatusComment>): (m: map<int, string>)
    ensures forall k :: k in m ==>
              exists i :: 0 <= i < |response| && response[i].deliverableId == k && m[k] == response[i].statusComment
  {
    if response == [] then map[]
    else
      var front := response[..|response| - 1];
      var last := response[|response| - 1];
      var m := CommentMap(front)[last.deliverableId := last.statusComment];
      assert forall k :: k in m ==>
               exists i :: 0 <= i < |response| && response[i].deliverableId == k && m[k] == response[i].statusComment by {
        forall k | k in m
          ensures exists i :: 0 <= i < |response| && response[i].deliverableId == k && m[k] == response[i].statusComment
        {
          if k == last.deliverableId {
            assert response[|response| - 1] == last;
          } else {
            var i :| 0 <= i < |front| && front[i].deliverableId == k && CommentMap(front)[k] == front[i].statusComment;
            assert response[i] == front[i];
          }
        }
      }
      m
  }

  /** No later item has the same id as item `i`. */
  ghost predicate LastWithId(response: seq<StatusComment>, i: int)
    requires 0 <= i < |response|
  {
    forall j :: i < j < |response| ==> response[j].deliverableId != response[i].deliverableId
  }

  /** The map's keys are exactly the ids in the response; an empty response gives an empty map. */
  lemma {:induction false} CommentMapKeys(response: seq<StatusComment>)
    ensures CommentMap(response).Keys == set i | 0 <= i < |response| :: response[i].deliverableId
  {
    if response != [] {
      var front := response[..|response| - 1];
      CommentMapKeys(front);
      var ids := set i | 0 <= i < |response| :: response[i].deliverableId;
      var frontIds := set i | 0 <= i < |front| :: front[i].deliverableId;
      assert ids == frontIds + {response[|response| - 1].deliverableId} by {
        forall k | k in ids ensures k in frontIds + {response[|response| - 1].deliverableId} {
          var i :| 0 <= i < |response| && response[i].deliverableId == k;
          if i < |front| { assert front[i] == response[i]; }
        }
        forall k | k in frontIds ensures k in ids {
          var i :| 0 <= i < |front| && front[i].deliverableId == k;
          assert response[i] == front[i];
        }
      }
    }
  }

  /** When an id repeats, the comment of its last item wins. */
  lemma {:induction false} CommentMapLastWins(response: seq<StatusComment>, i: int)
    requires 0 <= i < |response| && LastWithId(response, i)
    ensures response[i].deliverableId in CommentMap(response)
    ensures CommentMap(response)[response[i].deliverableId] == response[i].statusComment
  {
    var n := |response| - 1;
    if i < n {
      var front := response[..n];
      assert front[i] == response[i];
      assert LastWithId(front, i);
      CommentMapLastWins(front, i);
    }
  }

  /**
   * The `reduce` of the query function: start from `{}` and, item by item,
   * set `acc[item.deliverable_id] = item.status_comment`.
   */
  method CommentsByDeliverable(response: seq<StatusComment>) returns (acc: map<int, string>)
    ensures acc == CommentMap(response)
  {
    acc := map[];
    var i := 0;
    while i < |response|
      invariant 0 <= i <= |response|
      invariant acc == CommentMap(response[..i])
    {
      assert response[..i + 1][..i] == response[..i];
      acc := acc[response[i].deliverableId := response[i].statusComment];
      i := i + 1;
    }
    assert response[..i] == response;
  }

  /** `!!rejectReport?.[deliverable.deliverable_id!]`: a loaded map holding a non-empty comment for the id. */
  function ShowsRejectReport(rejectReport: Option<map<int, string>>, d: Deliverable): (shown: bool)
    ensures rejectReport.None? || d.deliverableId.None? ==> !shown
    ensures shown ==> d.deliverableId.value in rejectReport.value && rejectReport.value[d.deliverableId.value] != ""
    ensures (rejectReport.Some? && d.deliverableId.Some? && d.deliverableId.value in rejectReport.value
             && rejectReport.value[d.deliverableId.value] != "") ==> shown
  {
    rejectReport.Some? && d.deliverableId.Some?
    && d.deliverableId.value in rejectReport.value
    && rejectReport.value[d.deliverableId.value] != ""
  }

  /** The reject-report entry shows iff the last response item for the deliverable's id has a non-empty comment. */
  lemma RejectReportShownIffLastCommentNonEmpty(response: seq<StatusComment>, d: Deliverable)
    requires d.deliverableId.Some?
    ensures ShowsRejectReport(Some(CommentMap(response)), d) <==>
              exists i :: 0 <= i < |response| && LastWithId(response, i)
                          && response[i].deliverableId == d.deliverableId.value
                          && response[i].statusComment != ""
  {
    var id := d.deliverableId.value;
    CommentMapKeys(response);
    if id in CommentMap(response) {
      var k :| 0 <= k < |response| && response[k].deliverableId == id;
      var i := LastIndexWithId(response, k);
      CommentMapLastWins(response, i);
      if exists j :: 0 <= j < |response| && LastWithId(response, j)
                     && response[j].deliverableId == id && response[j].statusComment != "" {
        var j :| 0 <= j < |response| && LastWithId(response, j)
                 && response[j].deliverableId == id && response[j].statusComment != "";
        CommentMapLastWins(response, j);
      }
    }
  }

  /** The last index holding the same id as item `k`. */
  lemma {:induction false} LastIndexWithId(response: seq<StatusComment>, k: int) returns (i: int)
    requires 0 <= k < |response|
    ensures k <= i < |response| && response[i].deliverableId == response[k].deliverableId
    ensures LastWithId(response, i)
    decreases |response| - k
  {
    if LastWithId(response, k) {
      i := k;
    } else {
      var j :| k < j < |response| && response[j].deliverableId == response[k].deliverableId;
      i := LastIndexWithId(response, j);
    }
  }

  // ---- numbering ----------------------------------------------------------------

  /** `deliverables.map((d, index) => ...)` shows `index + 1` beside each deliverable. */
  function NumberedDeliverables(ds: seq<Deliverable>): (cards: seq<(nat, Deliverable)>)
    ensures |cards| == |ds|
    ensures forall i :: 0 <= i < |cards| ==> cards[i].1 == ds[i]
    ensures |cards| > 0 ==> cards[0].0 == 1 && cards[|cards| - 1].0 == |ds|
    ensures forall i :: 0 < i < |cards| ==> cards[i].0 == cards[i - 1].0 + 1
  {
    seq(|ds|, i requires 0 <= i < |ds| => (i + 1, ds[i]))
  }
}
