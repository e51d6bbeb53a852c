/**
 * `PoolCompletedPercentage` and `AssignmentsInPool` (src/metrics/metrics.py): metrics that
 * keep at most one analytics operation outstanding, poll it on each `get_lines`, turn
 * the responses of a completed operation into points, and issue the next operation.
 *
 * The client is an oracle: a `Remote` gives the operation `get_operation` would return
 * for an id and the id `get_analytics` would return for a list of requests at the moment
 * of the call. Each `GetLines` also returns the remote calls it made, in order.
 */
module MetricsPollers {
  import opened Wrappers
  import opened MetricsNames
  import opened MetricsBase
  import opened MetricsEvents
  import opened Seqs

  type OpId = nat

  /** `Operation.Status`. */
  datatype OpStatus = Pending | Running | Success | Failed

  /** `Operation.is_completed()`: the operation has finished, successfully or not. */
  predicate IsCompleted(s: OpStatus)
  {
    s == Success || s == Failed
  }

  /** The analytics request classes used by the two metrics. */
  datatype AnalyticsKind =
    | SubmittedAssignmentsCount
    | ApprovedAssignmentsCount
    | RejectedAssignmentsCount
    | SkippedAssignmentsCount
    | CompletionPercentage

  datatype AnalyticsRequest = AnalyticsRequest(kind: AnalyticsKind, subjectId: string)

  /**
   * One entry of `operation.details['value']`: the kind named by `response['request']['name']`,
   * the structured `response['finished']` and the value read from `response['result']`.
   */
  datatype Response = Response(kind: AnalyticsKind, finished: Time, result: int)

  datatype Operation = Operation(id: OpId, status: OpStatus, details: seq<Response>)

  datatype Remote = Remote(getOperation: OpId -> Operation, getAnalytics: seq<AnalyticsRequest> -> OpId)

  datatype Call = GetOperation(id: OpId) | GetAnalytics(requests: seq<AnalyticsRequest>)

  /** The point a response becomes. */
  function PointOf(response: Response): Point<int>
  {
    Point(response.finished, response.result)
  }

  /** The lines of a completed percentage operation: only a success gives a point, from its last response. */
  function PercentLines(name: string, op: Operation): (r: Lines<int>)
    ensures r != map[] ==> op.status == Success && op.details != []
    ensures forall x :: x in r ==> x == name && r[x] == [PointOf(op.details[|op.details| - 1])]
    ensures op.status == Success && op.details != [] ==> name in r
  {
    if op.status == Success && op.details != [] then map[name := [PointOf(op.details[|op.details| - 1])]]
    else map[]
  }

  /** `PoolCompletedPercentage`: the completion percentage of a pool. */
  class PoolCompletedPercentage {
    const base: BaseMetric
    const poolId: string
    /** `_percents_name` */
    var percentsName: Option<string>
    /** The id of `_previous_operation`, the only outstanding operation. */
    var prev: Option<OpId>

    ghost predicate Valid()
      reads this
    {
      percentsName.Some?
    }

    constructor (poolId: string, percentsName: Option<string>, client: Option<ClientId>)
      ensures this.poolId == poolId && this.percentsName == percentsName && prev == None
      ensures fresh(base) && base.className == "PoolCompletedPercentage" && base.client == client
    {
      base := new BaseMetric("PoolCompletedPercentage", client);
      this.poolId := poolId;
      this.percentsName := percentsName;
      prev := None;
    }

    /** `__attrs_post_init__`: a missing name becomes 'completion_percentage'; a given one is kept. */
    method PostInit()
      modifies this`percentsName
      ensures Valid()
      ensures old(percentsName).None? ==> percentsName == Some("completion_percentage")
      ensures old(percentsName).Some? ==> percentsName == old(percentsName)
      ensures old(percentsName).None? ==> GetLineNames() == ["completion_percentage"]
      ensures old(percentsName).Some? ==> GetLineNames() == [old(percentsName).value]
    {
      if percentsName.None? {
        percentsName := Some("completion_percentage");
      }
    }

    /** `get_line_names`: the single configured name. */
    function GetLineNames(): (r: seq<string>)
      requires Valid()
      reads this
      ensures |r| == 1 && r[0] == percentsName.value
    {
      [percentsName.value]
    }

    /** The request issued each time no operation is outstanding. */
    function Requests(): seq<AnalyticsRequest>
      reads this
    {
      [AnalyticsRequest(CompletionPercentage, poolId)]
    }

    /**
     * `get_lines`: polls the outstanding operation; a pending one leaves everything as it
     * is; a completed one is cleared and, on success, its last response becomes the point;
     * then, with none outstanding, a new request is issued.
     */
    method GetLines(remote: Remote) returns (r: Lines<int>, calls: seq<Call>)
      requires Valid()
      modifies this`prev
      ensures prev.Some?
      ensures old(prev).None? ==>
                r == map[] && calls == [GetAnalytics(Requests())] && prev == Some(remote.getAnalytics(Requests()))
      ensures old(prev).Some? && !IsCompleted(remote.getOperation(old(prev).value).status) ==>
                r == map[] && calls == [GetOperation(old(prev).value)] && prev == old(prev)
      ensures old(prev).Some? && IsCompleted(remote.getOperation(old(prev).value).status) ==>
                && r == PercentLines(percentsName.value, remote.getOperation(old(prev).value))
                && calls == [GetOperation(old(prev).value), GetAnalytics(Requests())]
                && prev == Some(remote.getAnalytics(Requests()))
    {
      r := map[];
      calls := [];
      if prev.Some? {
        var op := remote.getOperation(prev.value);
        calls := calls + [GetOperation(prev.value)];
        if IsCompleted(op.status) {
          prev := None;
          if op.status == Success {
            var details := op.details;
            for k := 0 to |details|
              invariant r == if k == 0 then map[] else map[percentsName.value := [PointOf(details[k - 1])]]
            {
              r := r[percentsName.value := [PointOf(details[k])]];
            }
          }
        }
      }
      if prev.None? {
        prev := Some(remote.getAnalytics(Requests()));
        calls := calls + [GetAnalytics(Requests())];
      }
    }
  }

  /** The four statuses `_analytics_dict` has a request class for. */
  type PoolStatus = s: Status | s.Submitted? || s.Accepted? || s.Rejected? || s.Skipped? witness Submitted

  /** The statuses in the order of `_analytics_dict`. */
  const AssignmentOrder: seq<PoolStatus> := [Submitted, Accepted, Rejected, Skipped]

  /** The names `__attrs_post_init__` sets when none is configured. */
  const DefaultAssignmentNames: NameTable :=
    map[Submitted := "submitted_assignments_in_pool", Accepted := "accepted_assignments_in_pool",
        Rejected := "rejected_assignments_in_pool"]

  lemma DefaultAssignmentNamesListed()
    ensures LineNames(AssignmentOrder, DefaultAssignmentNames) ==
              ["submitted_assignments_in_pool", "accepted_assignments_in_pool", "rejected_assignments_in_pool"]
    ensures Distinct(LineNames(AssignmentOrder, DefaultAssignmentNames))
  {
    var o := AssignmentOrder;
    assert o[1..] == [Accepted, Rejected, Skipped];
    assert o[1..][1..] == [Rejected, Skipped];
    assert o[1..][1..][1..] == [Skipped];
    assert o[1..][1..][1..][1..] == [];
  }

  /** The request class `_analytics_dict` pairs with a status. */
  function KindOf(s: PoolStatus): AnalyticsKind
  {
    match s
    case Submitted => SubmittedAssignmentsCount
    case Accepted => ApprovedAssignmentsCount
    case Rejected => RejectedAssignmentsCount
    case Skipped => SkippedAssignmentsCount
  }

  /** `analytic_classes_to_metric_names`: the status a response kind is filed under, if any. */
  function StatusOfKind(kind: AnalyticsKind): (r: Option<PoolStatus>)
    ensures r.Some? ==> r.value in AssignmentOrder && KindOf(r.value) == kind
    ensures r.None? <==> kind == CompletionPercentage
  {
    match kind
    case SubmittedAssignmentsCount => assert AssignmentOrder[0] == Submitted; Some(Submitted)
    case ApprovedAssignmentsCount => assert AssignmentOrder[1] == Accepted; Some(Accepted)
    case RejectedAssignmentsCount => assert AssignmentOrder[2] == Rejected; Some(Rejected)
    case SkippedAssignmentsCount => assert AssignmentOrder[3] == Skipped; Some(Skipped)
    case CompletionPercentage => None
  }

  /** Every status of the order is found again from its request kind. */
  lemma KindRoundTrip(s: PoolStatus)
    ensures StatusOfKind(KindOf(s)) == Some(s)
  {
  }

  /** The key a status's responses are filed under: its name, or None when it has none. */
  function MetricKey(names: NameTable, s: Status): Option<string>
  {
    if s in names then Some(names[s]) else None
  }

  /** The requests of `_analytics_request`: one per status with a truthy name, in order. */
  function RequestsFor(order: seq<PoolStatus>, names: NameTable, poolId: string): (r: seq<AnalyticsRequest>)
    ensures |r| == |GatheredNames(order, names)|
  {
    if order == [] then []
    else
      var rest := RequestsFor(order[1..], names, poolId);
      if order[0] in names && names[order[0]] != "" then [AnalyticsRequest(KindOf(order[0]), poolId)] + rest
      else rest
  }

  /** Each request is for the pool and of the kind of the status it was gathered for. */
  lemma RequestsForShape(order: seq<PoolStatus>, names: NameTable, poolId: string)
    ensures forall k :: 0 <= k < |RequestsFor(order, names, poolId)| ==>
              && RequestsFor(order, names, poolId)[k].subjectId == poolId
              && StatusOfKind(RequestsFor(order, names, poolId)[k].kind) == Some(GatheredStatuses(order, names)[k])
  {
    forall k | 0 <= k < |RequestsFor(order, names, poolId)| {
      RequestAt(order, names, poolId, k);
    }
  }

  /** The request at position `k` is the one for the `k`-th gathered status. */
  lemma {:induction false} RequestAt(order: seq<PoolStatus>, names: NameTable, poolId: string, k: nat)
    requires k < |RequestsFor(order, names, poolId)|
    ensures RequestsFor(order, names, poolId)[k].subjectId == poolId
    ensures StatusOfKind(RequestsFor(order, names, poolId)[k].kind) == Some(GatheredStatuses(order, names)[k])
  {
    var s0, tail := order[0], order[1..];
    var r, rest := RequestsFor(order, names, poolId), RequestsFor(tail, names, poolId);
    var gs, grest := GatheredStatuses(order, names), GatheredStatuses(tail, names);
    RequestsForCons(order, names, poolId);
    if s0 in names && names[s0] != "" {
      if k == 0 {
        KindRoundTrip(s0);
      } else {
        RequestAt(tail, names, poolId, k - 1);
        ConsAt(AnalyticsRequest(KindOf(s0), poolId), rest, k);
        ConsAt<Status>(s0, grest, k);
      }
    } else {
      RequestAt(tail, names, poolId, k);
    }
  }

  /** One step of `RequestsFor` and of `GatheredStatuses`, side by side. */
  lemma RequestsForCons(order: seq<PoolStatus>, names: NameTable, poolId: string)
    requires order != []
    ensures var s0, tail := order[0], order[1..];
            if s0 in names && names[s0] != "" then
              && RequestsFor(order, names, poolId) == [AnalyticsRequest(KindOf(s0), poolId)] + RequestsFor(tail, names, poolId)
              && GatheredStatuses(order, names) == [s0] + GatheredStatuses(tail, names)
            else
              && RequestsFor(order, names, poolId) == RequestsFor(tail, names, poolId)
              && GatheredStatuses(order, names) == GatheredStatuses(tail, names)
  {
  }

  /** Appending a status to the order appends its request exactly when its name is truthy. */
  lemma {:induction false} RequestsForSnoc(order: seq<PoolStatus>, s: PoolStatus, names: NameTable, poolId: string)
    ensures RequestsFor(order + [s], names, poolId) ==
              RequestsFor(order, names, poolId) +
              (if s in names && names[s] != "" then [AnalyticsRequest(KindOf(s), poolId)] else [])
  {
    if order == [] {
      assert [s][1..] == [];
    } else {
      assert (order + [s])[1..] == order[1..] + [s];
      RequestsForSnoc(order[1..], s, names, poolId);
    }
  }

  /** A response's kind outside `analytic_classes_to_metric_names`: the KeyError. */
  datatype PollError = UnknownKind(kind: AnalyticsKind)

  /** The key of a response whose kind is known. */
  function ResponseKey(names: NameTable, response: Response): Option<string>
    requires response.kind != CompletionPercentage
  {
    MetricKey(names, StatusOfKind(response.kind).value)
  }

  /** Does every response have a known kind? */
  predicate AllKnown(responses: seq<Response>)
  {
    forall k :: 0 <= k < |responses| ==> responses[k].kind != CompletionPercentage
  }

  /** The last response filed under `key`: the one whose point `get_lines` keeps. */
  function LastFor(names: NameTable, responses: seq<Response>, key: Option<string>): Option<Response>
    requires AllKnown(responses)
  {
    if responses == [] then None
    else
      var last := responses[|responses| - 1];
      if ResponseKey(names, last) == key then Some(last)
      else LastFor(names, responses[..|responses| - 1], key)
  }

  /** The last response under a key is one of the responses and carries that key. */
  lemma {:induction false} LastForIsResponse(names: NameTable, responses: seq<Response>, key: Option<string>)
    requires AllKnown(responses)
    ensures LastFor(names, responses, key).Some? <==>
              exists k :: 0 <= k < |responses| && ResponseKey(names, responses[k]) == key
    ensures LastFor(names, responses, key).Some? ==>
              LastFor(names, responses, key).value in responses &&
              ResponseKey(names, LastFor(names, responses, key).value) == key
  {
    if responses != [] {
      var init := responses[..|responses| - 1];
      LastForIsResponse(names, init, key);
      if exists k :: 0 <= k < |init| && ResponseKey(names, init[k]) == key {
        var k :| 0 <= k < |init| && ResponseKey(names, init[k]) == key;
        assert responses[k] == init[k];
      }
      if exists k :: 0 <= k < |responses| && ResponseKey(names, responses[k]) == key {
        var k :| 0 <= k < |responses| && ResponseKey(names, responses[k]) == key;
        if k < |init| {
          assert init[k] == responses[k];
        }
      }
    }
  }

  /** The response `LastFor` picks is the one at the last position carrying the key. */
  lemma {:induction false} LastForIsLast(names: NameTable, responses: seq<Response>, key: Option<string>, j: nat)
    requires AllKnown(responses)
    requires j < |responses| && ResponseKey(names, responses[j]) == key
    requires forall k :: j < k < |responses| ==> ResponseKey(names, responses[k]) != key
    ensures LastFor(names, responses, key) == Some(responses[j])
  {
    var n := |responses|;
    if j < n - 1 {
      var init := responses[..n - 1];
      assert init[j] == responses[j];
      assert ResponseKey(names, responses[n - 1]) != key;
      forall k | j < k < |init| ensures ResponseKey(names, init[k]) != key {
        assert init[k] == responses[k];
      }
      LastForIsLast(names, init, key, j);
    }
  }

  /** `AssignmentsInPool`: assignment counts per status in a pool. */
  class AssignmentsInPool {
    const base: BaseMetric
    const poolId: string
    /** `_submitted_name` ... `_skipped_name`; a status is absent when its name is None. */
    var names: NameTable
    /** The id of `_previous_operation`, the only outstanding operation. */
    var prev: Option<OpId>

    ghost predicate Valid()
      reads this
    {
      && LineNames(AssignmentOrder, names) != []
      && Distinct(LineNames(AssignmentOrder, names))
    }

    /** The attrs-generated `__init__`, before `__attrs_post_init__`. */
    constructor (poolId: string, submitted: Option<string>, accepted: Option<string>,
                 rejected: Option<string>, skipped: Option<string>, client: Option<ClientId>)
      ensures this.poolId == poolId && prev == None
      ensures names == EventNames(None, submitted, accepted, rejected, skipped, None)
      ensures fresh(base) && base.className == "AssignmentsInPool" && base.client == client
    {
      base := new BaseMetric("AssignmentsInPool", client);
      this.poolId := poolId;
      names := EventNames(None, submitted, accepted, rejected, skipped, None);
      prev := None;
    }

    /**
     * `__attrs_post_init__`: with no name configured the three defaults are set; a repeated
     * name is an error (the ValueError); otherwise the names are kept.
     */
    method PostInit() returns (o: Outcome<ConfigError>)
      modifies this`names
      ensures ConfigureNames(AssignmentOrder, old(names), DefaultAssignmentNames) ==
                (if o.Pass? then Ok(names) else Err(o.error))
      ensures o.Fail? ==> names == old(names)
      ensures o.Pass? ==> Valid()
    {
      var listed := LineNames(AssignmentOrder, names);
      if listed == [] {
        names := DefaultAssignmentNames;
        DefaultAssignmentNamesListed();
      } else if HasDuplicates(listed) {
        return Fail(DuplicateMetricNames);
      } else {
        HasDuplicatesIff(listed);
      }
      return Pass;
    }

    /** `get_line_names`: the configured names of the four statuses, in order. */
    function GetLineNames(): (r: seq<string>)
      reads this
      ensures forall x :: x in r <==> exists s :: s in AssignmentOrder && s in names && names[s] == x
      ensures r == LineNames(AssignmentOrder, names)
    {
      var r := LineNames(AssignmentOrder, names);
      assert forall x :: x in r <==> exists s :: s in AssignmentOrder && s in names && names[s] == x by {
        forall x ensures x in r <==> exists s :: s in AssignmentOrder && s in names && names[s] == x {
          LineNamesMembership(AssignmentOrder, names, x);
        }
      }
      r
    }

    /** `_analytics_request`: one request per status with a truthy name. */
    function Requests(): (r: seq<AnalyticsRequest>)
      reads this
      ensures |r| == |GatheredNames(AssignmentOrder, names)|
      ensures forall k :: 0 <= k < |r| ==>
                r[k].subjectId == poolId && StatusOfKind(r[k].kind) == Some(GatheredStatuses(AssignmentOrder, names)[k])
    {
      RequestsForShape(AssignmentOrder, names, poolId);
      RequestsFor(AssignmentOrder, names, poolId)
    }

    /** The loop of `_analytics_request` over the four statuses, in order. */
    method AnalyticsRequests() returns (r: seq<AnalyticsRequest>)
      ensures r == Requests()
    {
      r := [];
      for i := 0 to |AssignmentOrder|
        invariant r == RequestsFor(AssignmentOrder[..i], names, poolId)
      {
        var s := AssignmentOrder[i];
        assert AssignmentOrder[..i + 1] == AssignmentOrder[..i] + [s];
        RequestsForSnoc(AssignmentOrder[..i], s, names, poolId);
        if s in names && names[s] != "" {
          r := r + [AnalyticsRequest(KindOf(s), poolId)];
        }
      }
      assert AssignmentOrder[..|AssignmentOrder|] == AssignmentOrder;
    }

    /**
     * `get_lines`: polls the outstanding operation; a pending one leaves everything as it
     * is; a completed one is cleared and, on success, each response becomes the point of
     * the name configured for its kind (the last such response wins); a kind without a
     * name fails with the KeyError, leaving no operation outstanding; otherwise, with none
     * outstanding, the next request is issued.
     */
    method GetLines(remote: Remote) returns (r: Result<map<Option<string>, seq<Point<int>>>, PollError>, calls: seq<Call>)
      modifies this`prev
      ensures r.Ok? <==> prev.Some?
      ensures old(prev).None? ==>
                r == Ok(map[]) && calls == [GetAnalytics(Requests())] && prev == Some(remote.getAnalytics(Requests()))
      ensures old(prev).Some? && !IsCompleted(remote.getOperation(old(prev).value).status) ==>
                r == Ok(map[]) && calls == [GetOperation(old(prev).value)] && prev == old(prev)
      ensures old(prev).Some? && remote.getOperation(old(prev).value).status == Failed ==>
                r == Ok(map[]) && calls == [GetOperation(old(prev).value), GetAnalytics(Requests())] &&
                prev == Some(remote.getAnalytics(Requests()))
      ensures old(prev).Some? && remote.getOperation(old(prev).value).status == Success ==>
                var details := remote.getOperation(old(prev).value).details;
                && (r.Err? <==> !AllKnown(details))
                && (r.Err? ==>
                      && calls == [GetOperation(old(prev).value)] && prev == None
                      && (exists j :: (0 <= j < |details| && AllKnown(details[..j]) &&
                                       details[j].kind == CompletionPercentage && r.error == UnknownKind(details[j].kind))))
                && (r.Ok? ==>
                      && calls == [GetOperation(old(prev).value), GetAnalytics(Requests())]
                      && prev == Some(remote.getAnalytics(Requests()))
                      && forall key ::
                           && (key in r.value <==> LastFor(names, details, key).Some?)
                           && (key in r.value ==> r.value[key] == [PointOf(LastFor(names, details, key).value)]))
    {
      var result: map<Option<string>, seq<Point<int>>> := map[];
      calls := [];
      if prev.Some? {
        var op := remote.getOperation(prev.value);
        calls := calls + [GetOperation(prev.value)];
        if IsCompleted(op.status) {
          prev := None;
          if op.status == Success {
            var res := FileResponses(names, op.details);
            if res.Err? {
              return Err(res.error), calls;
            }
            result := res.value;
          }
        }
      }
      if prev.None? {
        var requests := AnalyticsRequests();
        prev := Some(remote.getAnalytics(requests));
        calls := calls + [GetAnalytics(requests)];
      }
      r := Ok(result);
    }
  }

  /**
   * The loop of `AssignmentsInPool.get_lines` over a successful operation's responses:
   * each is stored under the key of its kind, later ones replacing earlier ones, and an
   * unknown kind stops the loop with the KeyError.
   */
  method FileResponses(names: NameTable, responses: seq<Response>)
    returns (r: Result<map<Option<string>, seq<Point<int>>>, PollError>)
    ensures r.Err? <==> !AllKnown(responses)
    ensures r.Err? ==> exists j :: (0 <= j < |responses| && AllKnown(responses[..j]) &&
                                    responses[j].kind == CompletionPercentage && r.error == UnknownKind(responses[j].kind))
    ensures r.Ok? ==> forall key ::
              && (key in r.value <==> LastFor(names, responses, key).Some?)
              && (key in r.value ==> r.value[key] == [PointOf(LastFor(names, responses, key).value)])
  {
    var result: map<Option<string>, seq<Point<int>>> := map[];
    for k := 0 to |responses|
      invariant AllKnown(responses[..k])
      invariant forall key ::
                  && (key in result <==> LastFor(names, responses[..k], key).Some?)
                  && (key in result ==> result[key] == [PointOf(LastFor(names, responses[..k], key).value)])
    {
      var response := responses[k];
      var status := StatusOfKind(response.kind);
      if status.None? {
        return Err(UnknownKind(response.kind));
      }
      var key := MetricKey(names, status.value);
      var next := responses[..k + 1];
      assert next[..k] == responses[..k];
      assert AllKnown(next);
      result := result[key := [PointOf(response)]];
    }
    assert responses[..|responses|] == responses;
    return Ok(result);
  }
}
