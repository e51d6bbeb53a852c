/**
 * `AssignmentEventsInPool` (src/metrics/metrics.py): counts of assignment events per
 * status, grouped by event time.
 *
 * Each assignment cursor is modelled by the batch of events it yields on one call.
 */
module MetricsEvents {
  import opened Wrappers
  import opened MetricsNames
  import opened MetricsBase
  import opened Seqs

  /** An instant (a `datetime`); only compared for equality. */
  type Time = int

  /** An assignment event as a cursor yields it; the assignment itself is left out. */
  datatype Event = Event(eventType: Status, eventTime: Time)

  /** One point of a metric line: `(datetime, value)`. */
  datatype Point<V> = Point(time: Time, value: V)

  /** The result of `get_lines`: metric name to its points. */
  type Lines<V> = map<string, seq<Point<V>>>

  function Times(events: seq<Event>): (r: seq<Time>)
    ensures |r| == |events|
    ensures forall i :: 0 <= i < |events| ==> r[i] == events[i].eventTime
  {
    if events == [] then [] else [events[0].eventTime] + Times(events[1..])
  }

  /**
   * The grouping `get_lines` applies to a cursor's new events: every run of consecutive
   * events with the same time becomes one point, that time paired with the run's length.
   */
  function GroupByTime(events: seq<Event>): (r: seq<Point<nat>>)
    ensures r == [] <==> events == []
    ensures r != [] ==> r[0].time == events[0].eventTime
  {
    if events == [] then []
    else
      var rest := GroupByTime(events[1..]);
      if rest != [] && rest[0].time == events[0].eventTime then
        [Point(events[0].eventTime, rest[0].value + 1)] + rest[1..]
      else
        [Point(events[0].eventTime, 1)] + rest
  }

  /** The time changes between the points at `k - 1` and `k`. */
  predicate ChangesAt(points: seq<Point<nat>>, k: nat)
    requires 0 < k < |points|
  {
    points[k - 1].time != points[k].time
  }

  /** Every count is at least one and neighbouring points have different times. */
  predicate IsRunLength(points: seq<Point<nat>>)
  {
    && (forall k :: 0 <= k < |points| ==> points[k].value >= 1)
    && (forall k :: 0 < k < |points| ==> ChangesAt(points, k))
  }

  function Repeat(t: Time, n: nat): (r: seq<Time>)
    ensures |r| == n
  {
    if n == 0 then [] else [t] + Repeat(t, n - 1)
  }

  /** Each point unfolded into as many copies of its time as it counts. */
  function Expand(points: seq<Point<nat>>): seq<Time>
  {
    if points == [] then [] else Repeat(points[0].time, points[0].value) + Expand(points[1..])
  }

  function SumCounts(points: seq<Point<nat>>): nat
  {
    if points == [] then 0 else points[0].value + SumCounts(points[1..])
  }

  lemma {:induction false} ExpandLength(points: seq<Point<nat>>)
    ensures |Expand(points)| == SumCounts(points)
  {
    if points != [] {
      ExpandLength(points[1..]);
    }
  }

  lemma ExpandCons(p: Point<nat>, rest: seq<Point<nat>>)
    ensures Expand([p] + rest) == Repeat(p.time, p.value) + Expand(rest)
  {
    assert ([p] + rest)[1..] == rest;
  }

  lemma RepeatSucc(t: Time, n: nat)
    ensures Repeat(t, n + 1) == [t] + Repeat(t, n)
  {
  }

  lemma RunLengthTail(points: seq<Point<nat>>)
    requires points != [] && IsRunLength(points)
    ensures IsRunLength(points[1..])
  {
    var tail := points[1..];
    forall k | 0 < k < |tail| ensures ChangesAt(tail, k) {
      assert ChangesAt(points, k + 1);
      assert tail[k - 1] == points[k] && tail[k] == points[k + 1];
    }
  }

  lemma RunLengthCons(p: Point<nat>, rest: seq<Point<nat>>)
    requires p.value >= 1 && IsRunLength(rest)
    requires rest != [] ==> rest[0].time != p.time
    ensures IsRunLength([p] + rest)
  {
    var r := [p] + rest;
    forall k | 0 < k < |r| ensures ChangesAt(r, k) {
      if k > 1 {
        assert ChangesAt(rest, k - 1);
        assert r[k - 1] == rest[k - 2] && r[k] == rest[k - 1];
      }
    }
  }

  /** The grouping is a run-length encoding of the event times. */
  lemma GroupByTimeIsRunLength(events: seq<Event>)
    ensures IsRunLength(GroupByTime(events))
    ensures Expand(GroupByTime(events)) == Times(events)
  {
    GroupByTimeShape(events);
    GroupByTimeExpand(events);
  }

  lemma {:induction false} GroupByTimeShape(events: seq<Event>)
    ensures IsRunLength(GroupByTime(events))
  {
    if events != [] {
      var t := events[0].eventTime;
      var rest := GroupByTime(events[1..]);
      GroupByTimeShape(events[1..]);
      if rest != [] && rest[0].time == t {
        var tail := rest[1..];
        var p: Point<nat> := Point(t, rest[0].value + 1);
        assert GroupByTime(events) == [p] + tail;
        if tail != [] {
          assert ChangesAt(rest, 1);
        }
        RunLengthTail(rest);
        RunLengthCons(p, tail);
      } else {
        var p: Point<nat> := Point(t, 1);
        assert GroupByTime(events) == [p] + rest;
        RunLengthCons(p, rest);
      }
    }
  }

  lemma {:induction false} GroupByTimeExpand(events: seq<Event>)
    ensures Expand(GroupByTime(events)) == Times(events)
  {
    if events != [] {
      var t := events[0].eventTime;
      var rest := GroupByTime(events[1..]);
      GroupByTimeExpand(events[1..]);
      if rest != [] && rest[0].time == t {
        var tail := rest[1..];
        var n: nat := rest[0].value;
        var p: Point<nat> := Point(t, n + 1);
        calc {
          Expand(GroupByTime(events));
          { assert GroupByTime(events) == [p] + tail; }
          Expand([p] + tail);
          { ExpandCons(p, tail); }
          Repeat(t, n + 1) + Expand(tail);
          { RepeatSucc(t, n); }
          ([t] + Repeat(t, n)) + Expand(tail);
          { ConsAssoc(t, Repeat(t, n), Expand(tail)); }
          [t] + (Repeat(t, n) + Expand(tail));
          { assert rest == [rest[0]] + tail; ExpandCons(rest[0], tail); }
          [t] + Expand(rest);
          Times(events);
        }
      } else {
        var p: Point<nat> := Point(t, 1);
        calc {
          Expand(GroupByTime(events));
          { assert GroupByTime(events) == [p] + rest; }
          Expand([p] + rest);
          { ExpandCons(p, rest); }
          Repeat(t, 1) + Expand(rest);
          { assert Repeat(t, 1) == [t]; }
          [t] + Expand(rest);
          Times(events);
        }
      }
    }
  }

  /** The counts add up to the number of events consumed. */
  lemma GroupByTimeCounts(events: seq<Event>)
    ensures SumCounts(GroupByTime(events)) == |events|
  {
    GroupByTimeIsRunLength(events);
    ExpandLength(GroupByTime(events));
  }

  /** Drops one copy of the first time from a run-length encoding. */
  function DropFirst(points: seq<Point<nat>>): seq<Point<nat>>
    requires points != []
  {
    if points[0].value <= 1 then points[1..]
    else [Point(points[0].time, points[0].value - 1)] + points[1..]
  }

  lemma DropFirstProps(points: seq<Point<nat>>)
    requires points != [] && IsRunLength(points)
    ensures IsRunLength(DropFirst(points))
    ensures Expand(points) == [points[0].time] + Expand(DropFirst(points))
  {
    assert points[0].value >= 1;
    RunLengthTail(points);
    if points[0].value > 1 {
      DropFromRunShape(points);
      DropFromRunExpand(points);
    } else {
      assert DropFirst(points) == points[1..];
      assert Repeat(points[0].time, 1) == [points[0].time];
    }
  }

  lemma DropFromRunShape(points: seq<Point<nat>>)
    requires points != [] && IsRunLength(points) && points[0].value > 1
    ensures IsRunLength(DropFirst(points))
  {
    var tail: seq<Point<nat>> := points[1..];
    var q: Point<nat> := Point(points[0].time, points[0].value - 1);
    assert DropFirst(points) == [q] + tail;
    RunLengthTail(points);
    if tail != [] {
      assert ChangesAt(points, 1);
      assert tail[0] == points[1];
    }
    RunLengthCons(q, tail);
  }

  lemma DropFromRunExpand(points: seq<Point<nat>>)
    requires points != [] && points[0].value > 1
    ensures Expand(points) == [points[0].time] + Expand(DropFirst(points))
  {
    var t: Time, tail: seq<Point<nat>> := points[0].time, points[1..];
    var q: Point<nat> := Point(t, points[0].value - 1);
    var r, e := Repeat(t, q.value), Expand(tail);
    calc {
      Expand(points);
      Repeat(t, points[0].value) + e;
      { RepeatSucc(t, q.value); }
      ([t] + r) + e;
      { ConsAssoc(t, r, e); }
      [t] + (r + e);
      { ExpandCons(q, tail); }
      [t] + Expand([q] + tail);
      { assert DropFirst(points) == [q] + tail; }
      [t] + Expand(DropFirst(points));
    }
  }

  lemma {:induction false} ExpandFirst(points: seq<Point<nat>>)
    requires points != [] && IsRunLength(points)
    ensures Expand(points) != [] && Expand(points)[0] == points[0].time
  {
    DropFirstProps(points);
  }

  /**
   * Dropping one copy of a shared first time leaves a different first time behind
   * when that time was counted once, and the same one when it was counted more often.
   */
  lemma DropMismatch(p: seq<Point<nat>>, q: seq<Point<nat>>)
    requires p != [] && q != [] && IsRunLength(p) && IsRunLength(q)
    requires p[0].time == q[0].time && p[0].value <= 1 && q[0].value > 1
    ensures Expand(DropFirst(p)) != Expand(DropFirst(q))
  {
    var dp, dq := DropFirst(p), DropFirst(q);
    DropFirstProps(q);
    ExpandFirst(dq);
    assert dp == p[1..];
    if dp != [] {
      assert ChangesAt(p, 1) && dp[0] == p[1];
      RunLengthTail(p);
      ExpandFirst(dp);
    }
  }

  /** Run-length encodings are unique: two with the same expansion are equal. */
  lemma {:induction false} RunLengthUnique(p: seq<Point<nat>>, q: seq<Point<nat>>)
    requires IsRunLength(p) && IsRunLength(q)
    requires Expand(p) == Expand(q)
    ensures p == q
    decreases |Expand(p)|
  {
    if p == [] || q == [] {
      if p != [] {
        ExpandFirst(p);
      }
      if q != [] {
        ExpandFirst(q);
      }
    } else {
      DropFirstProps(p);
      DropFirstProps(q);
      ExpandFirst(p);
      ExpandFirst(q);
      var dp, dq := DropFirst(p), DropFirst(q);
      assert p[0].time == q[0].time;
      assert Expand(dp) == ([p[0].time] + Expand(dp))[1..];
      assert Expand(dq) == ([q[0].time] + Expand(dq))[1..];
      if p[0].value <= 1 && q[0].value > 1 {
        DropMismatch(p, q);
        assert false;
      } else if p[0].value > 1 && q[0].value <= 1 {
        DropMismatch(q, p);
        assert false;
      } else if p[0].value <= 1 {
        RunLengthUnique(dp, dq);
        assert p == [p[0]] + dp && q == [q[0]] + dq;
      } else {
        RunLengthUnique(dp, dq);
        assert dp[1..] == p[1..] && dq[1..] == q[1..];
        assert p == [p[0]] + p[1..] && q == [q[0]] + q[1..];
      }
    }
  }

  /**
   * The grouping is the only run-length encoding of the event times: any sequence of
   * points with positive counts, different neighbouring times and the same expansion is it.
   */
  lemma GroupByTimeUnique(events: seq<Event>, points: seq<Point<nat>>)
    requires IsRunLength(points) && Expand(points) == Times(events)
    ensures points == GroupByTime(events)
  {
    GroupByTimeIsRunLength(events);
    RunLengthUnique(points, GroupByTime(events));
  }

  /** The statuses in the order of `_status_dict`. */
  const StatusOrder: seq<Status> := [Created, Submitted, Accepted, Rejected, Skipped, Expired]

  /** The names `__attrs_post_init__` sets when none is configured. */
  const DefaultEventNames: NameTable :=
    map[Submitted := "submitted_events_in_pool", Accepted := "accepted_events_in_pool",
        Rejected := "rejected_events_in_pool"]

  /** The table given by the six optional `*_name` arguments; None leaves the status out. */
  function EventNames(created: Option<string>, submitted: Option<string>, accepted: Option<string>,
                      rejected: Option<string>, skipped: Option<string>, expired: Option<string>): (t: NameTable)
    ensures Created in t <==> created.Some?
    ensures Submitted in t <==> submitted.Some?
    ensures Accepted in t <==> accepted.Some?
    ensures Rejected in t <==> rejected.Some?
    ensures Skipped in t <==> skipped.Some?
    ensures Expired in t <==> expired.Some?
    ensures forall s :: s in t ==> t[s] == match s
      case Created => created.value case Submitted => submitted.value case Accepted => accepted.value
      case Rejected => rejected.value case Skipped => skipped.value case Expired => expired.value
  {
    var t0: NameTable := map[];
    var t1 := if created.Some? then t0[Created := created.value] else t0;
    var t2 := if submitted.Some? then t1[Submitted := submitted.value] else t1;
    var t3 := if accepted.Some? then t2[Accepted := accepted.value] else t2;
    var t4 := if rejected.Some? then t3[Rejected := rejected.value] else t3;
    var t5 := if skipped.Some? then t4[Skipped := skipped.value] else t4;
    if expired.Some? then t5[Expired := expired.value] else t5
  }

  /** The defaults list three names, all different. */
  lemma DefaultEventNamesListed()
    ensures LineNames(StatusOrder, DefaultEventNames) ==
              ["submitted_events_in_pool", "accepted_events_in_pool", "rejected_events_in_pool"]
    ensures Distinct(LineNames(StatusOrder, DefaultEventNames))
  {
    var o := StatusOrder;
    assert o[1..] == [Submitted, Accepted, Rejected, Skipped, Expired];
    assert o[1..][1..] == [Accepted, Rejected, Skipped, Expired];
    assert o[1..][1..][1..] == [Rejected, Skipped, Expired];
    assert o[1..][1..][1..][1..] == [Skipped, Expired];
    assert o[1..][1..][1..][1..][1..] == [Expired];
    assert o[1..][1..][1..][1..][1..][1..] == [];
  }

  lemma InStatusOrder(s: Status)
    ensures s in StatusOrder
  {
    match s
    case Created => assert StatusOrder[0] == s;
    case Submitted => assert StatusOrder[1] == s;
    case Accepted => assert StatusOrder[2] == s;
    case Rejected => assert StatusOrder[3] == s;
    case Skipped => assert StatusOrder[4] == s;
    case Expired => assert StatusOrder[5] == s;
  }

  /** What an `AssignmentCursor` is created with, under the metric name it is stored at. */
  datatype CursorConfig = CursorConfig(metricName: string, eventType: Status, poolId: string,
                                       since: Time, client: Option<ClientId>)

  /** The cursors `_cursors` builds: one per status with a truthy name, all starting at `since`. */
  function BuildCursors(order: seq<Status>, names: NameTable, poolId: string, since: Time,
                        client: Option<ClientId>): (r: seq<CursorConfig>)
    ensures |r| == |GatheredNames(order, names)|
  {
    if order == [] then []
    else
      var rest := BuildCursors(order[1..], names, poolId, since, client);
      if order[0] in names && names[order[0]] != ""
      then [CursorConfig(names[order[0]], order[0], poolId, since, client)] + rest
      else rest
  }

  /** One cursor per gathered name, in the same order, each for the gathered status. */
  lemma BuildCursorsShape(order: seq<Status>, names: NameTable, poolId: string,
                          since: Time, client: Option<ClientId>)
    ensures |BuildCursors(order, names, poolId, since, client)| == |GatheredNames(order, names)|
    ensures forall k :: 0 <= k < |BuildCursors(order, names, poolId, since, client)| ==>
              BuildCursors(order, names, poolId, since, client)[k] ==
              CursorConfig(GatheredNames(order, names)[k], GatheredStatuses(order, names)[k], poolId, since, client)
  {
    forall k | 0 <= k < |BuildCursors(order, names, poolId, since, client)| {
      CursorAt(order, names, poolId, since, client, k);
    }
  }

  /** The cursor at position `k` is the one of the `k`-th gathered name and status. */
  lemma {:induction false} CursorAt(order: seq<Status>, names: NameTable, poolId: string,
                                    since: Time, client: Option<ClientId>, k: nat)
    requires k < |BuildCursors(order, names, poolId, since, client)|
    ensures BuildCursors(order, names, poolId, since, client)[k] ==
            CursorConfig(GatheredNames(order, names)[k], GatheredStatuses(order, names)[k], poolId, since, client)
  {
    var s0, tail := order[0], order[1..];
    BuildCursorsCons(order, names, poolId, since, client);
    if s0 in names && names[s0] != "" {
      if k > 0 {
        CursorAt(tail, names, poolId, since, client, k - 1);
        ConsAt(CursorConfig(names[s0], s0, poolId, since, client), BuildCursors(tail, names, poolId, since, client), k);
        ConsAt(names[s0], GatheredNames(tail, names), k);
        ConsAt(s0, GatheredStatuses(tail, names), k);
      }
    } else {
      CursorAt(tail, names, poolId, since, client, k);
    }
  }

  /** One step of `BuildCursors`, `GatheredNames` and `GatheredStatuses`, side by side. */
  lemma BuildCursorsCons(order: seq<Status>, names: NameTable, poolId: string,
                         since: Time, client: Option<ClientId>)
    requires order != []
    ensures var s0, tail := order[0], order[1..];
            if s0 in names && names[s0] != "" then
              && BuildCursors(order, names, poolId, since, client) ==
                 [CursorConfig(names[s0], s0, poolId, since, client)] + BuildCursors(tail, names, poolId, since, client)
              && GatheredNames(order, names) == [names[s0]] + GatheredNames(tail, names)
              && GatheredStatuses(order, names) == [s0] + GatheredStatuses(tail, names)
            else
              && BuildCursors(order, names, poolId, since, client) == BuildCursors(tail, names, poolId, since, client)
              && GatheredNames(order, names) == GatheredNames(tail, names)
              && GatheredStatuses(order, names) == GatheredStatuses(tail, names)
  {
  }

  lemma {:induction false} BuildCursorsSnoc(order: seq<Status>, s: Status, names: NameTable, poolId: string,
                                            since: Time, client: Option<ClientId>)
    ensures BuildCursors(order + [s], names, poolId, since, client) ==
              BuildCursors(order, names, poolId, since, client) +
              (if s in names && names[s] != "" then [CursorConfig(names[s], s, poolId, since, client)] else [])
  {
    if order == [] {
      assert [s][1..] == [];
    } else {
      assert (order + [s])[1..] == order[1..] + [s];
      BuildCursorsSnoc(order[1..], s, names, poolId, since, client);
    }
  }

  datatype EventsError =
    /** Join mode read `event.event_time` of the None left in `event`. */
    EventOfNone

  /**
   * The line of one cursor in `get_lines`: in join mode an empty batch is one zero point at
   * `now` and a non-empty batch fails; otherwise the events grouped by time.
   */
  function CursorLine(batch: seq<Event>, now: Time, join: bool): Result<seq<Point<nat>>, EventsError>
  {
    if join then
      if batch == [] then Ok([Point(now, 0)]) else Err(EventOfNone)
    else Ok(GroupByTime(batch))
  }

  /** The line fails exactly for a non-empty batch in join mode, and otherwise is never empty unless the batch is. */
  lemma CursorLineOutcome(batch: seq<Event>, now: Time, join: bool)
    ensures CursorLine(batch, now, join).Err? <==> join && batch != []
    ensures CursorLine(batch, now, join).Ok? ==> (CursorLine(batch, now, join).value == [] <==> !join && batch == [])
    ensures !join ==> SumCounts(CursorLine(batch, now, join).value) == |batch|
  {
    if !join {
      GroupByTimeCounts(batch);
    }
  }

  /**
   * The loop of `get_lines`: the line of each cursor's batch stored under the cursor's
   * metric name, stopping at the first line that fails.
   */
  method CollectLines(metricNames: seq<string>, batches: seq<seq<Event>>, now: Time, join: bool)
    returns (r: Result<Lines<nat>, EventsError>)
    requires |batches| == |metricNames| && Distinct(metricNames)
    ensures r.Err? <==> exists k :: 0 <= k < |batches| && CursorLine(batches[k], now, join).Err?
    ensures r.Err? ==> r == Err(EventOfNone)
    ensures r.Ok? ==> forall x :: x in r.value <==> x in metricNames
    ensures r.Ok? ==> forall k :: 0 <= k < |batches| ==> r.value[metricNames[k]] == CursorLine(batches[k], now, join).value
  {
    var result: Lines<nat> := map[];
    for k := 0 to |metricNames|
      invariant forall x :: x in result <==> x in metricNames[..k]
      invariant forall j :: 0 <= j < k ==> CursorLine(batches[j], now, join).Ok?
      invariant forall j :: 0 <= j < k ==> result[metricNames[j]] == CursorLine(batches[j], now, join).value
    {
      var line := CursorLine(batches[k], now, join);
      if line.Err? {
        return Err(line.error);
      }
      assert metricNames[..k + 1] == metricNames[..k] + [metricNames[k]];
      result := result[metricNames[k] := line.value];
    }
    assert metricNames[..|metricNames|] == metricNames;
    return Ok(result);
  }

  /** `AssignmentEventsInPool`: one cursor per configured event status, counted per event time. */
  class AssignmentEventsInPool {
    const base: BaseMetric
    const poolId: string
    /** `_created_name` ... `_expired_name`; a status is absent when its name is None. */
    var names: NameTable
    const joinEvents: bool
    /** The cached `_cursors`, built on first use. */
    var cursors: Option<seq<CursorConfig>>

    /** Post-init succeeded, and the cursors, once built, match the names. */
    ghost predicate Valid()
      reads this
    {
      && LineNames(StatusOrder, names) != []
      && Distinct(LineNames(StatusOrder, names))
      && (cursors.Some? ==> exists since, client :: cursors.value == BuildCursors(StatusOrder, names, poolId, since, client))
    }

    /** The attrs-generated `__init__`, before `__attrs_post_init__`. */
    constructor (poolId: string, created: Option<string>, submitted: Option<string>, accepted: Option<string>,
                 rejected: Option<string>, skipped: Option<string>, expired: Option<string>,
                 joinEvents: bool, client: Option<ClientId>)
      ensures this.poolId == poolId && this.joinEvents == joinEvents
      ensures names == EventNames(created, submitted, accepted, rejected, skipped, expired)
      ensures cursors == None
      ensures fresh(base) && base.className == "AssignmentEventsInPool" && base.client == client
    {
      base := new BaseMetric("AssignmentEventsInPool", client);
      this.poolId := poolId;
      this.joinEvents := joinEvents;
      names := EventNames(created, submitted, accepted, rejected, skipped, expired);
      cursors := None;
    }

    /**
     * `__attrs_post_init__`: with no name configured the three defaults are set; a repeated
     * name is an error (the ValueError); otherwise the names are kept.
     */
    method PostInit() returns (o: Outcome<ConfigError>)
      requires cursors == None
      modifies this`names
      ensures ConfigureNames(StatusOrder, old(names), DefaultEventNames) ==
                (if o.Pass? then Ok(names) else Err(o.error))
      ensures o.Fail? ==> names == old(names)
      ensures o.Pass? ==> Valid()
    {
      var listed := LineNames(StatusOrder, names);
      if listed == [] {
        names := DefaultEventNames;
        DefaultEventNamesListed();
      } else if HasDuplicates(listed) {
        return Fail(DuplicateMetricNames);
      } else {
        HasDuplicatesIff(listed);
      }
      return Pass;
    }

    /** `get_line_names`: every configured name and only those, in the order CREATED to EXPIRED. */
    function GetLineNames(): (r: seq<string>)
      reads this
      ensures forall x :: x in r <==> x in names.Values
      ensures r == LineNames(StatusOrder, names)
    {
      var r := LineNames(StatusOrder, names);
      assert forall x :: x in r <==> x in names.Values by {
        forall x ensures x in r <==> x in names.Values {
          LineNamesMembership(StatusOrder, names, x);
          if x in names.Values {
            var s :| s in names && names[s] == x;
            InStatusOrder(s);
          }
        }
      }
      r
    }

    /**
     * The `_cursors` cached property: built on first use, with the start time `now` and the
     * client bound at that moment; later uses return the same cursors.
     */
    method EnsureCursors(now: Time) returns (cs: seq<CursorConfig>)
      requires Valid()
      modifies this`cursors
      ensures Valid()
      ensures old(cursors).Some? ==> cursors == old(cursors)
      ensures old(cursors).None? ==> cursors == Some(BuildCursors(StatusOrder, names, poolId, now, base.client))
      ensures cursors == Some(cs)
    {
      if cursors.Some? {
        return cursors.value;
      }
      cs := [];
      for i := 0 to |StatusOrder|
        invariant cs == BuildCursors(StatusOrder[..i], names, poolId, now, base.client)
      {
        var s := StatusOrder[i];
        BuildCursorsSnoc(StatusOrder[..i], s, names, poolId, now, base.client);
        assert StatusOrder[..i + 1] == StatusOrder[..i] + [s];
        if s in names && names[s] != "" {
          cs := cs + [CursorConfig(names[s], s, poolId, now, base.client)];
        }
      }
      assert StatusOrder[..|StatusOrder|] == StatusOrder;
      cursors := Some(cs);
    }

    /**
     * `get_lines`, with `batches[k]` the events the k-th cursor yields now: every gathered
     * name gets the line of its batch, unless some line fails, and then the call fails.
     */
    method GetLines(now: Time, batches: seq<seq<Event>>) returns (r: Result<Lines<nat>, EventsError>)
      requires Valid()
      requires |batches| == |GatheredNames(StatusOrder, names)|
      modifies this`cursors
      ensures Valid()
      ensures old(cursors).Some? ==> cursors == old(cursors)
      ensures old(cursors).None? ==> cursors == Some(BuildCursors(StatusOrder, names, poolId, now, base.client))
      ensures r.Err? <==> exists k :: 0 <= k < |batches| && CursorLine(batches[k], now, joinEvents).Err?
      ensures r.Err? ==> r == Err(EventOfNone)
      ensures r.Ok? ==> forall x :: x in r.value <==> x in GatheredNames(StatusOrder, names)
      ensures r.Ok? ==> forall k :: 0 <= k < |batches| ==>
                r.value[GatheredNames(StatusOrder, names)[k]] == CursorLine(batches[k], now, joinEvents).value
    {
      var cs := EnsureCursors(now);
      ghost var since, client :| cs == BuildCursors(StatusOrder, names, poolId, since, client);
      BuildCursorsShape(StatusOrder, names, poolId, since, client);
      GatheredDistinct(StatusOrder, names);
      var metricNames := seq(|cs|, k requires 0 <= k < |cs| => cs[k].metricName);
      assert metricNames == GatheredNames(StatusOrder, names);
      r := CollectLines(metricNames, batches, now, joinEvents);
    }
  }
}
