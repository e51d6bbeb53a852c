/**
 * Metric-name configuration shared by `AssignmentEventsInPool` and `AssignmentsInPool`
 * (src/metrics/metrics.py): a fixed table from assignment status to an optional metric
 * name, `get_line_names`, and the defaults and duplicate check of `__attrs_post_init__`.
 */
module MetricsNames {
  import opened Wrappers
  import opened Seqs

  /** Assignment statuses, one per configurable metric name. */
  datatype Status = Created | Submitted | Accepted | Rejected | Skipped | Expired

  /**
   * The configured names: a status is absent when its name is None. The order in which
   * the statuses are visited is fixed per class and passed as `order`.
   */
  type NameTable = map<Status, string>

  datatype ConfigError = DuplicateMetricNames

  /** `get_line_names`: the name of each status in `order` that has one, in that order. */
  function LineNames(order: seq<Status>, names: NameTable): (r: seq<string>)
    ensures |r| <= |order|
  {
    if order == [] then []
    else (if order[0] in names then [names[order[0]]] else []) + LineNames(order[1..], names)
  }

  /** The names a cursor or a request is made for: only the truthy ones (not None, not ""). */
  function GatheredNames(order: seq<Status>, names: NameTable): seq<string>
  {
    if order == [] then []
    else (if order[0] in names && names[order[0]] != "" then [names[order[0]]] else []) + GatheredNames(order[1..], names)
  }

  /** The statuses in `order` whose name is truthy, in order. */
  function GatheredStatuses(order: seq<Status>, names: NameTable): (r: seq<Status>)
    ensures |r| == |GatheredNames(order, names)|
  {
    if order == [] then []
    else
      var rest := GatheredStatuses(order[1..], names);
      if order[0] in names && names[order[0]] != "" then [order[0]] + rest else rest
  }

  /** The `k`-th gathered status is configured with the `k`-th gathered name. */
  lemma {:induction false} GatheredStatusAt(order: seq<Status>, names: NameTable, k: nat)
    requires k < |GatheredNames(order, names)|
    ensures GatheredStatuses(order, names)[k] in names
    ensures names[GatheredStatuses(order, names)[k]] == GatheredNames(order, names)[k]
  {
    var s0, tail := order[0], order[1..];
    if s0 in names && names[s0] != "" {
      assert GatheredStatuses(order, names) == [s0] + GatheredStatuses(tail, names);
      assert GatheredNames(order, names) == [names[s0]] + GatheredNames(tail, names);
      if k > 0 {
        GatheredStatusAt(tail, names, k - 1);
      }
    } else {
      assert GatheredStatuses(order, names) == GatheredStatuses(tail, names);
      assert GatheredNames(order, names) == GatheredNames(tail, names);
      GatheredStatusAt(tail, names, k);
    }
  }

  /** Each gathered status is configured with the name gathered at the same position. */
  lemma GatheredStatusesNamed(order: seq<Status>, names: NameTable)
    ensures forall k :: 0 <= k < |GatheredStatuses(order, names)| ==>
              GatheredStatuses(order, names)[k] in names &&
              names[GatheredStatuses(order, names)[k]] == GatheredNames(order, names)[k]
  {
    forall k | 0 <= k < |GatheredStatuses(order, names)| {
      GatheredStatusAt(order, names, k);
    }
  }

  /** The duplicate check of `__attrs_post_init__`: fewer distinct names than names. */
  predicate HasDuplicates(names: seq<string>)
  {
    |(set n | n in names)| != |names|
  }

  predicate Distinct<T(==)>(s: seq<T>)
  {
    forall i, j :: 0 <= i < j < |s| ==> s[i] != s[j]
  }

  /** Python's duplicate check is exactly "two positions hold the same name". */
  lemma {:induction false} HasDuplicatesIff(names: seq<string>)
    ensures HasDuplicates(names) <==> !Distinct(names)
  {
    if names == [] {
      assert (set n | n in names) == {};
    } else {
      var rest := names[1..];
      HasDuplicatesIff(rest);
      SetOfSeqCons(names);
      DistinctCons(names);
      SetOfSeqSize(rest);
      var s, sr := set n | n in names, set n | n in rest;
      if names[0] in rest {
        assert s == sr;
      } else {
        assert |s| == |sr| + 1;
      }
    }
  }

  lemma SetOfSeqCons(names: seq<string>)
    requires names != []
    ensures (set n | n in names) == (set n | n in names[1..]) + {names[0]}
  {
  }

  /** A non-empty list is distinct exactly when its head is not repeated and its tail is distinct. */
  lemma DistinctCons<T>(s: seq<T>)
    requires s != []
    ensures Distinct(s) <==> s[0] !in s[1..] && Distinct(s[1..])
  {
    var rest := s[1..];
    if s[0] in rest {
      var k :| 0 <= k < |rest| && rest[k] == s[0];
      assert s[k + 1] == s[0];
    }
    if !Distinct(s) {
      var i, j :| 0 <= i < j < |s| && s[i] == s[j];
      if i != 0 {
        assert rest[i - 1] == s[i] && rest[j - 1] == s[j];
      }
    }
    if !Distinct(rest) {
      var i, j :| 0 <= i < j < |rest| && rest[i] == rest[j];
      assert s[i + 1] == s[j + 1];
    }
  }

  lemma {:induction false} SetOfSeqSize(names: seq<string>)
    ensures |(set n | n in names)| <= |names|
  {
    if names != [] {
      SetOfSeqSize(names[1..]);
      SetOfSeqCons(names);
    }
  }

  /** A name is listed exactly when some status in the order has it configured. */
  lemma {:induction false} LineNamesMembership(order: seq<Status>, names: NameTable, x: string)
    ensures x in LineNames(order, names) <==> exists k :: 0 <= k < |order| && order[k] in names && names[order[k]] == x
  {
    if order != [] {
      LineNamesMembership(order[1..], names, x);
      if exists k :: 0 <= k < |order| && order[k] in names && names[order[k]] == x {
        var k :| 0 <= k < |order| && order[k] in names && names[order[k]] == x;
        if k > 0 {
          assert order[1..][k - 1] == order[k];
        }
      }
      if exists k :: 0 <= k < |order[1..]| && order[1..][k] in names && names[order[1..][k]] == x {
        var k :| 0 <= k < |order[1..]| && order[1..][k] in names && names[order[1..][k]] == x;
        assert order[k + 1] == order[1..][k];
      }
    }
  }

  /**
   * The positions, counted from `base`, of the statuses in `order` that have a name,
   * in increasing order: the reference `get_line_names` is checked against.
   */
  function ConfiguredPositions(order: seq<Status>, names: NameTable, base: nat): (r: seq<nat>)
    ensures |r| == |LineNames(order, names)|
  {
    if order == [] then []
    else (if order[0] in names then [base] else []) + ConfiguredPositions(order[1..], names, base + 1)
  }

  /** One step of `ConfiguredPositions` and `LineNames`, side by side. */
  lemma ConfiguredPositionsCons(order: seq<Status>, names: NameTable, base: nat)
    requires order != []
    ensures order[0] in names ==>
              && ConfiguredPositions(order, names, base) == [base] + ConfiguredPositions(order[1..], names, base + 1)
              && LineNames(order, names) == [names[order[0]]] + LineNames(order[1..], names)
    ensures order[0] !in names ==>
              && ConfiguredPositions(order, names, base) == ConfiguredPositions(order[1..], names, base + 1)
              && LineNames(order, names) == LineNames(order[1..], names)
  {
  }

  /** The `k`-th listed name is the name of the status at the `k`-th configured position. */
  lemma {:induction false} ListedAt(order: seq<Status>, names: NameTable, base: nat, k: nat)
    requires k < |ConfiguredPositions(order, names, base)|
    ensures var p := ConfiguredPositions(order, names, base)[k];
            && base <= p < base + |order|
            && order[p - base] in names
            && LineNames(order, names)[k] == names[order[p - base]]
  {
    ConfiguredPositionsCons(order, names, base);
    var rest := order[1..];
    var tail := ConfiguredPositions(rest, names, base + 1);
    if order[0] in names && k == 0 {
      assert ConfiguredPositions(order, names, base)[0] == base;
    } else {
      var k' := if order[0] in names then k - 1 else k;
      ListedAt(rest, names, base + 1, k');
      if order[0] in names {
        ConsAt(base, tail, k);
        ConsAt(names[order[0]], LineNames(rest, names), k);
      }
      assert ConfiguredPositions(order, names, base)[k] == tail[k'];
      assert LineNames(order, names)[k] == LineNames(rest, names)[k'];
      assert rest[tail[k'] - (base + 1)] == order[tail[k'] - base];
    }
  }

  /** Consecutive configured positions increase. */
  lemma {:induction false} PositionsIncrease(order: seq<Status>, names: NameTable, base: nat, k: nat)
    requires k + 1 < |ConfiguredPositions(order, names, base)|
    ensures ConfiguredPositions(order, names, base)[k] < ConfiguredPositions(order, names, base)[k + 1]
  {
    ConfiguredPositionsCons(order, names, base);
    var rest := ConfiguredPositions(order[1..], names, base + 1);
    if order[0] in names {
      ListedAt(order[1..], names, base + 1, k);
      if k > 0 {
        PositionsIncrease(order[1..], names, base + 1, k - 1);
        ConsAt(base, rest, k);
      }
      ConsAt(base, rest, k + 1);
    } else {
      PositionsIncrease(order[1..], names, base + 1, k);
    }
  }

  /** Every configured status has its position listed. */
  lemma {:induction false} PositionsComplete(order: seq<Status>, names: NameTable, base: nat, i: nat)
    requires i < |order| && order[i] in names
    ensures base + i in ConfiguredPositions(order, names, base)
  {
    ConfiguredPositionsCons(order, names, base);
    var tail := ConfiguredPositions(order[1..], names, base + 1);
    if i == 0 {
      assert ConfiguredPositions(order, names, base) == [base] + tail;
      assert ([base] + tail)[0] == base;
    } else {
      assert order[1..][i - 1] == order[i];
      PositionsComplete(order[1..], names, base + 1, i - 1);
      assert base + 1 + (i - 1) == base + i;
      if order[0] in names {
        assert ConfiguredPositions(order, names, base) == [base] + tail;
      } else {
        assert ConfiguredPositions(order, names, base) == tail;
      }
    }
  }

  /**
   * `get_line_names` lists, in the order of `order`, the name of every status that has
   * one and nothing else: it is the name at each configured position, the positions
   * strictly increase, and every status with a name has its position among them.
   */
  lemma LineNamesOrder(order: seq<Status>, names: NameTable)
    ensures var p := ConfiguredPositions(order, names, 0);
            && |p| == |LineNames(order, names)|
            && (forall k :: 0 <= k < |p| ==>
                  p[k] < |order| && order[p[k]] in names && LineNames(order, names)[k] == names[order[p[k]]])
            && (forall k :: 0 < k < |p| ==> p[k - 1] < p[k])
            && (forall i :: 0 <= i < |order| && order[i] in names ==> i in p)
  {
    ListedAtEach(order, names);
    PositionsIncreaseEach(order, names);
    PositionsCompleteEach(order, names);
  }

  lemma ListedAtEach(order: seq<Status>, names: NameTable)
    ensures var p := ConfiguredPositions(order, names, 0);
            forall k :: 0 <= k < |p| ==>
              p[k] < |order| && order[p[k]] in names && LineNames(order, names)[k] == names[order[p[k]]]
  {
    var p := ConfiguredPositions(order, names, 0);
    forall k | 0 <= k < |p|
      ensures p[k] < |order| && order[p[k]] in names && LineNames(order, names)[k] == names[order[p[k]]]
    {
      ListedAt(order, names, 0, k);
    }
  }

  lemma PositionsIncreaseEach(order: seq<Status>, names: NameTable)
    ensures var p := ConfiguredPositions(order, names, 0);
            forall k :: 0 < k < |p| ==> p[k - 1] < p[k]
  {
    var p := ConfiguredPositions(order, names, 0);
    forall k | 0 < k < |p| ensures p[k - 1] < p[k] {
      PositionsIncrease(order, names, 0, k - 1);
    }
  }

  lemma PositionsCompleteEach(order: seq<Status>, names: NameTable)
    ensures var p := ConfiguredPositions(order, names, 0);
            forall i :: 0 <= i < |order| && order[i] in names ==> i in p
  {
    var p := ConfiguredPositions(order, names, 0);
    forall i | 0 <= i < |order| && order[i] in names ensures i in p {
      PositionsComplete(order, names, 0, i);
    }
  }

  /**
   * Cursors and requests are made only for listed names, never for an empty one, and
   * for every listed non-empty name.
   */
  lemma {:induction false} GatheredAreListed(order: seq<Status>, names: NameTable, x: string)
    ensures x in GatheredNames(order, names) <==> x in LineNames(order, names) && x != ""
  {
    if order != [] {
      GatheredAreListed(order[1..], names, x);
    }
  }

  /** What is gathered keeps the order of what is listed, so distinct names stay distinct. */
  lemma {:induction false} GatheredDistinct(order: seq<Status>, names: NameTable)
    requires Distinct(LineNames(order, names))
    ensures Distinct(GatheredNames(order, names))
  {
    if order != [] {
      var rest := order[1..];
      ConfiguredPositionsCons(order, names, 0);
      var l, g := LineNames(order, names), GatheredNames(order, names);
      if order[0] in names {
        var n := names[order[0]];
        assert l[1..] == LineNames(rest, names);
        DistinctCons(l);
        GatheredDistinct(rest, names);
        if n != "" {
          assert g == [n] + GatheredNames(rest, names);
          assert g[1..] == GatheredNames(rest, names);
          GatheredAreListed(rest, names, n);
          DistinctCons(g);
        } else {
          assert g == GatheredNames(rest, names);
        }
      } else {
        assert g == GatheredNames(rest, names);
        GatheredDistinct(rest, names);
      }
    }
  }

  /**
   * `__attrs_post_init__`: when no name is configured the defaults are used; otherwise
   * a repeated name is a configuration error; otherwise the names stay as given.
   */
  function ConfigureNames(order: seq<Status>, names: NameTable, defaults: NameTable): Result<NameTable, ConfigError>
  {
    var listed := LineNames(order, names);
    if listed == [] then Ok(defaults)
    else if HasDuplicates(listed) then Err(DuplicateMetricNames)
    else Ok(names)
  }

  /** The configuration fails exactly when some configured name is repeated. */
  lemma ConfigureNamesOutcome(order: seq<Status>, names: NameTable, defaults: NameTable)
    ensures ConfigureNames(order, names, defaults).Err? <==> !Distinct(LineNames(order, names))
    ensures LineNames(order, names) == [] ==> ConfigureNames(order, names, defaults) == Ok(defaults)
    ensures Distinct(LineNames(order, names)) && LineNames(order, names) != [] ==>
              ConfigureNames(order, names, defaults) == Ok(names)
  {
    HasDuplicatesIff(LineNames(order, names));
  }

  /** Without a name for any status in the order, nothing is listed. */
  lemma {:induction false} NoNamesListed(order: seq<Status>, names: NameTable)
    requires forall k :: 0 <= k < |order| ==> order[k] !in names
    ensures LineNames(order, names) == []
  {
    if order != [] {
      NoNamesListed(order[1..], names);
    }
  }
}
