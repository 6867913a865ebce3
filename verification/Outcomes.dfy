/** Outcome rows: timestamps repaired in place, actions grouped by kind, groups sorted newest first. */
module Outcomes {
  import opened Json
  import opened Timestamps
  import opened Wrappers

  // ----- Repairing timestamps -----

  const TIMESTAMPS := ["finished_at", "approved_at", "next_measurement_due"]

  /** What replaces a tuple: its text, or null when it is no date-time. */
  function FixedTimestamp(arr: seq<Value>): Value {
    match TimeTupleToIso(arr)
    case Text(text) => Str(text)
    case _ => Null
  }

  /** chrono's arithmetic stays in range on every tuple of the action. */
  predicate NoOverflow(action: Value) {
    forall k :: 0 <= k < |TIMESTAMPS| ==>
      match Get(action, TIMESTAMPS[k])
      case Some(Arr(arr)) => !TimeTupleToIso(arr).Overflows?
      case _ => true
  }

  /** The action with each of these fields repaired if it holds a tuple. */
  function Repaired(fields: map<string, Value>, names: seq<string>): map<string, Value> {
    map key | key in fields ::
      if key in names && fields[key].Arr? then FixedTimestamp(fields[key].items) else fields[key]
  }

  function NormalizedAction(action: Value): Value {
    if action.Obj? then Obj(Repaired(action.fields, TIMESTAMPS)) else action
  }

  method NormalizeTimestamps(action: Value) returns (fixed: Value)
    requires NoOverflow(action)
    ensures fixed == NormalizedAction(action)
  {
    if !action.Obj? {
      return action;
    }
    var fields := action.fields;
    for i := 0 to |TIMESTAMPS|
      invariant fields == Repaired(action.fields, TIMESTAMPS[..i])
    {
      var field := TIMESTAMPS[i];
      assert TIMESTAMPS[..i + 1] == TIMESTAMPS[..i] + [field];
      assert field !in TIMESTAMPS[..i];
      if field in fields && fields[field].Arr? {
        fields := fields[field := FixedTimestamp(fields[field].items)];
      }
    }
    assert TIMESTAMPS[..|TIMESTAMPS|] == TIMESTAMPS;
    fixed := Obj(fields);
  }

  lemma NormalizedActionTwice(action: Value)
    ensures NormalizedAction(NormalizedAction(action)) == NormalizedAction(action)
  {
    hide FixedTimestamp;
    if action.Obj? {
      var once := Repaired(action.fields, TIMESTAMPS);
      forall key | key in once
        ensures Repaired(once, TIMESTAMPS)[key] == once[key]
      {
        if key in action.fields && action.fields[key].Arr? {
          FixedIsNoArray(action.fields[key].items);
        }
      }
      assert Repaired(once, TIMESTAMPS) == once;
    }
  }

  lemma FixedIsNoArray(arr: seq<Value>)
    ensures !FixedTimestamp(arr).Arr?
  {
  }

  // ----- One group -----

  function Kind(action: Value): string {
    var kind := AsStr(Get(action, "kind"));
    if kind.Some? then kind.value else "unknown"
  }

  function State(action: Value): Option<string> {
    AsStr(Get(action, "outcome_state"))
  }

  function Finished(action: Value): Option<string> {
    AsStr(Get(action, "finished_at"))
  }

  predicate Failed(action: Value) {
    AsStr(Get(action, "status")) == Some("failed")
  }

  function CountState(rows: seq<Value>, state: string): (n: nat)
    ensures n <= |rows|
  {
    if rows == [] then 0
    else CountState(rows[..|rows| - 1], state) + if State(rows[|rows| - 1]) == Some(state) then 1 else 0
  }

  function CountFailed(rows: seq<Value>): (n: nat)
    ensures n <= |rows|
  {
    if rows == [] then 0 else CountFailed(rows[..|rows| - 1]) + if Failed(rows[|rows| - 1]) then 1 else 0
  }

  function CountVerdict(outcomes: seq<Value>, verdict: string): nat {
    if outcomes == [] then 0
    else CountVerdict(outcomes[..|outcomes| - 1], verdict)
         + if AsStr(Get(outcomes[|outcomes| - 1], "verdict")) == Some(verdict) then 1 else 0
  }

  function OutcomesOf(action: Value): seq<Value> {
    match Get(action, "outcomes")
    case Some(Arr(items)) => items
    case _ => []
  }

  function CountVerdicts(rows: seq<Value>, verdict: string): nat {
    if rows == [] then 0
    else CountVerdicts(rows[..|rows| - 1], verdict) + CountVerdict(OutcomesOf(rows[|rows| - 1]), verdict)
  }

  /** The position of the first row carrying the greatest `finished_at`, over the rows that count. */
  function Latest(rows: seq<Value>, measuredOnly: bool): (r: Option<nat>)
    ensures r.Some? ==> r.value < |rows| && Finished(rows[r.value]).Some?
  {
    if rows == [] then None
    else
      var n := |rows| - 1;
      var before, finished := Latest(rows[..n], measuredOnly), Finished(rows[n]);
      if finished.None? || (measuredOnly && State(rows[n]) != Some("measured")) then before
      else if before.None? || Compare(finished.value, Finished(rows[before.value]).value) > 0 then Some(n)
      else before
  }

  function FirstMeasured(rows: seq<Value>): (r: Option<nat>)
    ensures r.Some? ==> r.value < |rows|
  {
    if rows == [] then None
    else
      var before := FirstMeasured(rows[..|rows| - 1]);
      if before.Some? then before
      else if State(rows[|rows| - 1]) == Some("measured") then Some(|rows| - 1) else None
  }

  datatype Group = Group(
    kind: string, context: Value, count: nat, pending: nat, unmeasured: nat, measured: nat,
    improved: nat, neutral: nat, worsened: nat, failed: nat,
    latestFinished: Option<string>, latestMetrics: Value)

  function OrNull(v: Option<Value>): Value {
    if v.Some? then v.value else Null
  }

  function LatestFinished(rows: seq<Value>): Option<string> {
    var latest := Latest(rows, false);
    if latest.Some? then Finished(rows[latest.value]) else None
  }

  function LatestMetrics(rows: seq<Value>): Value {
    var latest := Latest(rows, true);
    var chosen := if latest.Some? then latest else FirstMeasured(rows);
    if chosen.Some? then OrNull(Get(rows[chosen.value], "outcomes")) else Null
  }

  function Summary(kind: string, rows: seq<Value>): Group {
    Group(kind, if rows == [] then Null else OrNull(Get(rows[0], "context")), |rows|,
          CountState(rows, "pending"), CountState(rows, "unmeasured"), CountState(rows, "measured"),
          CountVerdicts(rows, "improved"), CountVerdicts(rows, "neutral"), CountVerdicts(rows, "worsened"),
          CountFailed(rows), LatestFinished(rows), LatestMetrics(rows))
  }

  /** The verdict tallies of one action. */
  method TallyVerdicts(outcomes: seq<Value>) returns (improved: nat, neutral: nat, worsened: nat)
    ensures improved == CountVerdict(outcomes, "improved")
    ensures neutral == CountVerdict(outcomes, "neutral")
    ensures worsened == CountVerdict(outcomes, "worsened")
  {
    improved, neutral, worsened := 0, 0, 0;
    for i := 0 to |outcomes|
      invariant improved == CountVerdict(outcomes[..i], "improved")
      invariant neutral == CountVerdict(outcomes[..i], "neutral")
      invariant worsened == CountVerdict(outcomes[..i], "worsened")
    {
      assert outcomes[..i + 1][..i] == outcomes[..i];
      var verdict := AsStr(Get(outcomes[i], "verdict"));
      if verdict == Some("improved") {
        improved := improved + 1;
      } else if verdict == Some("neutral") {
        neutral := neutral + 1;
      } else if verdict == Some("worsened") {
        worsened := worsened + 1;
      }
    }
    assert outcomes[..|outcomes|] == outcomes;
  }

  /** The counters of the row loop. */
  method Tally(rows: seq<Value>)
    returns (pending: nat, unmeasured: nat, measured: nat, improved: nat, neutral: nat, worsened: nat, failed: nat)
    ensures pending == CountState(rows, "pending") && unmeasured == CountState(rows, "unmeasured")
    ensures measured == CountState(rows, "measured")
    ensures improved == CountVerdicts(rows, "improved") && neutral == CountVerdicts(rows, "neutral")
    ensures worsened == CountVerdicts(rows, "worsened")
    ensures failed == CountFailed(rows)
  {
    hide State, Failed, OutcomesOf, CountVerdict;
    pending, unmeasured, measured, improved, neutral, worsened, failed := 0, 0, 0, 0, 0, 0, 0;
    for i := 0 to |rows|
      invariant pending == CountState(rows[..i], "pending")
      invariant unmeasured == CountState(rows[..i], "unmeasured")
      invariant measured == CountState(rows[..i], "measured")
      invariant improved == CountVerdicts(rows[..i], "improved")
      invariant neutral == CountVerdicts(rows[..i], "neutral")
      invariant worsened == CountVerdicts(rows[..i], "worsened")
      invariant failed == CountFailed(rows[..i])
    {
      assert rows[..i + 1][..i] == rows[..i];
      var action := rows[i];
      var state := State(action);
      if state == Some("pending") {
        pending := pending + 1;
      } else if state == Some("unmeasured") {
        unmeasured := unmeasured + 1;
      } else if state == Some("measured") {
        measured := measured + 1;
      }
      if Failed(action) {
        failed := failed + 1;
      }
      var more, same, less := TallyVerdicts(OutcomesOf(action));
      improved, neutral, worsened := improved + more, neutral + same, worsened + less;
    }
    assert rows[..|rows|] == rows;
  }

  /** The two separate "latest" trackers of the row loop, and the fallback. */
  method Track(rows: seq<Value>) returns (finished: Option<string>, metrics: Value)
    ensures finished == LatestFinished(rows) && metrics == LatestMetrics(rows)
  {
    hide State, Finished, Compare;
    var latest: Option<nat>, measured: Option<nat>, first: Option<nat> := None, None, None;
    for i := 0 to |rows|
      invariant latest == Latest(rows[..i], false)
      invariant measured == Latest(rows[..i], true)
      invariant first == FirstMeasured(rows[..i])
    {
      assert rows[..i + 1][..i] == rows[..i];
      var action := rows[i];
      var at := Finished(action);
      if State(action) == Some("measured") {
        if first.None? {
          first := Some(i);
        }
        if at.Some? {
          if measured.None? || Compare(at.value, Finished(rows[measured.value]).value) > 0 {
            measured := Some(i);
          }
        }
      }
      if at.Some? {
        if latest.None? || Compare(at.value, Finished(rows[latest.value]).value) > 0 {
          latest := Some(i);
        }
      }
    }
    assert rows[..|rows|] == rows;
    finished := if latest.Some? then Finished(rows[latest.value]) else None;
    var chosen := if measured.Some? then measured else first;
    metrics := if chosen.Some? then OrNull(Get(rows[chosen.value], "outcomes")) else Null;
  }

  method Summarize(kind: string, rows: seq<Value>) returns (g: Group)
    ensures g == Summary(kind, rows)
  {
    var pending, unmeasured, measured, improved, neutral, worsened, failed := Tally(rows);
    var finished, metrics := Track(rows);
    var context := if rows == [] then Null else OrNull(Get(rows[0], "context"));
    g := Group(kind, context, |rows|, pending, unmeasured, measured, improved, neutral, worsened, failed, finished,
               metrics);
  }

  // ----- Grouping -----

  /** The actions of one kind, in order. */
  function Rows(actions: seq<Value>, kind: string): (rows: seq<Value>) {
    if actions == [] then []
    else
      var rest := Rows(actions[..|actions| - 1], kind);
      if Kind(actions[|actions| - 1]) == kind then rest + [actions[|actions| - 1]] else rest
  }

  /** The kinds, in order of first appearance. */
  function Kinds(actions: seq<Value>): seq<string> {
    if actions == [] then []
    else
      var rest, kind := Kinds(actions[..|actions| - 1]), Kind(actions[|actions| - 1]);
      if kind in rest then rest else rest + [kind]
  }

  function Summaries(actions: seq<Value>, kinds: seq<string>): (groups: seq<Group>)
    ensures |groups| == |kinds|
  {
    seq(|kinds|, k requires 0 <= k < |kinds| => Summary(kinds[k], Rows(actions, kinds[k])))
  }

  method Collect(actions: seq<Value>) returns (order: seq<string>, byKind: map<string, seq<Value>>)
    ensures order == Kinds(actions)
    ensures forall kind :: kind in byKind <==> kind in order
    ensures forall kind :: kind in byKind ==> byKind[kind] == Rows(actions, kind)
  {
    hide Kind;
    order, byKind := [], map[];
    for i := 0 to |actions|
      invariant order == Kinds(actions[..i])
      invariant forall kind :: kind in byKind <==> kind in order
      invariant forall kind :: kind in byKind ==> byKind[kind] == Rows(actions[..i], kind)
    {
      assert actions[..i + 1][..i] == actions[..i];
      var kind := Kind(actions[i]);
      if kind !in byKind {
        NoRows(actions[..i], kind);
        order := order + [kind];
        byKind := byKind[kind := []];
      }
      byKind := byKind[kind := byKind[kind] + [actions[i]]];
    }
    assert actions[..|actions|] == actions;
  }

  lemma {:induction false} NoRows(actions: seq<Value>, kind: string)
    requires kind !in Kinds(actions)
    ensures Rows(actions, kind) == []
  {
    hide Kind;
    if actions != [] {
      NoRows(actions[..|actions| - 1], kind);
    }
  }

  /** The sort key order: a group without any finished action comes last. */
  function CompareKeys(a: Option<string>, b: Option<string>): int {
    match (a, b)
    case (None, None) => 0
    case (None, Some(_)) => -1
    case (Some(_), None) => 1
    case (Some(x), Some(y)) => Compare(x, y)
  }

  /** Where a later element goes in a descending stable sort: after everything not older than it. */
  function Insert(sorted: seq<Group>, g: Group): (out: seq<Group>)
    ensures multiset(out) == multiset(sorted) + multiset{g}
  {
    if sorted == [] || CompareKeys(g.latestFinished, sorted[|sorted| - 1].latestFinished) <= 0 then sorted + [g]
    else
      assert sorted == sorted[..|sorted| - 1] + [sorted[|sorted| - 1]];
      Insert(sorted[..|sorted| - 1], g) + [sorted[|sorted| - 1]]
  }

  function SortNewestFirst(groups: seq<Group>): (out: seq<Group>)
    ensures multiset(out) == multiset(groups)
  {
    if groups == [] then []
    else
      assert groups == groups[..|groups| - 1] + [groups[|groups| - 1]];
      Insert(SortNewestFirst(groups[..|groups| - 1]), groups[|groups| - 1])
  }

  function Grouped(actions: seq<Value>): seq<Group> {
    SortNewestFirst(Summaries(actions, Kinds(actions)))
  }

  method GroupActions(actions: seq<Value>) returns (groups: seq<Group>)
    ensures groups == Grouped(actions)
  {
    var order, byKind := Collect(actions);
    groups := [];
    for i := 0 to |order|
      invariant groups == Summaries(actions, order[..i])
    {
      assert order[i] in order;
      var g := Summarize(order[i], byKind[order[i]]);
      groups := groups + [g];
      hide Summary;
      assert order[..i + 1] == order[..i] + [order[i]];
    }
    assert order[..|order|] == order;
    groups := SortNewestFirst(groups);
  }

  // ----- The grouping is a partition -----

  ghost predicate DistinctKinds(groups: seq<Group>) {
    forall i, j :: 0 <= i < j < |groups| ==> groups[i].kind != groups[j].kind
  }

  lemma {:induction false} KindsAreDistinct(actions: seq<Value>)
    ensures forall i, j :: 0 <= i < j < |Kinds(actions)| ==> Kinds(actions)[i] != Kinds(actions)[j]
    ensures forall k :: 0 <= k < |actions| ==> Kind(actions[k]) in Kinds(actions)
  {
    hide Kind;
    if actions != [] {
      KindsAreDistinct(actions[..|actions| - 1]);
      assert forall k :: 0 <= k < |actions| - 1 ==> actions[..|actions| - 1][k] == actions[k];
    }
  }

  lemma {:induction false} InsertKeepsDistinct(sorted: seq<Group>, g: Group)
    requires DistinctKinds(sorted) && forall k :: 0 <= k < |sorted| ==> sorted[k].kind != g.kind
    ensures DistinctKinds(Insert(sorted, g))
    ensures forall k :: 0 <= k < |Insert(sorted, g)| ==> Insert(sorted, g)[k] in sorted || Insert(sorted, g)[k] == g
  {
    hide CompareKeys;
    if sorted != [] && CompareKeys(g.latestFinished, sorted[|sorted| - 1].latestFinished) > 0 {
      InsertKeepsDistinct(sorted[..|sorted| - 1], g);
    }
  }

  lemma {:induction false} SortKeepsDistinct(groups: seq<Group>)
    requires DistinctKinds(groups)
    ensures DistinctKinds(SortNewestFirst(groups))
    ensures forall k :: 0 <= k < |SortNewestFirst(groups)| ==> SortNewestFirst(groups)[k] in groups
  {
    if groups != [] {
      SortKeepsDistinct(groups[..|groups| - 1]);
      InsertKeepsDistinct(SortNewestFirst(groups[..|groups| - 1]), groups[|groups| - 1]);
    }
  }

  /** Each kind has one group, and that group summarises exactly the actions of its kind. */
  lemma GroupsAreTheKinds(actions: seq<Value>)
    ensures DistinctKinds(Grouped(actions)) && |Grouped(actions)| == |Kinds(actions)|
    ensures forall g :: g in Grouped(actions) ==>
              g.kind in Kinds(actions) && g == Summary(g.kind, Rows(actions, g.kind))
    ensures forall k :: 0 <= k < |actions| ==> Kind(actions[k]) in Kinds(actions)
    ensures forall kind :: kind in Kinds(actions) ==> Summary(kind, Rows(actions, kind)) in Grouped(actions)
  {
    hide Rows, Kinds, Kind, SortNewestFirst, CountState, CountVerdicts, CountFailed, LatestFinished, LatestMetrics;
    var kinds := Kinds(actions);
    var groups := Summaries(actions, kinds);
    KindsAreDistinct(actions);
    SortKeepsDistinct(groups);
    SortIsPermutation(groups);
    forall kind | kind in kinds
      ensures Summary(kind, Rows(actions, kind)) in Grouped(actions)
    {
      var k :| 0 <= k < |kinds| && kinds[k] == kind;
      assert groups[k] == Summary(kind, Rows(actions, kind));
    }
  }

  lemma SortIsPermutation(groups: seq<Group>)
    ensures |SortNewestFirst(groups)| == |groups|
    ensures forall g :: g in groups ==> g in SortNewestFirst(groups)
  {
    assert multiset(SortNewestFirst(groups)) == multiset(groups);
    assert |multiset(SortNewestFirst(groups))| == |SortNewestFirst(groups)| && |multiset(groups)| == |groups|;
    forall g | g in groups
      ensures g in SortNewestFirst(groups)
    {
      assert g in multiset(groups);
      assert g in multiset(SortNewestFirst(groups));
    }
  }

  function SumCounts(groups: seq<Group>): nat {
    if groups == [] then 0 else SumCounts(groups[..|groups| - 1]) + groups[|groups| - 1].count
  }

  function SumRows(actions: seq<Value>, kinds: seq<string>): nat {
    if kinds == [] then 0 else SumRows(actions, kinds[..|kinds| - 1]) + |Rows(actions, kinds[|kinds| - 1])|
  }

  lemma {:induction false} SumInsert(sorted: seq<Group>, g: Group)
    ensures SumCounts(Insert(sorted, g)) == SumCounts(sorted) + g.count
  {
    hide CompareKeys;
    if sorted == [] || CompareKeys(g.latestFinished, sorted[|sorted| - 1].latestFinished) <= 0 {
      assert (sorted + [g])[..|sorted|] == sorted;
    } else {
      var init := sorted[..|sorted| - 1];
      SumInsert(init, g);
      var out := Insert(init, g) + [sorted[|sorted| - 1]];
      assert out[..|out| - 1] == Insert(init, g);
    }
  }

  lemma {:induction false} SumSort(groups: seq<Group>)
    ensures SumCounts(SortNewestFirst(groups)) == SumCounts(groups)
  {
    if groups != [] {
      SumSort(groups[..|groups| - 1]);
      SumInsert(SortNewestFirst(groups[..|groups| - 1]), groups[|groups| - 1]);
    }
  }

  lemma {:induction false} SumSummaries(actions: seq<Value>, kinds: seq<string>)
    ensures SumCounts(Summaries(actions, kinds)) == SumRows(actions, kinds)
  {
    hide Rows;
    if kinds != [] {
      var init := kinds[..|kinds| - 1];
      SumSummaries(actions, init);
      assert Summaries(actions, kinds)[..|kinds| - 1] == Summaries(actions, init) by {
        hide Summary;
      }
    }
  }

  /** Adding an action of kind `kind` adds one row to that kind's list and to no other. */
  lemma {:induction false} SumRowsStep(actions: seq<Value>, action: Value, kinds: seq<string>)
    requires forall i, j :: 0 <= i < j < |kinds| ==> kinds[i] != kinds[j]
    ensures SumRows(actions + [action], kinds) == SumRows(actions, kinds) + if Kind(action) in kinds then 1 else 0
  {
    hide Kind;
    if kinds != [] {
      SumRowsStep(actions, action, kinds[..|kinds| - 1]);
      assert (actions + [action])[..|actions|] == actions;
    }
  }

  /** The groups' counts add up to the number of actions. */
  lemma {:induction false} CountsAddUp(actions: seq<Value>)
    ensures SumCounts(Grouped(actions)) == |actions|
  {
    hide SortNewestFirst, Summaries;
    SumSort(Summaries(actions, Kinds(actions)));
    SumSummaries(actions, Kinds(actions));
    SumRowsAll(actions);
  }

  lemma {:induction false} SumRowsAll(actions: seq<Value>)
    ensures SumRows(actions, Kinds(actions)) == |actions|
  {
    hide Kind;
    if actions != [] {
      var init, last := actions[..|actions| - 1], actions[|actions| - 1];
      var kinds, kind := Kinds(init), Kind(last);
      SumRowsAll(init);
      KindsAreDistinct(init);
      assert init + [last] == actions;
      SumRowsStep(init, last, kinds);
      if kind !in kinds {
        NoRows(init, kind);
        assert (kinds + [kind])[..|kinds|] == kinds;
      }
    }
  }

  /** An action is in at most one of the three measurement states. */
  lemma {:induction false} StatesWithinCount(rows: seq<Value>)
    ensures CountState(rows, "pending") + CountState(rows, "unmeasured") + CountState(rows, "measured") <= |rows|
  {
    hide State;
    if rows != [] {
      StatesWithinCount(rows[..|rows| - 1]);
    }
  }

  // ----- Latest really is latest -----

  predicate Qualifies(action: Value, measuredOnly: bool) {
    Finished(action).Some? && (measuredOnly ==> State(action) == Some("measured"))
  }

  lemma {:induction false} CompareTransitive(a: string, b: string, c: string)
    requires Compare(a, b) <= 0 && Compare(b, c) <= 0
    ensures Compare(a, c) <= 0
    ensures Compare(a, c) == 0 ==> Compare(a, b) == 0 && Compare(b, c) == 0
  {
    if a != "" && b != "" && c != "" && a[0] == b[0] && b[0] == c[0] {
      CompareTransitive(a[1..], b[1..], c[1..]);
    }
  }

  /** The tracker ends on the first of the rows with the greatest `finished_at` among those that
      qualify, and on none exactly when none qualifies. */
  lemma {:induction false} LatestIsFirstMaximum(rows: seq<Value>, measuredOnly: bool, j: nat)
    requires j < |rows| && Qualifies(rows[j], measuredOnly)
    ensures
      var r := Latest(rows, measuredOnly);
      && r.Some? && Qualifies(rows[r.value], measuredOnly)
      && Compare(Finished(rows[j]).value, Finished(rows[r.value]).value) <= 0
      && (j < r.value ==> Compare(Finished(rows[j]).value, Finished(rows[r.value]).value) < 0)
  {
    hide Finished, State, Compare;
    var n := |rows| - 1;
    var init := rows[..n];
    var before := Latest(init, measuredOnly);
    if before.Some? {
      LatestQualifies(init, measuredOnly);
    }
    if j < n {
      assert init[j] == rows[j];
      LatestIsFirstMaximum(init, measuredOnly, j);
      if Qualifies(rows[n], measuredOnly) {
        var x, y, z := Finished(rows[j]).value, Finished(rows[before.value]).value, Finished(rows[n]).value;
        CompareSwap(z, y);
        if Compare(y, z) < 0 {
          CompareTransitive(x, y, z);
        }
      }
    } else {
      CompareSelf(Finished(rows[n]).value);
    }
  }

  lemma {:induction false} LatestQualifies(rows: seq<Value>, measuredOnly: bool)
    ensures Latest(rows, measuredOnly).Some? ==> Qualifies(rows[Latest(rows, measuredOnly).value], measuredOnly)
  {
    hide Finished, State, Compare;
    if rows != [] {
      LatestQualifies(rows[..|rows| - 1], measuredOnly);
    }
  }

  /** The text is that of the instant, or there is neither. */
  ghost predicate Dated(text: Option<string>, at: Option<Instant>) {
    match at
    case None => text.None?
    case Some(i) => ValidInstant(i) && text == Some(ToRfc3339(i))
  }

  /** The years of two instants are written in time order. */
  predicate YearsInOrder(a: Instant, b: Instant) {
    YearsSortInTime(Date(a).year, Date(b).year)
  }

  /** When the text of one instant does not sort after that of another, neither does the instant, if and only if their
      years are written in time order. */
  lemma OrderOfTexts(a: Instant, b: Instant)
    requires ValidInstant(a) && ValidInstant(b) && Compare(ToRfc3339(a), ToRfc3339(b)) <= 0
    ensures CompareInstants(a, b) <= 0 <==> YearsInOrder(a, b)
  {
    hide ToRfc3339, ValidInstant, YearsSortInTime, Date, Compare;
    TextOrderExactly(a, b);
    CompareZero(ToRfc3339(a), ToRfc3339(b));
    ComparesByOne(ToRfc3339(a), ToRfc3339(b));
  }

  lemma {:induction false} ComparesByOne(a: string, b: string)
    ensures -1 <= Compare(a, b) <= 1
  {
    if a != "" && b != "" {
      ComparesByOne(a[1..], b[1..]);
    }
  }

  /** The group's `latest_finished_at` is the text of a row that finished, and absent when none did. A row did not
      finish after that one if and only if the two years are written in time order: so it is the newest row exactly when
      that holds of every row, and always in the years 0 to 9999. */
  lemma LatestIsNewestInstant(rows: seq<Value>, at: seq<Option<Instant>>) returns (newest: Option<Instant>)
    requires |at| == |rows| && forall j :: 0 <= j < |rows| ==> Dated(Finished(rows[j]), at[j])
    ensures Dated(LatestFinished(rows), newest) && (newest.Some? ==> newest in at)
    ensures forall j :: 0 <= j < |rows| && at[j].Some? ==>
              && newest.Some?
              && (CompareInstants(at[j].value, newest.value) <= 0 <==> YearsInOrder(at[j].value, newest.value))
  {
    hide Finished, ToRfc3339, ValidInstant, CompareInstants, Compare, YearsInOrder;
    LatestQualifies(rows, false);
    var latest := Latest(rows, false);
    newest := if latest.None? then None else at[latest.value];
    forall j | 0 <= j < |rows| && at[j].Some?
      ensures newest.Some?
      ensures CompareInstants(at[j].value, newest.value) <= 0 <==> YearsInOrder(at[j].value, newest.value)
    {
      LatestIsFirstMaximum(rows, false, j);
      OrderOfTexts(at[j].value, newest.value);
    }
  }

  lemma FourDigitsInOrder(a: Instant, b: Instant)
    requires FourDigitYear(a) && FourDigitYear(b)
    ensures YearsInOrder(a, b)
  {
    hide Date;
  }

  // ----- The order of groups -----

  ghost predicate NewestFirst(groups: seq<Group>) {
    forall i, j :: 0 <= i < j < |groups| ==> CompareKeys(groups[i].latestFinished, groups[j].latestFinished) >= 0
  }

  lemma CompareKeysTransitive(a: Option<string>, b: Option<string>, c: Option<string>)
    requires CompareKeys(a, b) >= 0 && CompareKeys(b, c) >= 0
    ensures CompareKeys(a, c) >= 0
  {
    if a.Some? && b.Some? && c.Some? {
      CompareSwap(a.value, b.value);
      CompareSwap(b.value, c.value);
      CompareSwap(a.value, c.value);
      CompareTransitive(c.value, b.value, a.value);
    }
  }

  lemma CompareKeysSwap(a: Option<string>, b: Option<string>)
    ensures CompareKeys(b, a) == -CompareKeys(a, b)
    ensures CompareKeys(a, b) == 0 <==> a == b
  {
    if a.Some? && b.Some? {
      CompareSwap(a.value, b.value);
      CompareZero(a.value, b.value);
    }
  }

  lemma {:induction false} InsertSorts(sorted: seq<Group>, g: Group)
    requires NewestFirst(sorted)
    ensures NewestFirst(Insert(sorted, g))
  {
    hide CompareKeys;
    if sorted != [] {
      var n := |sorted| - 1;
      var last, init := sorted[n], sorted[..n];
      CompareKeysSwap(g.latestFinished, last.latestFinished);
      if CompareKeys(g.latestFinished, last.latestFinished) <= 0 {
        forall i | 0 <= i < n
          ensures CompareKeys(sorted[i].latestFinished, g.latestFinished) >= 0
        {
          CompareKeysTransitive(sorted[i].latestFinished, last.latestFinished, g.latestFinished);
        }
      } else {
        InsertSorts(init, g);
        InsertElements(init, g);
      }
    }
  }

  lemma InsertElements(sorted: seq<Group>, g: Group)
    ensures forall k :: 0 <= k < |Insert(sorted, g)| ==> Insert(sorted, g)[k] in sorted || Insert(sorted, g)[k] == g
  {
    hide CompareKeys;
    forall k | 0 <= k < |Insert(sorted, g)|
      ensures Insert(sorted, g)[k] in sorted || Insert(sorted, g)[k] == g
    {
      assert Insert(sorted, g)[k] in multiset(Insert(sorted, g));
    }
  }

  lemma {:induction false} SortSorts(groups: seq<Group>)
    ensures NewestFirst(SortNewestFirst(groups))
  {
    if groups != [] {
      SortSorts(groups[..|groups| - 1]);
      InsertSorts(SortNewestFirst(groups[..|groups| - 1]), groups[|groups| - 1]);
    }
  }

  /** The groups sharing one key, in order. */
  function WithKey(groups: seq<Group>, key: Option<string>): seq<Group> {
    if groups == [] then []
    else
      var rest := WithKey(groups[..|groups| - 1], key);
      if groups[|groups| - 1].latestFinished == key then rest + [groups[|groups| - 1]] else rest
  }

  /** Groups that never finished come last, and an earlier group did not finish before a later one if and only if their
      years are written in time order. */
  lemma GroupsByInstant(groups: seq<Group>, at: seq<Option<Instant>>, i: nat, j: nat)
    requires NewestFirst(groups) && |at| == |groups| && i < j < |groups|
    requires forall k :: 0 <= k < |groups| ==> Dated(groups[k].latestFinished, at[k])
    ensures at[j].Some? ==>
              && at[i].Some?
              && (CompareInstants(at[j].value, at[i].value) <= 0 <==> YearsInOrder(at[j].value, at[i].value))
  {
    hide ToRfc3339, ValidInstant, CompareInstants, Compare, YearsInOrder;
    if at[i].Some? && at[j].Some? {
      CompareSwap(ToRfc3339(at[i].value), ToRfc3339(at[j].value));
      OrderOfTexts(at[j].value, at[i].value);
    }
  }

  lemma {:induction false} InsertIsStable(sorted: seq<Group>, g: Group, key: Option<string>)
    ensures WithKey(Insert(sorted, g), key) == WithKey(sorted + [g], key)
  {
    hide CompareKeys;
    assert (sorted + [g])[..|sorted|] == sorted;
    if sorted != [] {
      var n := |sorted| - 1;
      var last, init := sorted[n], sorted[..n];
      CompareKeysSwap(g.latestFinished, last.latestFinished);
      if CompareKeys(g.latestFinished, last.latestFinished) > 0 {
        InsertIsStable(init, g, key);
        var out := Insert(init, g) + [last];
        assert out[..|out| - 1] == Insert(init, g);
        assert (init + [g])[..n] == init;
      }
    }
  }

  /** Groups come newest first, and groups with equal keys keep their order of first appearance. */
  lemma {:induction false} SortIsStable(groups: seq<Group>, key: Option<string>)
    ensures NewestFirst(SortNewestFirst(groups))
    ensures WithKey(SortNewestFirst(groups), key) == WithKey(groups, key)
  {
    SortSorts(groups);
    if groups != [] {
      var init, last := groups[..|groups| - 1], groups[|groups| - 1];
      SortIsStable(init, key);
      InsertIsStable(SortNewestFirst(init), last, key);
      var before := SortNewestFirst(init);
      assert (before + [last])[..|before|] == before;
    }
  }

  // ----- The whole payload -----

  function CountJson(n: nat): Value {
    Int(n)
  }

  function GroupJson(g: Group): Value {
    Obj(map[
      "kind" := Str(g.kind), "context" := g.context, "count" := CountJson(g.count),
      "pending" := CountJson(g.pending), "unmeasured" := CountJson(g.unmeasured), "measured" := CountJson(g.measured),
      "improved" := CountJson(g.improved), "neutral" := CountJson(g.neutral), "worsened" := CountJson(g.worsened),
      "failed" := CountJson(g.failed),
      "latest_finished_at" := (if g.latestFinished.Some? then Str(g.latestFinished.value) else Null),
      "latest_metrics" := g.latestMetrics])
  }

  function GroupsJson(groups: seq<Group>): Value {
    Arr(seq(|groups|, k requires 0 <= k < |groups| => GroupJson(groups[k])))
  }

  function NormalizedActions(actions: seq<Value>): (out: seq<Value>)
    ensures |out| == |actions|
  {
    seq(|actions|, k requires 0 <= k < |actions| => NormalizedAction(actions[k]))
  }

  /** Anything but an object with an `actions` array passes through untouched. */
  function Normalized(value: Value): Value {
    if value.Obj? && "actions" in value.fields && value.fields["actions"].Arr? then
      var actions := NormalizedActions(value.fields["actions"].items);
      Obj(value.fields["actions" := Arr(actions)]["groups" := GroupsJson(Grouped(actions))])
    else
      value
  }

  method NormalizeOutcomes(value: Value) returns (out: Value)
    requires value.Obj? && "actions" in value.fields && value.fields["actions"].Arr? ==>
               forall k :: 0 <= k < |value.fields["actions"].items| ==> NoOverflow(value.fields["actions"].items[k])
    ensures out == Normalized(value)
  {
    hide NormalizedAction, NoOverflow, Grouped, GroupJson;
    if !value.Obj? || "actions" !in value.fields || !value.fields["actions"].Arr? {
      return value;
    }
    var items := value.fields["actions"].items;
    var actions: seq<Value> := [];
    for i := 0 to |items|
      invariant actions == NormalizedActions(items[..i])
    {
      var fixed := NormalizeTimestamps(items[i]);
      actions := actions + [fixed];
      assert NormalizedActions(items[..i + 1]) == NormalizedActions(items[..i]) + [NormalizedAction(items[i])];
    }
    assert items[..|items|] == items;
    var groups := GroupActions(actions);
    out := Obj(value.fields["actions" := Arr(actions)]["groups" := GroupsJson(groups)]);
  }

  /** Normalising twice is normalising once. */
  lemma NormalizedTwice(value: Value)
    ensures Normalized(Normalized(value)) == Normalized(value)
  {
    hide NormalizedAction, Grouped, GroupsJson;
    if value.Obj? && "actions" in value.fields && value.fields["actions"].Arr? {
      var actions := NormalizedActions(value.fields["actions"].items);
      assert NormalizedActions(actions) == actions by {
        forall k | 0 <= k < |actions|
          ensures NormalizedAction(actions[k]) == actions[k]
        {
          NormalizedActionTwice(value.fields["actions"].items[k]);
        }
      }
      var fields := value.fields["actions" := Arr(actions)]["groups" := GroupsJson(Grouped(actions))];
      assert Normalized(value) == Obj(fields) && fields["actions"] == Arr(actions);
      assert fields["actions" := Arr(actions)]["groups" := GroupsJson(Grouped(actions))] == fields;
    }
  }
}
