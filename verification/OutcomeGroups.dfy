/** What the normalised outcome response holds, field by field, in terms of the actions it was made from. */
module OutcomeGroups {
  import opened Json
  import opened Outcomes
  import opened Timestamps
  import opened Wrappers

  // ----- Reading a response -----

  function TextIn(v: Value, key: string): Option<string> {
    if v.Obj? && key in v.fields && v.fields[key].Str? then Some(v.fields[key].s) else None
  }

  predicate Says(v: Value, key: string, text: string) {
    v.Obj? && key in v.fields && v.fields[key] == Str(text)
  }

  /** The field, or null without it. */
  function FieldOf(v: Value, key: string): Value {
    if v.Obj? && key in v.fields then v.fields[key] else Null
  }

  predicate OfKind(action: Value, kind: string) {
    match TextIn(action, "kind")
    case Some(text) => text == kind
    case None => kind == "unknown"
  }

  /** Exactly the positions of one kind, in order. */
  ghost predicate PlacesOf(actions: seq<Value>, kind: string, at: seq<nat>) {
    && (forall i, j :: 0 <= i < j < |at| ==> at[i] < at[j])
    && (forall i :: 0 <= i < |at| ==> at[i] < |actions| && OfKind(actions[at[i]], kind))
    && (forall k :: 0 <= k < |actions| && OfKind(actions[k], kind) ==> k in at)
  }

  function Taken(actions: seq<Value>, at: seq<nat>): (rows: seq<Value>)
    requires forall i :: 0 <= i < |at| ==> at[i] < |actions|
    ensures |rows| == |at|
  {
    seq(|at|, i requires 0 <= i < |at| => actions[at[i]])
  }

  function HowMany(rows: seq<Value>, key: string, text: string): Value {
    Int(|set i | 0 <= i < |rows| && Says(rows[i], key, text)|)
  }

  function Verdicts(action: Value, verdict: string): nat {
    if FieldOf(action, "outcomes").Arr? then
      var outcomes := FieldOf(action, "outcomes").items;
      |set j | 0 <= j < |outcomes| && Says(outcomes[j], "verdict", verdict)|
    else 0
  }

  function AllVerdicts(rows: seq<Value>, verdict: string): nat {
    if rows == [] then 0 else Verdicts(rows[0], verdict) + AllVerdicts(rows[1..], verdict)
  }

  predicate Candidate(row: Value, measuredOnly: bool) {
    TextIn(row, "finished_at").Some? && (measuredOnly ==> Says(row, "outcome_state", "measured"))
  }

  /** The first of the rows with the greatest finish text. */
  ghost predicate Newest(rows: seq<Value>, i: int, measuredOnly: bool) {
    && 0 <= i < |rows| && Candidate(rows[i], measuredOnly)
    && forall j :: 0 <= j < |rows| && Candidate(rows[j], measuredOnly) ==>
         var c := Compare(TextIn(rows[j], "finished_at").value, TextIn(rows[i], "finished_at").value);
         c <= 0 && (j < i ==> c < 0)
  }

  ghost predicate FirstMeasuredRow(rows: seq<Value>, i: int) {
    && 0 <= i < |rows| && Says(rows[i], "outcome_state", "measured")
    && forall j :: 0 <= j < i ==> !Says(rows[j], "outcome_state", "measured")
  }

  const COUNTS := {"count", "pending", "unmeasured", "measured", "improved", "neutral", "worsened", "failed"}

  /** The counts of a group's object. */
  ghost predicate Counted(rows: seq<Value>, v: Value) {
    && v.Obj? && v.fields.Keys == COUNTS + {"kind", "context", "latest_finished_at", "latest_metrics"}
    && v.fields["count"] == Int(|rows|)
    && v.fields["pending"] == HowMany(rows, "outcome_state", "pending")
    && v.fields["unmeasured"] == HowMany(rows, "outcome_state", "unmeasured")
    && v.fields["measured"] == HowMany(rows, "outcome_state", "measured")
    && v.fields["failed"] == HowMany(rows, "status", "failed")
    && v.fields["improved"] == Int(AllVerdicts(rows, "improved"))
    && v.fields["neutral"] == Int(AllVerdicts(rows, "neutral"))
    && v.fields["worsened"] == Int(AllVerdicts(rows, "worsened"))
  }

  /** Its latest finish and its metrics: those of the first measured row with the greatest finish text, or of the first
      measured row when no measured row has finished, or null. */
  ghost predicate Dates(rows: seq<Value>, v: Value)
    requires Counted(rows, v)
  {
    && (forall i :: Newest(rows, i, false) ==> v.fields["latest_finished_at"] == FieldOf(rows[i], "finished_at"))
    && ((forall i :: 0 <= i < |rows| ==> !Candidate(rows[i], false)) ==> v.fields["latest_finished_at"] == Null)
    && (forall i :: Newest(rows, i, true) ==> v.fields["latest_metrics"] == FieldOf(rows[i], "outcomes"))
    && ((forall i :: 0 <= i < |rows| ==> !Candidate(rows[i], true)) ==>
          && (forall i :: FirstMeasuredRow(rows, i) ==> v.fields["latest_metrics"] == FieldOf(rows[i], "outcomes"))
          && ((forall i :: 0 <= i < |rows| ==> !Says(rows[i], "outcome_state", "measured")) ==>
                v.fields["latest_metrics"] == Null))
  }

  ghost predicate Describes(rows: seq<Value>, kind: string, v: Value) {
    && Counted(rows, v) && Dates(rows, v)
    && v.fields["kind"] == Str(kind) && rows != [] && v.fields["context"] == FieldOf(rows[0], "context")
  }

  // ----- Counting -----

  lemma {:induction false} CountStateIs(rows: seq<Value>, state: string)
    ensures HowMany(rows, "outcome_state", state) == Int(CountState(rows, state))
  {
    if rows != [] {
      CountStateIs(rows[..|rows| - 1], state);
      CountStep(rows, "outcome_state", state);
    }
  }

  lemma CountStep(rows: seq<Value>, key: string, text: string)
    requires rows != []
    ensures HowMany(rows, key, text)
            == Int(HowMany(rows[..|rows| - 1], key, text).n + if Says(rows[|rows| - 1], key, text) then 1 else 0)
  {
    hide Says;
    var n := |rows| - 1;
    var all, some := set i | 0 <= i < |rows| && Says(rows[i], key, text),
                     set i | 0 <= i < |rows[..n]| && Says(rows[..n][i], key, text);
    if Says(rows[n], key, text) {
      assert all == some + {n};
    } else {
      assert all == some;
    }
  }

  lemma {:induction false} CountFailedIs(rows: seq<Value>)
    ensures HowMany(rows, "status", "failed") == Int(CountFailed(rows))
  {
    if rows != [] {
      CountFailedIs(rows[..|rows| - 1]);
      CountStep(rows, "status", "failed");
    }
  }

  lemma {:induction false} CountVerdictIs(outcomes: seq<Value>, verdict: string)
    ensures HowMany(outcomes, "verdict", verdict) == Int(CountVerdict(outcomes, verdict))
  {
    if outcomes != [] {
      CountVerdictIs(outcomes[..|outcomes| - 1], verdict);
      CountStep(outcomes, "verdict", verdict);
    }
  }

  lemma VerdictsIs(action: Value, verdict: string)
    ensures Verdicts(action, verdict) == CountVerdict(OutcomesOf(action), verdict)
  {
    CountVerdictIs(OutcomesOf(action), verdict);
  }

  lemma {:induction false} AllVerdictsSnoc(rows: seq<Value>, row: Value, verdict: string)
    ensures AllVerdicts(rows + [row], verdict) == AllVerdicts(rows, verdict) + Verdicts(row, verdict)
  {
    hide Verdicts;
    if rows == [] {
      assert [] + [row] == [row];
    } else {
      AllVerdictsSnoc(rows[1..], row, verdict);
      assert (rows + [row])[1..] == rows[1..] + [row];
    }
  }

  lemma {:induction false} CountVerdictsIs(rows: seq<Value>, verdict: string)
    ensures AllVerdicts(rows, verdict) == CountVerdicts(rows, verdict)
  {
    hide Verdicts, CountVerdict, OutcomesOf;
    if rows != [] {
      var n := |rows| - 1;
      CountVerdictsIs(rows[..n], verdict);
      VerdictsIs(rows[n], verdict);
      AllVerdictsSnoc(rows[..n], rows[n], verdict);
      assert rows[..n] + [rows[n]] == rows;
    }
  }

  // ----- One group -----

  lemma CandidateIs(row: Value, measuredOnly: bool)
    ensures Candidate(row, measuredOnly) == Qualifies(row, measuredOnly) && TextIn(row, "finished_at") == Finished(row)
  {
  }

  lemma LatestIsNewest(rows: seq<Value>, measuredOnly: bool)
    ensures forall i :: Newest(rows, i, measuredOnly) ==> Latest(rows, measuredOnly) == Some(i)
    ensures Latest(rows, measuredOnly).None? <==> forall i :: 0 <= i < |rows| ==> !Candidate(rows[i], measuredOnly)
  {
    hide Compare, Latest, TextIn, Says, State, Finished, Candidate;
    forall j: nat | j < |rows|
      ensures Candidate(rows[j], measuredOnly) == Qualifies(rows[j], measuredOnly)
      ensures TextIn(rows[j], "finished_at") == Finished(rows[j])
    {
      CandidateIs(rows[j], measuredOnly);
    }
    LatestQualifies(rows, measuredOnly);
    forall i: nat | i < |rows| && Candidate(rows[i], measuredOnly)
      ensures Latest(rows, measuredOnly).Some?
      ensures Newest(rows, i, measuredOnly) ==> Latest(rows, measuredOnly) == Some(i)
    {
      LatestIsFirstMaximum(rows, measuredOnly, i);
      var r := Latest(rows, measuredOnly).value;
      CompareSwap(Finished(rows[i]).value, Finished(rows[r]).value);
    }
  }

  lemma {:induction false} FirstMeasuredIs(rows: seq<Value>)
    ensures forall i :: FirstMeasuredRow(rows, i) ==> FirstMeasured(rows) == Some(i)
    ensures FirstMeasured(rows).None? <==> forall i :: 0 <= i < |rows| ==> !Says(rows[i], "outcome_state", "measured")
  {
    if rows != [] {
      var n := |rows| - 1;
      FirstMeasuredIs(rows[..n]);
      MeasuredIs(rows[n]);
      hide Says, State;
      assert forall i :: 0 <= i < n ==> rows[..n][i] == rows[i];
      forall i | FirstMeasuredRow(rows, i)
        ensures FirstMeasured(rows) == Some(i)
      {
        if i < n {
          assert FirstMeasuredRow(rows[..n], i);
        }
      }
    }
  }

  lemma MeasuredIs(row: Value)
    ensures Says(row, "outcome_state", "measured") <==> State(row) == Some("measured")
  {
  }

  lemma SummaryCounted(kind: string, rows: seq<Value>)
    ensures Counted(rows, GroupJson(Summary(kind, rows)))
  {
    CountStateIs(rows, "pending");
    CountStateIs(rows, "unmeasured");
    CountStateIs(rows, "measured");
    CountFailedIs(rows);
    CountVerdictsIs(rows, "improved");
    CountVerdictsIs(rows, "neutral");
    CountVerdictsIs(rows, "worsened");
    hide CountState, CountFailed, CountVerdicts, AllVerdicts, HowMany, LatestFinished, LatestMetrics;
    FieldsOfGroup(Summary(kind, rows));
  }

  lemma FieldsOfGroup(g: Group)
    ensures var v := GroupJson(g);
            && v.Obj? && v.fields.Keys == COUNTS + {"kind", "context", "latest_finished_at", "latest_metrics"}
            && v.fields["count"] == Int(g.count) && v.fields["pending"] == Int(g.pending)
            && v.fields["unmeasured"] == Int(g.unmeasured) && v.fields["measured"] == Int(g.measured)
            && v.fields["improved"] == Int(g.improved) && v.fields["neutral"] == Int(g.neutral)
            && v.fields["worsened"] == Int(g.worsened) && v.fields["failed"] == Int(g.failed)
            && v.fields["kind"] == Str(g.kind) && v.fields["context"] == g.context
            && v.fields["latest_finished_at"] == (if g.latestFinished.Some? then Str(g.latestFinished.value) else Null)
            && v.fields["latest_metrics"] == g.latestMetrics
  {
    FieldNames(g);
    hide COUNTS;
  }

  lemma FieldNames(g: Group)
    ensures GroupJson(g).Obj?
    ensures GroupJson(g).fields.Keys == COUNTS + {"kind", "context", "latest_finished_at", "latest_metrics"}
  {
  }

  lemma SummaryDates(kind: string, rows: seq<Value>)
    requires Counted(rows, GroupJson(Summary(kind, rows)))
    ensures Dates(rows, GroupJson(Summary(kind, rows)))
  {
    LatestIsNewest(rows, false);
    LatestIsNewest(rows, true);
    FirstMeasuredIs(rows);
    FieldsOfGroup(Summary(kind, rows));
    hide Latest, FirstMeasured, CountState, CountFailed, CountVerdicts, Newest, FirstMeasuredRow, GroupJson, Counted,
      Says;
    forall i | Newest(rows, i, false)
      ensures LatestFinished(rows) == TextIn(rows[i], "finished_at")
    {
      NewestInRows(rows, i, false);
    }
    forall i | Newest(rows, i, true)
      ensures LatestMetrics(rows) == FieldOf(rows[i], "outcomes")
    {
      NewestInRows(rows, i, true);
    }
  }

  lemma NewestInRows(rows: seq<Value>, i: int, measuredOnly: bool)
    requires Newest(rows, i, measuredOnly)
    ensures 0 <= i < |rows| && TextIn(rows[i], "finished_at").Some?
    ensures FieldOf(rows[i], "finished_at") == Str(TextIn(rows[i], "finished_at").value)
  {
  }

  // ----- All groups -----

  lemma OfKindIs(action: Value, kind: string)
    ensures OfKind(action, kind) <==> Kind(action) == kind
  {
  }

  lemma {:induction false} RowsArePlaces(actions: seq<Value>, kind: string) returns (at: seq<nat>)
    ensures PlacesOf(actions, kind, at) && Rows(actions, kind) == Taken(actions, at)
  {
    at := [];
    if actions != [] {
      var n := |actions| - 1;
      at := RowsArePlaces(actions[..n], kind);
      OfKindIs(actions[n], kind);
      PlacesNext(actions, kind, at);
      hide OfKind, Kind, PlacesOf;
      at := if OfKind(actions[n], kind) then at + [n] else at;
    }
  }

  lemma PlacesNext(actions: seq<Value>, kind: string, at: seq<nat>)
    requires actions != [] && PlacesOf(actions[..|actions| - 1], kind, at)
    ensures var n := |actions| - 1;
            var next := if OfKind(actions[n], kind) then at + [n] else at;
            && PlacesOf(actions, kind, next)
            && Taken(actions, next)
               == Taken(actions[..n], at) + if OfKind(actions[n], kind) then [actions[n]] else []
  {
    hide OfKind;
    var n := |actions| - 1;
    if OfKind(actions[n], kind) {
      PlacesWith(actions[..n], kind, at, actions[n]);
    } else {
      PlacesWithout(actions[..n], kind, at, actions[n]);
    }
    assert actions[..n] + [actions[n]] == actions;
  }

  lemma PlacesWith(actions: seq<Value>, kind: string, at: seq<nat>, action: Value)
    requires PlacesOf(actions, kind, at) && OfKind(action, kind)
    ensures PlacesOf(actions + [action], kind, at + [|actions|])
    ensures Taken(actions + [action], at + [|actions|]) == Taken(actions, at) + [action]
  {
    hide OfKind;
    var all, next := actions + [action], at + [|actions|];
    forall k | 0 <= k < |all| && OfKind(all[k], kind)
      ensures k in next
    {
      if k < |actions| {
        assert OfKind(actions[k], kind);
      }
    }
  }

  lemma PlacesWithout(actions: seq<Value>, kind: string, at: seq<nat>, action: Value)
    requires PlacesOf(actions, kind, at) && !OfKind(action, kind)
    ensures PlacesOf(actions + [action], kind, at) && Taken(actions + [action], at) == Taken(actions, at) + []
  {
    hide OfKind;
    var all := actions + [action];
    forall k | 0 <= k < |all| && OfKind(all[k], kind)
      ensures k in at
    {
      assert OfKind(actions[k], kind);
    }
  }

  lemma SummaryDescribes(actions: seq<Value>, kind: string)
    returns (at: seq<nat>)
    requires kind in Kinds(actions)
    ensures PlacesOf(actions, kind, at) && at != []
    ensures Describes(Taken(actions, at), kind, GroupJson(Summary(kind, Rows(actions, kind))))
  {
    at := RowsArePlaces(actions, kind);
    var rows := Rows(actions, kind);
    KindHasRows(actions, kind);
    SummaryCounted(kind, rows);
    SummaryDates(kind, rows);
    FieldsOfGroup(Summary(kind, rows));
    hide GroupJson, Counted, Dates, Rows, CountState, CountFailed, CountVerdicts, LatestFinished, LatestMetrics, Kinds;
    assert OrNull(Get(rows[0], "context")) == FieldOf(rows[0], "context");
  }

  lemma {:induction false} KindHasRows(actions: seq<Value>, kind: string)
    requires kind in Kinds(actions)
    ensures Rows(actions, kind) != []
  {
    hide Kind;
    var n := |actions| - 1;
    if kind in Kinds(actions[..n]) {
      KindHasRows(actions[..n], kind);
    }
  }

  /** The kinds come in the order in which they first appear. */
  ghost predicate Appears(actions: seq<Value>, kind: string, k: int) {
    && 0 <= k < |actions| && OfKind(actions[k], kind)
    && forall j :: 0 <= j < k ==> !OfKind(actions[j], kind)
  }

  lemma {:induction false} KindsInOrder(actions: seq<Value>, i: nat, j: nat, a: int, b: int)
    requires i < j < |Kinds(actions)|
    requires Appears(actions, Kinds(actions)[i], a) && Appears(actions, Kinds(actions)[j], b)
    ensures a < b
  {
    var n := |actions| - 1;
    var init, kinds := actions[..n], Kinds(actions);
    OfKindIs(actions[n], kinds[i]);
    OfKindIs(actions[n], kinds[j]);
    var k := KindAppears(init, i);
    hide OfKind, Kind;
    assert forall k :: 0 <= k < n ==> init[k] == actions[k];
    assert Kinds(init)[i] == kinds[i];
    assert a <= k < n;
    if b < n {
      if j < |Kinds(init)| {
        KindsInOrder(init, i, j, a, b);
      } else {
        KindsCover(init, b);
        OfKindIs(init[b], kinds[j]);
      }
    }
  }

  lemma KindsCover(actions: seq<Value>, k: nat)
    requires k < |actions|
    ensures Kind(actions[k]) in Kinds(actions)
  {
    KindsAreDistinct(actions);
  }

  lemma {:induction false} KindAppears(actions: seq<Value>, i: nat) returns (k: nat)
    requires i < |Kinds(actions)|
    ensures k < |actions| && OfKind(actions[k], Kinds(actions)[i])
  {
    var n := |actions| - 1;
    var init := actions[..n];
    if i < |Kinds(init)| {
      k := KindAppears(init, i);
    } else {
      k := n;
      OfKindIs(actions[n], Kind(actions[n]));
    }
  }

  /** The position at which a kind first appears. */
  lemma FirstAppearance(actions: seq<Value>, kind: string, at: seq<nat>)
    requires PlacesOf(actions, kind, at) && at != []
    ensures forall k :: Appears(actions, kind, k) <==> k == at[0]
  {
    hide OfKind;
    assert forall i :: 0 <= i < |at| ==> at[0] <= at[i];
  }

  // ----- The order of the groups -----

  function KindIn(v: Value): string {
    if TextIn(v, "kind").Some? then TextIn(v, "kind").value else ""
  }

  /** One group comes before another: it finished later, or they finished alike and its kind appeared earlier. A group
      that never finished comes after those that did. */
  ghost predicate ComesFirst(actions: seq<Value>, v: Value, w: Value) {
    var x, y := TextIn(v, "latest_finished_at"), TextIn(w, "latest_finished_at");
    if x == y then
      forall a, b :: Appears(actions, KindIn(v), a) && Appears(actions, KindIn(w), b) ==> a < b
    else x.Some? && (y.Some? ==> Compare(x.value, y.value) > 0)
  }

  ghost predicate Earlier(kinds: seq<string>, a: string, b: string) {
    forall r, q :: 0 <= r < |kinds| && 0 <= q < |kinds| && kinds[r] == a && kinds[q] == b ==> r < q
  }

  /** Groups with one key stand in the order of their kinds. */
  ghost predicate Stable(groups: seq<Group>, kinds: seq<string>) {
    forall i, j :: 0 <= i < j < |groups| && groups[i].latestFinished == groups[j].latestFinished ==>
      Earlier(kinds, groups[i].kind, groups[j].kind)
  }

  /** The kinds of the groups are among the first `n`. */
  ghost predicate Among(groups: seq<Group>, kinds: seq<string>, n: nat) {
    n <= |kinds| && forall i :: 0 <= i < |groups| ==> groups[i].kind in kinds[..n]
  }

  ghost predicate Distinct(kinds: seq<string>) {
    forall r, q :: 0 <= r < q < |kinds| ==> kinds[r] != kinds[q]
  }

  lemma {:induction false} InsertStays(sorted: seq<Group>, g: Group, kinds: seq<string>, n: nat)
    requires Distinct(kinds) && n < |kinds| && g.kind == kinds[n] && Among(sorted, kinds, n) && Stable(sorted, kinds)
    ensures Stable(Insert(sorted, g), kinds)
  {
    hide CompareKeys, Distinct, Among, Stable;
    if sorted != [] && CompareKeys(g.latestFinished, sorted[|sorted| - 1].latestFinished) > 0 {
      var m := |sorted| - 1;
      AmongPart(sorted, kinds, n);
      StablePart(sorted, kinds);
      InsertStays(sorted[..m], g, kinds, n);
      InsertElements(sorted[..m], g);
      CompareKeysSwap(g.latestFinished, sorted[m].latestFinished);
      SnocStays(sorted, g, Insert(sorted[..m], g), kinds);
    } else {
      AppendStays(sorted, g, kinds, n);
    }
  }

  lemma StablePart(groups: seq<Group>, kinds: seq<string>)
    requires groups != [] && Stable(groups, kinds)
    ensures Stable(groups[..|groups| - 1], kinds)
  {
    hide Earlier;
  }

  lemma SnocStays(sorted: seq<Group>, g: Group, front: seq<Group>, kinds: seq<string>)
    requires sorted != [] && Stable(sorted, kinds) && Stable(front, kinds)
    requires g.latestFinished != sorted[|sorted| - 1].latestFinished
    requires forall k :: 0 <= k < |front| ==> front[k] in sorted[..|sorted| - 1] || front[k] == g
    ensures Stable(front + [sorted[|sorted| - 1]], kinds)
  {
    hide Earlier;
    var m := |sorted| - 1;
    forall i | 0 <= i < |front| && front[i].latestFinished == sorted[m].latestFinished
      ensures Earlier(kinds, front[i].kind, sorted[m].kind)
    {
      var k :| 0 <= k < m && sorted[..m][k] == front[i];
      assert sorted[k] == front[i];
    }
  }

  lemma AmongPart(groups: seq<Group>, kinds: seq<string>, n: nat)
    requires groups != [] && Among(groups, kinds, n)
    ensures Among(groups[..|groups| - 1], kinds, n)
  {
  }

  lemma AmongAfter(sorted: seq<Group>, g: Group, out: seq<Group>, kinds: seq<string>, n: nat)
    requires n < |kinds| && g.kind == kinds[n] && Among(sorted, kinds, n)
    requires forall k :: 0 <= k < |out| ==> out[k] in sorted || out[k] == g
    ensures Among(out, kinds, n + 1)
  {
    assert kinds[..n + 1] == kinds[..n] + [kinds[n]];
  }

  lemma AppendStays(sorted: seq<Group>, g: Group, kinds: seq<string>, n: nat)
    requires Distinct(kinds) && n < |kinds| && g.kind == kinds[n] && Among(sorted, kinds, n) && Stable(sorted, kinds)
    ensures Stable(sorted + [g], kinds)
  {
    hide Earlier;
    forall i | 0 <= i < |sorted|
      ensures Earlier(kinds, sorted[i].kind, g.kind)
    {
      LaterKind(kinds, sorted[i].kind, n);
    }
  }

  lemma LaterKind(kinds: seq<string>, kind: string, n: nat)
    requires Distinct(kinds) && n < |kinds| && kind in kinds[..n]
    ensures Earlier(kinds, kind, kinds[n])
  {
    var k :| 0 <= k < n && kinds[k] == kind;
  }

  lemma {:induction false} SortStays(groups: seq<Group>, kinds: seq<string>)
    requires Distinct(kinds) && |groups| <= |kinds| && forall k :: 0 <= k < |groups| ==> groups[k].kind == kinds[k]
    ensures Stable(SortNewestFirst(groups), kinds) && Among(SortNewestFirst(groups), kinds, |groups|)
  {
    if groups != [] {
      var n := |groups| - 1;
      var sorted := SortNewestFirst(groups[..n]);
      SortStays(groups[..n], kinds);
      InsertStays(sorted, groups[n], kinds, n);
      InsertElements(sorted, groups[n]);
      hide Stable, Distinct;
      AmongAfter(sorted, groups[n], Insert(sorted, groups[n]), kinds, n);
    }
  }

  /** The object describes exactly the actions of its kind. */
  ghost predicate ShowsKind(actions: seq<Value>, v: Value) {
    exists at: seq<nat> :: PlacesOf(actions, KindIn(v), at) && Describes(Taken(actions, at), KindIn(v), v)
  }

  ghost predicate HasGroup(groups: seq<Value>, action: Value) {
    exists i :: 0 <= i < |groups| && OfKind(action, KindIn(groups[i]))
  }

  lemma SummaryShows(actions: seq<Value>, g: Group)
    requires g.kind in Kinds(actions) && g == Summary(g.kind, Rows(actions, g.kind))
    ensures ShowsKind(actions, GroupJson(g))
  {
    hide GroupJson, Kinds, Describes, Rows, Summary, KindIn;
    KindOfGroup(g);
    var at := SummaryDescribes(actions, g.kind);
  }

  /** The groups of a response: one for each kind, of exactly the actions of that kind, newest first, and those that
      finished alike in the order in which their kinds appear. */
  lemma GroupsExactly(actions: seq<Value>)
    ensures var groups := GroupsJson(Grouped(actions)).items;
            && (forall i :: 0 <= i < |groups| ==> ShowsKind(actions, groups[i]))
            && (forall k :: 0 <= k < |actions| ==> HasGroup(groups, actions[k]))
            && (forall i, j :: 0 <= i < j < |groups| ==>
                  KindIn(groups[i]) != KindIn(groups[j]) && ComesFirst(actions, groups[i], groups[j]))
  {
    hide Grouped, GroupJson, Kinds, OfKind, Kind, ShowsKind, Rows, Summary, ComesFirst, KindIn;
    var list, groups := Grouped(actions), GroupsJson(Grouped(actions)).items;
    GroupsAreTheKinds(actions);
    forall i | 0 <= i < |groups|
      ensures KindIn(groups[i]) == list[i].kind && ShowsKind(actions, groups[i])
    {
      assert list[i] in list && groups[i] == GroupJson(list[i]);
      KindOfGroup(list[i]);
      SummaryShows(actions, list[i]);
    }
    forall k | 0 <= k < |actions|
      ensures HasGroup(groups, actions[k])
    {
      var i := KindIsShown(actions, k);
      assert KindIn(groups[i]) == list[i].kind;
    }
    forall i, j | 0 <= i < j < |groups|
      ensures KindIn(groups[i]) != KindIn(groups[j]) && ComesFirst(actions, groups[i], groups[j])
    {
      GroupsInOrder(actions, i, j);
    }
  }

  lemma KindIsShown(actions: seq<Value>, k: nat) returns (i: nat)
    requires k < |actions|
    ensures i < |Grouped(actions)| && OfKind(actions[k], Grouped(actions)[i].kind)
  {
    hide Grouped, Kinds, OfKind, Kind, Rows, Summary;
    GroupsAreTheKinds(actions);
    var kind, list := Kind(actions[k]), Grouped(actions);
    OfKindIs(actions[k], kind);
    SummaryKind(kind, Rows(actions, kind));
    i :| 0 <= i < |list| && list[i] == Summary(kind, Rows(actions, kind));
  }

  lemma KindOfGroup(g: Group)
    ensures KindIn(GroupJson(g)) == g.kind && TextIn(GroupJson(g), "latest_finished_at") == g.latestFinished
  {
    FieldsOfGroup(g);
    hide GroupJson;
  }

  lemma SummaryKind(kind: string, rows: seq<Value>)
    ensures Summary(kind, rows).kind == kind
  {
  }

  lemma GroupsInOrder(actions: seq<Value>, i: nat, j: nat)
    requires i < j < |Grouped(actions)|
    ensures ComesFirst(actions, GroupJson(Grouped(actions)[i]), GroupJson(Grouped(actions)[j]))
  {
    hide GroupJson, Kinds, OfKind, Kind, Rows, Summary, KindIn, SortNewestFirst, Appears, Compare;
    var kinds, list := Kinds(actions), Grouped(actions);
    var summaries := Summaries(actions, kinds);
    KindsAreDistinct(actions);
    forall k | 0 <= k < |kinds|
      ensures summaries[k].kind == kinds[k]
    {
      SummaryKind(kinds[k], Rows(actions, kinds[k]));
    }
    SortStays(summaries, kinds);
    SortSorts(summaries);
    KindOfGroup(list[i]);
    KindOfGroup(list[j]);
    CompareKeysSwap(list[i].latestFinished, list[j].latestFinished);
    var r :| 0 <= r < |kinds| && kinds[r] == list[i].kind;
    var q :| 0 <= q < |kinds| && kinds[q] == list[j].kind;
    if list[i].latestFinished == list[j].latestFinished {
      assert r < q;
      forall a, b | Appears(actions, kinds[r], a) && Appears(actions, kinds[q], b)
        ensures a < b
      {
        KindsInOrder(actions, r, q, a, b);
      }
    }
  }

  // ----- The whole response -----

  /** One action before and after: its three time fields are texts where they were tuples, or null where they were no
      date-time; nothing else is touched. */
  ghost predicate Repairs(a: Value, b: Value) {
    if !a.Obj? then b == a
    else
      && b.Obj? && b.fields.Keys == a.fields.Keys
      && forall key :: key in a.fields ==>
           b.fields[key] == if key in ["finished_at", "approved_at", "next_measurement_due"] && a.fields[key].Arr?
                            then TupleText(a.fields[key].items) else a.fields[key]
  }

  function TupleText(arr: seq<Value>): Value {
    if TimeTupleToIso(arr).Text? then Str(TimeTupleToIso(arr).text) else Null
  }

  /** A response with an action list keeps everything else, has its actions repaired in place, and gains the groups of
      the repaired actions. Any other response is returned as it is. */
  lemma ResponseExactly(value: Value)
    ensures var out := Normalized(value);
            if value.Obj? && "actions" in value.fields && value.fields["actions"].Arr? then
              && out.Obj? && out.fields.Keys == value.fields.Keys + {"groups"}
              && (forall key :: key in value.fields && key != "actions" && key != "groups" ==>
                    out.fields[key] == value.fields[key])
              && out.fields["actions"].Arr?
              && var before, after := value.fields["actions"].items, out.fields["actions"].items;
                 && |after| == |before| && (forall k :: 0 <= k < |before| ==> Repairs(before[k], after[k]))
                 && out.fields["groups"] == GroupsJson(Grouped(after))
            else out == value
  {
    hide Grouped, GroupsJson, TimeTupleToIso;
    assert "actions" != "groups" by {
      assert |"actions"| != |"groups"|;
    }
  }
}
