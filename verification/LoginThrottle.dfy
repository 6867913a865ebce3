/** The per-username sign-in throttle: five failures per five minutes, kept in a capped,
    pruned, evicting map. Clock readings are integers in nanoseconds. */
module LoginThrottle {
  const MAX_FAILURES: nat := 5
  const FAILURE_WINDOW: int := 300 * 1_000_000_000
  const MAX_NAMES: nat := 1_000
  const NAMES_AFTER_EVICTION: nat := 500

  /** `prune`: the instants strictly after the cutoff, in order. */
  function Prune(cutoff: int, entries: seq<int>): (kept: seq<int>) {
    if entries == [] then []
    else
      var init := Prune(cutoff, entries[..|entries| - 1]);
      if entries[|entries| - 1] > cutoff then init + [entries[|entries| - 1]] else init
  }

  /** One name's list after `record_failure`: pruned against the first clock reading, then
      extended by the second unless already full. */
  function Recorded(entries: seq<int>, now: int, pushed: int): (entries': seq<int>) {
    var kept := Prune(now - FAILURE_WINDOW, entries);
    if |kept| < MAX_FAILURES then kept + [pushed] else kept
  }

  /** The specification of `throttled`, over any list of failure times. */
  predicate FiveRecent(times: seq<int>, now: int) {
    |Prune(now - FAILURE_WINDOW, times)| >= MAX_FAILURES
  }

  /** Any six consecutive failures span at least the whole window. */
  ghost predicate Spaced(s: seq<int>) {
    && (forall i, j :: 0 <= i < j < |s| ==> s[i] <= s[j])
    && (forall i :: 0 <= i < |s| - MAX_FAILURES ==> s[i + MAX_FAILURES] - s[i] >= FAILURE_WINDOW)
  }

  /** The capped list and the full log agree on everything inside the window at `now`. */
  ghost predicate Tracks(entries: seq<int>, log: seq<int>, now: int) {
    Prune(now - FAILURE_WINDOW, entries) == Prune(now - FAILURE_WINDOW, log)
  }

  /** The capped list holds only failures that really happened, in order. */
  ghost predicate Within(entries: seq<int>, log: seq<int>) {
    if entries == [] then true
    else if log == [] then false
    else
      var e, l := |entries| - 1, |log| - 1;
      (entries[e] == log[l] && Within(entries[..e], log[..l])) || Within(entries, log[..l])
  }

  /** What relates one name's capped list to its full log at time `now`. */
  ghost predicate Consistent(entries: seq<int>, log: seq<int>, now: int, cut: bool) {
    && Within(entries, log)
    && (forall k :: 0 <= k < |log| ==> log[k] <= now)
    && (!cut ==> Tracks(entries, log, now) && Spaced(log))
  }

  // ----- Facts about pruning -----

  lemma {:induction false} PrunePush(c: int, s: seq<int>, x: int)
    ensures Prune(c, s + [x]) == Prune(c, s) + if x > c then [x] else []
  {
    assert (s + [x])[..|s|] == s;
  }

  lemma {:induction false} PruneTwice(c: int, c': int, s: seq<int>)
    ensures Prune(c', Prune(c, s)) == Prune(if c < c' then c' else c, s)
  {
    if s != [] {
      var init, last := s[..|s| - 1], s[|s| - 1];
      PruneTwice(c, c', init);
      PrunePush(c', Prune(c, init), last);
    }
  }

  lemma {:induction false} PruneShortens(c: int, s: seq<int>)
    ensures |Prune(c, s)| <= |s|
  {
    if s != [] {
      PruneShortens(c, s[..|s| - 1]);
    }
  }

  /** Time passing never adds to the count. */
  lemma {:induction false} FiveRecentEarlier(s: seq<int>, before: int, now: int)
    requires before <= now && FiveRecent(s, now)
    ensures FiveRecent(s, before)
  {
    PruneTwice(before - FAILURE_WINDOW, now - FAILURE_WINDOW, s);
    PruneShortens(now - FAILURE_WINDOW, Prune(before - FAILURE_WINDOW, s));
  }

  lemma {:induction false} TracksLater(entries: seq<int>, log: seq<int>, before: int, now: int)
    requires before <= now && Tracks(entries, log, before)
    ensures Tracks(entries, log, now)
  {
    PruneTwice(before - FAILURE_WINDOW, now - FAILURE_WINDOW, entries);
    PruneTwice(before - FAILURE_WINDOW, now - FAILURE_WINDOW, log);
  }

  lemma {:induction false} KeepsRecent(c: int, gone: seq<int>, recent: seq<int>)
    requires (forall k :: 0 <= k < |gone| ==> gone[k] <= c) && (forall k :: 0 <= k < |recent| ==> recent[k] > c)
    ensures Prune(c, gone + recent) == recent
  {
    if recent != [] {
      var init := recent[..|recent| - 1];
      KeepsRecent(c, gone, init);
      assert gone + recent == (gone + init) + [recent[|recent| - 1]];
      PrunePush(c, gone + init, recent[|recent| - 1]);
    } else {
      assert gone + recent == gone;
      ForgetsAll(c, gone);
    }
  }

  lemma {:induction false} ForgetsAll(c: int, gone: seq<int>)
    requires forall k :: 0 <= k < |gone| ==> gone[k] <= c
    ensures Prune(c, gone) == []
  {
    if gone != [] {
      ForgetsAll(c, gone[..|gone| - 1]);
    }
  }

  /** If one failure is recent, so are all the later ones. */
  lemma {:induction false} RecentTail(c: int, s: seq<int>, n: nat)
    requires n < |s| && forall k :: n <= k < |s| ==> s[k] > c
    ensures |Prune(c, s)| >= |s| - n
  {
    if n < |s| - 1 {
      RecentTail(c, s[..|s| - 1], n);
    }
  }

  // ----- One recorded failure -----

  lemma {:induction false} WithinCounts(entries: seq<int>, log: seq<int>, c: int)
    requires Within(entries, log)
    ensures |Prune(c, entries)| <= |Prune(c, log)|
  {
    if entries != [] {
      var e, l := |entries| - 1, |log| - 1;
      if entries[e] == log[l] && Within(entries[..e], log[..l]) {
        WithinCounts(entries[..e], log[..l], c);
      } else {
        WithinCounts(entries, log[..l], c);
      }
    }
  }

  lemma {:induction false} WithinPruned(entries: seq<int>, log: seq<int>, c: int)
    requires Within(entries, log)
    ensures Within(Prune(c, entries), log)
  {
    if entries != [] {
      var e, l := |entries| - 1, |log| - 1;
      if entries[e] == log[l] && Within(entries[..e], log[..l]) {
        WithinPruned(entries[..e], log[..l], c);
        var kept := Prune(c, entries[..e]);
        assert (kept + [entries[e]])[..|kept|] == kept;
      } else {
        WithinPruned(entries, log[..l], c);
      }
    }
  }

  lemma {:induction false} RecordedWithin(entries: seq<int>, log: seq<int>, now: int, pushed: int)
    requires Within(entries, log)
    ensures Within(Recorded(entries, now, pushed), log + [pushed])
  {
    var kept := Prune(now - FAILURE_WINDOW, entries);
    WithinPruned(entries, log, now - FAILURE_WINDOW);
    assert (log + [pushed])[..|log|] == log;
    assert (kept + [pushed])[..|kept|] == kept;
  }

  lemma {:induction false} PushTracks(kept: seq<int>, log: seq<int>, c: int, pushed: int)
    requires pushed > c && Prune(c, kept) == Prune(c, log)
    ensures Prune(c, kept + [pushed]) == Prune(c, log + [pushed])
    ensures Prune(c, kept) != Prune(c, log + [pushed])
  {
    PrunePush(c, kept, pushed);
    PrunePush(c, log, pushed);
    assert |Prune(c, log + [pushed])| == |Prune(c, log)| + 1;
  }

  /** The list keeps tracking the log exactly when the failure is recorded while not throttled. */
  lemma {:induction false} RecordedTracks(entries: seq<int>, log: seq<int>, before: int, now: int, pushed: int)
    requires before <= now <= pushed && Tracks(entries, log, before)
    ensures Tracks(Recorded(entries, now, pushed), log + [pushed], pushed) <==> !FiveRecent(log, now)
  {
    var c := pushed - FAILURE_WINDOW;
    var kept := Prune(now - FAILURE_WINDOW, entries);
    assert Prune(c, kept) == Prune(c, log) && kept == Prune(now - FAILURE_WINDOW, log) by {
      TracksLater(entries, log, before, now);
      PruneTwice(now - FAILURE_WINDOW, c, log);
    }
    PushTracks(kept, log, c, pushed);
  }

  lemma {:induction false} RecordedSpaced(log: seq<int>, now: int, pushed: int)
    requires now <= pushed && Spaced(log) && !FiveRecent(log, now)
    requires forall k :: 0 <= k < |log| ==> log[k] <= now
    ensures Spaced(log + [pushed])
  {
    var n := |log| - MAX_FAILURES;
    if n >= 0 {
      assert log[n] <= now - FAILURE_WINDOW by {
        if log[n] > now - FAILURE_WINDOW {
          RecentTail(now - FAILURE_WINDOW, log, n);
        }
      }
    }
  }

  /** A sixth failure comes at least five minutes after the first, so any shorter window admits five. */
  lemma FivePerWindow(s: seq<int>, i: nat, j: nat)
    requires Spaced(s) && i + MAX_FAILURES <= j < |s|
    ensures s[j] - s[i] >= FAILURE_WINDOW
  {
    assert s[i + MAX_FAILURES] <= s[j];
  }

  /** A name that is not tracked is eventually answered wrongly: once the oldest of five
      failures expires, a sixth recorded without a check is missing from the count. */
  lemma {:induction false} UncheckedRecordingForgets(first: int, rest: seq<int>, now: int, pushed: int)
    requires |rest| == MAX_FAILURES - 1 && forall k :: 0 <= k < |rest| ==> first < rest[k]
    requires now <= pushed <= first + FAILURE_WINDOW && now < first + FAILURE_WINDOW
    requires first < pushed
    ensures FiveRecent([first] + rest + [pushed], first + FAILURE_WINDOW)
    ensures !FiveRecent(Recorded([first] + rest, now, pushed), first + FAILURE_WINDOW)
  {
    var s := [first] + rest;
    assert Recorded(s, now, pushed) == s by {
      assert [] + s == s;
      KeepsRecent(now - FAILURE_WINDOW, [], s);
    }
    assert Prune(first, s) == rest by {
      KeepsRecent(first, [first], rest);
    }
    PrunePush(first, s, pushed);
  }

  lemma {:induction false} RecordedConsistent(entries: seq<int>, log: seq<int>, before: int, now: int, pushed: int,
                                              cut: bool)
    requires before <= now <= pushed && Consistent(entries, log, before, cut)
    ensures Consistent(Recorded(entries, now, pushed), log + [pushed], pushed, cut || FiveRecent(log, now))
  {
    RecordedWithin(entries, log, now, pushed);
    if !cut && !FiveRecent(log, now) {
      RecordedTracks(entries, log, before, now, pushed);
      RecordedSpaced(log, now, pushed);
    }
  }

  lemma {:induction false} ConsistentLater(entries: seq<int>, log: seq<int>, before: int, now: int, cut: bool)
    requires before <= now && Consistent(entries, log, before, cut)
    ensures Consistent(entries, log, now, cut)
  {
    if !cut {
      TracksLater(entries, log, before, now);
    }
  }

  // ----- The shared map -----

  type Failures = map<string, seq<int>>

  function Get(m: Failures, name: string): seq<int> {
    if name in m then m[name] else []
  }

  ghost predicate AllConsistent(entries: Failures, log: Failures, now: int, cut: set<string>) {
    forall name :: Consistent(Get(entries, name), Get(log, name), now, name in cut)
  }

  /** Recording a failure for a name that is already throttled cuts its history. */
  ghost function CutBy(log: Failures, username: string, now: int): set<string> {
    if FiveRecent(Get(log, username), now) then {username} else {}
  }

  lemma {:induction false} RecordedAll(entries: Failures, log: Failures, before: int, cut: set<string>,
                                       username: string, now: int, pushed: int)
    requires before <= now <= pushed && AllConsistent(entries, log, before, cut)
    ensures AllConsistent(entries[username := Recorded(Get(entries, username), now, pushed)],
                          log[username := Get(log, username) + [pushed]], pushed, cut + CutBy(log, username, now))
  {
    RecordedConsistent(Get(entries, username), Get(log, username), before, now, pushed, username in cut);
    forall name | name != username
      ensures Consistent(Get(entries, name), Get(log, name), pushed, name in cut)
    {
      ConsistentLater(Get(entries, name), Get(log, name), before, pushed, name in cut);
    }
  }

  lemma {:induction false} EvictedAll(entries: Failures, log: Failures, now: int, cut: set<string>, gone: set<string>)
    requires AllConsistent(entries, log, now, cut)
    ensures AllConsistent(entries - gone, log, now, cut + gone)
  {
    forall name
      ensures Consistent(Get(entries - gone, name), Get(log, name), now, name in cut + gone)
    {
      assert Consistent(Get(entries, name), Get(log, name), now, name in cut);
      assert name !in gone ==> Get(entries - gone, name) == Get(entries, name);
    }
  }

  /** Over a thousand names, arbitrary ones are dropped until five hundred remain. */
  method Evict(entries: Failures) returns (kept: Failures, ghost gone: set<string>)
    ensures kept == entries - gone && |kept| <= 1_000
    ensures |entries| <= 1_000 ==> kept == entries && gone == {}
    ensures |entries| > 1_000 ==> |kept| == 500
  {
    kept, gone := entries, {};
    if |entries| > MAX_NAMES {
      while |kept| > NAMES_AFTER_EVICTION
        invariant |kept| >= NAMES_AFTER_EVICTION
        invariant kept == entries - gone
        decreases |kept|
      {
        var key :| key in kept;
        assert kept.Keys == (kept - {key}).Keys + {key};
        kept, gone := kept - {key}, gone + {key};
      }
    }
  }

  class Throttle {
    var entries: Failures
    /** Every failure recorded for each name, never pruned; the latest clock reading; and the
        names whose history was cut by an eviction or by a failure recorded while throttled. */
    ghost var log: Failures
    ghost var clock: int
    ghost var cut: set<string>
    /** Attempts that passed the check and have not finished. */
    ghost var inFlight: multiset<string>

    ghost predicate Valid()
      reads this
    {
      |entries| <= MAX_NAMES && AllConsistent(entries, log, clock, cut)
    }

    constructor (now: int)
      ensures Valid() && entries == map[] && log == map[] && clock == now && cut == {} && inFlight == multiset{}
    {
      entries, log, clock, cut, inFlight := map[], map[], now, {}, multiset{};
    }

    /** Never refuses without five real failures in the window; exact for every uncut name. */
    method Throttled(username: string, now: int) returns (refused: bool)
      requires Valid() && clock <= now
      ensures refused == FiveRecent(Get(entries, username), now)
      ensures refused ==> FiveRecent(Get(log, username), now)
      ensures username !in cut ==> (refused <==> FiveRecent(Get(log, username), now))
    {
      refused := username in entries && FiveRecent(entries[username], now);
      Answers(Get(entries, username), Get(log, username), clock, now, username in cut);
    }

    /** Logs the failure, keeps at most 1000 names, and cuts a name's history only by evicting
        it or by recording it while it is throttled. */
    method RecordFailure(username: string, now: int, pushed: int) returns (ghost evicted: set<string>)
      requires Valid() && clock <= now <= pushed
      modifies this`entries, this`log, this`clock, this`cut
      ensures Valid() && clock == pushed
      ensures log == old(log)[username := Get(old(log), username) + [pushed]]
      ensures entries == old(entries)[username := Recorded(Get(old(entries), username), now, pushed)] - evicted
      ensures cut == old(cut) + CutBy(old(log), username, now) + evicted
    {
      var updated := entries[username := Recorded(Get(entries, username), now, pushed)];
      RecordedAll(entries, log, clock, cut, username, now, pushed);
      entries, evicted := Evict(updated);
      cut := cut + CutBy(log, username, now);
      log := log[username := Get(log, username) + [pushed]];
      clock := pushed;
      EvictedAll(updated, log, clock, cut, evicted);
      cut := cut + evicted;
    }

    /** The first half of `create_session` and `reauth_session`, up to the await: an attempt that is not refused is in
        flight, with the lock released. */
    method Begin(username: string, now: int) returns (refused: bool)
      requires Valid() && clock <= now
      modifies this`inFlight
      ensures Valid()
      ensures refused == FiveRecent(Get(entries, username), now)
      ensures refused ==> FiveRecent(Get(log, username), now)
      ensures username !in cut ==> (refused <==> FiveRecent(Get(log, username), now))
      ensures inFlight == if refused then old(inFlight) else old(inFlight) + multiset{username}
    {
      refused := Throttled(username, now);
      if !refused {
        inFlight := inFlight + multiset{username};
      }
    }

    /** The second half, whatever ran in between: a failed attempt is recorded without another check. The name's history
        is cut by it exactly when five failures are recent by now. */
    method Finish(username: string, verified: bool, now: int, pushed: int) returns (ghost evicted: set<string>)
      requires Valid() && clock <= now <= pushed && username in inFlight
      modifies this
      ensures Valid() && inFlight == old(inFlight) - multiset{username}
      ensures verified ==> log == old(log) && entries == old(entries) && cut == old(cut) && evicted == {}
      ensures !verified ==>
                && log == old(log)[username := Get(old(log), username) + [pushed]]
                && entries == old(entries)[username := Recorded(Get(old(entries), username), now, pushed)] - evicted
                && cut == old(cut) + CutBy(old(log), username, now) + evicted
    {
      evicted := {};
      if !verified {
        evicted := RecordFailure(username, now, pushed);
      }
      inFlight := inFlight - multiset{username};
    }
  }

  lemma {:induction false} Answers(entries: seq<int>, log: seq<int>, before: int, now: int, cut: bool)
    requires before <= now && Consistent(entries, log, before, cut)
    ensures FiveRecent(entries, now) ==> FiveRecent(log, now)
    ensures !cut ==> (FiveRecent(entries, now) <==> FiveRecent(log, now))
    ensures !FiveRecent([], now)
  {
    WithinCounts(entries, log, now - FAILURE_WINDOW);
    ConsistentLater(entries, log, before, now, cut);
  }

  // ----- Attempts in flight, for one name -----

  /** A logged failure, and whether the capped list had room for it. */
  datatype Failure = Failure(at: int, kept: bool)

  /** One name that is never evicted: its list, its log, the attempts in flight, the last clock reading, and whether an
      attempt has passed the check since the list last grew. */
  datatype Name = Name(entries: seq<int>, log: seq<Failure>, flying: nat, clock: int, passed: bool)

  datatype Step = Check(now: int) | Fail(now: int, pushed: int) | Leave

  function Times(log: seq<Failure>): (times: seq<int>)
    ensures |times| == |log|
  {
    seq(|log|, k requires 0 <= k < |log| => log[k].at)
  }

  /** The failures that the list had room for. */
  function Kept(log: seq<Failure>): seq<int> {
    if log == [] then []
    else
      var init, last := Kept(log[..|log| - 1]), log[|log| - 1];
      if last.kept then init + [last.at] else init
  }

  predicate Possible(n: Name, s: Step) {
    match s
    case Check(now) => n.clock <= now
    case Fail(now, pushed) => n.clock <= now <= pushed && n.flying > 0
    case Leave => n.flying > 0
  }

  /** What `Begin` and `Finish` do to the name. */
  function Stepped(n: Name, s: Step): Name
    requires Possible(n, s)
  {
    match s
    case Check(now) =>
      if FiveRecent(n.entries, now) then n.(clock := now)
      else n.(flying := n.flying + 1, clock := now, passed := true)
    case Fail(now, pushed) =>
      var room := !FiveRecent(n.entries, now);
      Name(Recorded(n.entries, now, pushed), n.log + [Failure(pushed, room)], n.flying - 1, pushed, n.passed && !room)
    case Leave => n.(flying := n.flying - 1)
  }

  const FRESH := Name([], [], 0, 0, true)

  /** A run of interleaved attempts in which never more than `limit` are in flight. */
  ghost predicate IsRun(names: seq<Name>, steps: seq<Step>, limit: nat) {
    && |names| == |steps| + 1 && names[0] == FRESH
    && (forall k :: 0 <= k < |steps| ==> Possible(names[k], steps[k]) && names[k + 1] == Stepped(names[k], steps[k]))
    && (forall k :: 0 <= k < |names| ==> names[k].flying <= limit)
  }

  /** The failures logged since the list last grew. */
  function Overflow(log: seq<Failure>): nat {
    if log == [] || log[|log| - 1].kept then 0 else 1 + Overflow(log[..|log| - 1])
  }

  function Others(limit: nat): nat {
    if limit == 0 then 0 else limit - 1
  }

  ghost predicate Overflows(log: seq<Failure>, limit: nat) {
    forall n :: 0 <= n <= |log| ==> Overflow(log[..n]) <= Others(limit)
  }

  ghost predicate InOrder(log: seq<Failure>, now: int) {
    && (forall i, j :: 0 <= i < j < |log| ==> log[i].at <= log[j].at)
    && (forall k :: 0 <= k < |log| ==> log[k].at <= now)
  }

  /** What every step keeps: the list tracks the failures it had room for, which are spaced; and whoever overflows it
      was already in flight when it last grew. */
  ghost predicate Sane(n: Name, limit: nat) {
    && InOrder(n.log, n.clock) && Overflows(n.log, limit)
    && Consistent(n.entries, Kept(n.log), n.clock, false)
    && (n.passed ==> !FiveRecent(n.entries, n.clock))
    && (!n.passed ==> Overflow(n.log) + n.flying <= Others(limit))
  }

  lemma {:induction false} LogGrows(log: seq<Failure>, f: Failure, limit: nat, now: int)
    requires InOrder(log, now) && now <= f.at && Overflows(log, limit) && (!f.kept ==> Overflow(log) < Others(limit))
    ensures InOrder(log + [f], f.at) && Overflows(log + [f], limit)
    ensures Overflow(log + [f]) == if f.kept then 0 else 1 + Overflow(log)
    ensures Kept(log + [f]) == Kept(log) + if f.kept then [f.at] else []
  {
    var log' := log + [f];
    assert log'[..|log|] == log;
    forall n | 0 <= n <= |log'|
      ensures Overflow(log'[..n]) <= Others(limit)
    {
      if n <= |log| {
        assert log'[..n] == log[..n];
      } else {
        assert log'[..n] == log';
      }
    }
  }

  /** A failure the list has no room for leaves it pruned, and still tracking. */
  lemma {:induction false} FullKeepsTracking(entries: seq<int>, kept: seq<int>, before: int, now: int, pushed: int)
    requires before <= now <= pushed && Consistent(entries, kept, before, false) && FiveRecent(entries, now)
    ensures Consistent(Recorded(entries, now, pushed), kept, pushed, false)
  {
    var pruned := Prune(now - FAILURE_WINDOW, entries);
    WithinPruned(entries, kept, now - FAILURE_WINDOW);
    TracksLater(entries, kept, before, pushed);
    PruneTwice(now - FAILURE_WINDOW, pushed - FAILURE_WINDOW, entries);
  }

  lemma {:induction false} StepIsSane(n: Name, s: Step, limit: nat)
    requires Sane(n, limit) && Possible(n, s) && n.flying <= limit && Stepped(n, s).flying <= limit
    ensures Sane(Stepped(n, s), limit)
  {
    hide FiveRecent, Recorded, Overflow, Kept, Overflows, InOrder, Consistent;
    match s
    case Check(now) =>
      ConsistentLater(n.entries, Kept(n.log), n.clock, now, false);
      OrderLater(n.log, n.clock, now);
      StillRoom(n.entries, n.clock, now);
    case Fail(now, pushed) =>
      StillRoom(n.entries, n.clock, now);
      SameAnswer(n.entries, Kept(n.log), n.clock, now);
      LogGrows(n.log, Failure(pushed, !FiveRecent(n.entries, now)), limit, n.clock);
      if FiveRecent(n.entries, now) {
        FullKeepsTracking(n.entries, Kept(n.log), n.clock, now, pushed);
        assert Kept(n.log) + [] == Kept(n.log);
      } else {
        RecordedConsistent(n.entries, Kept(n.log), n.clock, now, pushed, false);
      }
    case Leave =>
  }

  lemma OrderLater(log: seq<Failure>, before: int, now: int)
    requires before <= now && InOrder(log, before)
    ensures InOrder(log, now)
  {
  }

  lemma StillRoom(entries: seq<int>, before: int, now: int)
    requires before <= now
    ensures FiveRecent(entries, now) ==> FiveRecent(entries, before)
  {
    if FiveRecent(entries, now) {
      FiveRecentEarlier(entries, before, now);
    }
  }

  lemma SameAnswer(entries: seq<int>, kept: seq<int>, before: int, now: int)
    requires before <= now && Consistent(entries, kept, before, false)
    ensures FiveRecent(entries, now) == FiveRecent(kept, now)
  {
    Answers(entries, kept, before, now, false);
  }

  lemma {:induction false} RunIsSane(names: seq<Name>, steps: seq<Step>, limit: nat, n: nat)
    requires IsRun(names, steps, limit) && n < |names|
    ensures Sane(names[n], limit)
  {
    if n == 0 {
      assert Overflow([]) == 0 && Kept([]) == [];
      assert forall n :: 0 <= n <= |FRESH.log| ==> FRESH.log[..n] == [];
    } else {
      RunIsSane(names, steps, limit, n - 1);
      hide Sane, Stepped;
      assert names[n - 1 + 1] == Stepped(names[n - 1], steps[n - 1]) && names[n].flying <= limit;
      StepIsSane(names[n - 1], steps[n - 1], limit);
    }
  }

  // ----- How many failures a window admits -----

  function CountIn(log: seq<Failure>, lo: int): nat {
    if log == [] then 0 else CountIn(log[..|log| - 1], lo) + if log[|log| - 1].at > lo then 1 else 0
  }

  /** Every failure after `lo` is one the list had room for, or one of the few that overflowed after the last such. */
  lemma {:induction false} CountByKept(log: seq<Failure>, lo: int, limit: nat, now: int)
    requires InOrder(log, now) && Overflows(log, limit) && limit > 0
    ensures CountIn(log, lo) <= limit * |Prune(lo, Kept(log))| + Overflow(log)
  {
    hide InOrder, Overflows, Prune;
    if log == [] {
      assert limit * |Prune(lo, Kept(log))| >= 0;
    } else {
      var init, last := log[..|log| - 1], log[|log| - 1];
      OrderPrefix(log, limit, now);
      CountByKept(init, lo, limit, now);
      var kept := |Prune(lo, Kept(init))|;
      if last.kept {
        PrunePush(lo, Kept(init), last.at);
        OneMoreTime(limit, kept);
        if last.at <= lo {
          NoneBefore(log, lo, now);
        }
      }
    }
  }

  lemma OrderPrefix(log: seq<Failure>, limit: nat, now: int)
    requires log != [] && InOrder(log, now) && Overflows(log, limit)
    ensures InOrder(log[..|log| - 1], now) && Overflows(log[..|log| - 1], limit)
    ensures Overflow(log[..|log| - 1]) <= Others(limit)
  {
    var init := log[..|log| - 1];
    forall n | 0 <= n <= |init|
      ensures Overflow(init[..n]) <= Others(limit)
    {
      assert init[..n] == log[..n];
    }
    assert init[..|init|] == init;
  }

  lemma {:induction false} NoneBefore(log: seq<Failure>, lo: int, now: int)
    requires log != [] && InOrder(log, now) && log[|log| - 1].at <= lo
    ensures CountIn(log, lo) == 0
  {
    var init := log[..|log| - 1];
    if init != [] {
      assert init[|init| - 1] == log[|init| - 1];
      NoneBefore(init, lo, now);
    }
  }

  /** At most five failures of a spaced list lie in a window. */
  lemma {:induction false} FiveSpaced(s: seq<int>, lo: int, hi: int)
    requires Spaced(s) && (forall k :: 0 <= k < |s| ==> s[k] <= hi) && hi - lo <= FAILURE_WINDOW
    ensures |Prune(lo, s)| <= MAX_FAILURES
  {
    var n := |s| - MAX_FAILURES;
    if n > 0 {
      var gone, recent := s[..n], s[n..];
      assert s == gone + recent;
      forall k | 0 <= k < n
        ensures gone[k] <= lo
      {
        assert s[k] <= s[n - 1] && s[n - 1 + MAX_FAILURES] - s[n - 1] >= FAILURE_WINDOW;
      }
      PruneAppend(lo, gone, recent);
      ForgetsAll(lo, gone);
      PruneShortens(lo, recent);
    } else {
      PruneShortens(lo, s);
    }
  }

  lemma {:induction false} PruneAppend(c: int, a: seq<int>, b: seq<int>)
    ensures Prune(c, a + b) == Prune(c, a) + Prune(c, b)
  {
    hide Prune;
    if b == [] {
      assert a + b == a && Prune(c, a) + [] == Prune(c, a);
      PruneNothing(c);
    } else {
      var init, last := b[..|b| - 1], b[|b| - 1];
      PruneAppend(c, a, init);
      PrunePush(c, a + init, last);
      PrunePush(c, init, last);
      assert a + b == (a + init) + [last] && b == init + [last];
    }
  }

  lemma PruneNothing(c: int)
    ensures Prune(c, []) == []
  {
  }

  /** With at most `limit` attempts in flight, no window of five minutes ever holds more than `6 * limit - 1` failures
      of a name: five one at a time. */
  lemma FailuresInFlight(names: seq<Name>, steps: seq<Step>, limit: nat, n: nat, lo: int)
    requires IsRun(names, steps, limit) && n < |names| && limit > 0 && names[n].clock - lo <= FAILURE_WINDOW
    ensures CountIn(names[n].log, lo) <= (MAX_FAILURES + 1) * limit - 1
  {
    hide IsRun;
    RunIsSane(names, steps, limit, n);
    SaneCount(names[n], limit, lo);
  }

  lemma SaneCount(n: Name, limit: nat, lo: int)
    requires Sane(n, limit) && limit > 0 && n.clock - lo <= FAILURE_WINDOW
    ensures CountIn(n.log, lo) <= (MAX_FAILURES + 1) * limit - 1
  {
    hide Prune, InOrder, Overflow, CountIn, Kept, FiveRecent;
    CountByKept(n.log, lo, limit, n.clock);
    FiveSpaced(Kept(n.log), lo, n.clock);
    assert n.log[..|n.log|] == n.log;
    AtMostTimes(limit, |Prune(lo, Kept(n.log))|, MAX_FAILURES);
  }

  lemma OneMoreTime(limit: nat, a: nat)
    ensures limit * (a + 1) == limit * a + limit && limit * a >= 0
  {
  }

  lemma AtMostTimes(limit: nat, a: nat, b: nat)
    requires a <= b
    ensures limit * a <= limit * b
  {
  }

  /** At any moment the list answers for the full log exactly when it had room for every recent failure. */
  lemma TrackedExactly(names: seq<Name>, steps: seq<Step>, limit: nat, n: nat)
    requires IsRun(names, steps, limit) && n < |names|
    ensures var name := names[n];
            Tracks(name.entries, Times(name.log), name.clock)
            <==> forall k :: 0 <= k < |name.log| && name.log[k].at > name.clock - FAILURE_WINDOW ==> name.log[k].kept
  {
    hide IsRun;
    RunIsSane(names, steps, limit, n);
    KeptExactly(names[n].log, names[n].clock - FAILURE_WINDOW);
  }

  lemma {:induction false} KeptExactly(log: seq<Failure>, c: int)
    ensures Prune(c, Kept(log)) == Prune(c, Times(log)) <==> forall k :: 0 <= k < |log| && log[k].at > c ==> log[k].kept
    ensures |Prune(c, Kept(log))| <= |Prune(c, Times(log))|
    ensures (exists k :: 0 <= k < |log| && log[k].at > c && !log[k].kept) ==>
              |Prune(c, Kept(log))| < |Prune(c, Times(log))|
  {
    if log != [] {
      var init, last := log[..|log| - 1], log[|log| - 1];
      KeptExactly(init, c);
      assert Times(log) == Times(init) + [last.at];
      PrunePush(c, Times(init), last.at);
      PrunePush(c, Kept(init), last.at);
      assert forall k :: 0 <= k < |log| ==> log[k] == if k < |init| then init[k] else last;
    }
  }

  /** With attempts one at a time nothing ever overflows, so the list always answers for the full log. */
  lemma {:induction false} OneAtATime(names: seq<Name>, steps: seq<Step>, n: nat, k: nat)
    requires IsRun(names, steps, 1) && n < |names| && k < |names[n].log|
    ensures names[n].log[k].kept
  {
    RunIsSane(names, steps, 1, n);
    assert Overflow(names[n].log[..k + 1]) == 0;
  }

  // ----- The bound is attained -----

  function Last(names: seq<Name>): Name
    requires names != []
  {
    names[|names| - 1]
  }

  lemma Then(names: seq<Name>, steps: seq<Step>, limit: nat, s: Step) returns (names': seq<Name>, steps': seq<Step>)
    requires names != [] && IsRun(names, steps, limit) && Possible(Last(names), s)
    requires Stepped(Last(names), s).flying <= limit
    ensures names' != [] && IsRun(names', steps', limit) && Last(names') == Stepped(Last(names), s)
  {
    hide Possible, Stepped;
    names', steps' := names + [Stepped(Last(names), s)], steps + [s];
  }

  /** So many attempts pass the check at one moment. */
  lemma {:induction false} Checks(names: seq<Name>, steps: seq<Step>, limit: nat, t: int, k: nat)
    returns (names': seq<Name>, steps': seq<Step>)
    requires names != [] && IsRun(names, steps, limit) && Last(names).clock <= t && !FiveRecent(Last(names).entries, t)
    requires Last(names).flying + k <= limit && k > 0
    ensures names' != [] && IsRun(names', steps', limit)
    ensures Last(names') == Last(names).(flying := Last(names).flying + k, clock := t, passed := true)
    decreases k
  {
    hide FiveRecent, IsRun;
    names', steps' := Then(names, steps, limit, Check(t));
    if k > 1 {
      names', steps' := Checks(names', steps', limit, t, k - 1);
    }
  }

  function Dropped(t: int, k: nat): (log: seq<Failure>)
    ensures |log| == k
  {
    seq(k, _ => Failure(t, false))
  }

  /** So many attempts fail at one moment while the list is full. */
  lemma {:induction false} Overflowing(names: seq<Name>, steps: seq<Step>, limit: nat, t: int, k: nat)
    returns (names': seq<Name>, steps': seq<Step>)
    requires names != [] && IsRun(names, steps, limit) && Last(names).clock <= t && Last(names).flying >= k
    requires |Last(names).entries| == MAX_FAILURES
    requires Prune(t - FAILURE_WINDOW, Last(names).entries) == Last(names).entries
    ensures names' != [] && IsRun(names', steps', limit)
    ensures var n := Last(names');
            && n.entries == Last(names).entries && n.log == Last(names).log + Dropped(t, k)
            && n.flying == Last(names).flying - k && n.clock <= t
    decreases k
  {
    hide IsRun, Prune;
    if k == 0 {
      names', steps' := names, steps;
    } else {
      RunIsWithin(names, steps, limit);
      names', steps' := Then(names, steps, limit, Fail(t, t));
      var log := Last(names).log;
      names', steps' := Overflowing(names', steps', limit, t, k - 1);
      assert log + Dropped(t, k) == (log + [Failure(t, false)]) + Dropped(t, k - 1);
    }
  }

  lemma RunIsWithin(names: seq<Name>, steps: seq<Step>, limit: nat)
    requires IsRun(names, steps, limit)
    ensures names != [] && Last(names).flying <= limit
  {
  }

  /** With four recent failures, `limit` attempts pass at `t`; one fails at once and fills the list, the others at `u`,
      while it is still full. */
  lemma {:induction false} Round(names: seq<Name>, steps: seq<Step>, limit: nat, t: int, u: int, recent: seq<int>)
    returns (names': seq<Name>, steps': seq<Step>)
    requires names != [] && IsRun(names, steps, limit) && limit > 0 && Last(names).flying == 0
    requires Last(names).clock <= t <= u
    requires recent == Prune(t - FAILURE_WINDOW, Last(names).entries) && |recent| == MAX_FAILURES - 1
    requires Prune(u - FAILURE_WINDOW, recent) == recent && u - FAILURE_WINDOW < t
    ensures names' != [] && IsRun(names', steps', limit)
    ensures var n := Last(names');
            && n.entries == recent + [t] && n.log == Last(names).log + [Failure(t, true)] + Dropped(u, limit - 1)
            && n.flying == 0 && n.clock <= u
  {
    hide IsRun, Prune;
    names', steps' := Checks(names, steps, limit, t, limit);
    names', steps' := Then(names', steps', limit, Fail(t, t));
    PrunePush(u - FAILURE_WINDOW, recent, t);
    names', steps' := Overflowing(names', steps', limit, u, limit - 1);
  }

  /** One attempt that fails, with room for it. */
  lemma {:induction false} Single(names: seq<Name>, steps: seq<Step>, limit: nat, t: int)
    returns (names': seq<Name>, steps': seq<Step>)
    requires names != [] && IsRun(names, steps, limit) && limit > 0 && Last(names).flying == 0 && Last(names).clock <= t
    requires Prune(t - FAILURE_WINDOW, Last(names).entries) == Last(names).entries
    requires |Last(names).entries| < MAX_FAILURES
    ensures names' != [] && IsRun(names', steps', limit)
    ensures var n := Last(names');
            && n.entries == Last(names).entries + [t] && n.log == Last(names).log + [Failure(t, true)]
            && n.flying == 0 && n.clock == t
  {
    hide IsRun, Prune;
    names', steps' := Then(names, steps, limit, Check(t));
    names', steps' := Then(names', steps', limit, Fail(t, t));
  }

  lemma {:induction false} AllRecent(c: int, s: seq<int>)
    requires forall k :: 0 <= k < |s| ==> s[k] > c
    ensures Prune(c, s) == s
  {
    if s != [] {
      AllRecent(c, s[..|s| - 1]);
      assert s == s[..|s| - 1] + [s[|s| - 1]];
    }
  }

  /** Four failures, one after the other. */
  lemma FourFailures(limit: nat) returns (names: seq<Name>, steps: seq<Step>)
    requires limit > 0
    ensures names != [] && IsRun(names, steps, limit)
    ensures var n := Last(names);
            && n.entries == [0, 1, 2, 3] && n.flying == 0 && n.clock == 3
            && n.log == [Failure(0, true), Failure(1, true), Failure(2, true), Failure(3, true)]
  {
    hide Prune;
    names, steps := [FRESH], [];
    assert IsRun(names, steps, limit);
    hide IsRun;
    for t := 0 to 4
      invariant names != [] && IsRun(names, steps, limit)
      invariant var n := Last(names);
                && n.flying == 0 && n.clock <= t && (t > 0 ==> n.clock == t - 1)
                && n.entries == Upto(t) && n.log == Noted(t)
    {
      AllRecent(t - FAILURE_WINDOW, Upto(t));
      names, steps := Single(names, steps, limit, t);
      assert Upto(t) + [t] == Upto(t + 1) && Noted(t) + [Failure(t, true)] == Noted(t + 1);
    }
  }

  function Upto(t: nat): (times: seq<int>)
    ensures |times| == t
  {
    seq(t, k => k)
  }

  function Noted(t: nat): (log: seq<Failure>)
    ensures |log| == t
  {
    seq(t, k => Failure(k, true))
  }

  lemma {:induction false} CountAppend(a: seq<Failure>, b: seq<Failure>, lo: int)
    ensures CountIn(a + b, lo) == CountIn(a, lo) + CountIn(b, lo)
  {
    if b == [] {
      assert a + b == a;
    } else {
      assert (a + b)[..|a + b| - 1] == a + b[..|b| - 1];
      CountAppend(a, b[..|b| - 1], lo);
    }
  }

  lemma {:induction false} CountDropped(t: int, k: nat, lo: int)
    ensures CountIn(Dropped(t, k), lo) == if t > lo then k else 0
  {
    if k > 0 {
      assert Dropped(t, k)[..k - 1] == Dropped(t, k - 1);
      CountDropped(t, k - 1, lo);
    }
  }

  lemma CountRound(log: seq<Failure>, t: int, u: int, k: nat, lo: int)
    ensures CountIn(log + [Failure(t, true)] + Dropped(u, k), lo)
         == CountIn(log, lo) + (if t > lo then 1 else 0) + (if u > lo then k else 0)
  {
    CountAppend(log + [Failure(t, true)], Dropped(u, k), lo);
    CountAppend(log, [Failure(t, true)], lo);
    CountDropped(u, k, lo);
    assert [Failure(t, true)][..0] == [];
  }

  /** The state before a round that repeats one a window ago: five failures, the oldest just expiring. */
  ghost predicate Rolling(n: Name, a: seq<int>, t: int) {
    n.flying == 0 && n.clock <= t && |a| == MAX_FAILURES && n.entries == a && a[0] == t - FAILURE_WINDOW
    && forall k :: 0 < k < MAX_FAILURES ==> t - FAILURE_WINDOW < a[k]
  }

  lemma {:induction false} NextRound(names: seq<Name>, steps: seq<Step>, limit: nat, a: seq<int>, t: int)
    returns (names': seq<Name>, steps': seq<Step>)
    requires names != [] && IsRun(names, steps, limit) && limit > 0 && Rolling(Last(names), a, t)
    requires t > MAX_FAILURES - 1
    ensures names' != [] && IsRun(names', steps', limit)
    ensures var n := Last(names');
            && n.entries == a[1..] + [t] && n.flying == 0 && n.clock <= t
            && CountIn(n.log, MAX_FAILURES - 1) == CountIn(Last(names).log, MAX_FAILURES - 1) + limit
  {
    hide IsRun, Prune, CountIn;
    var c := t - FAILURE_WINDOW;
    assert a == [a[0]] + a[1..];
    PruneAppend(c, [a[0]], a[1..]);
    ForgetsAll(c, [a[0]]);
    AllRecent(c, a[1..]);
    assert [] + a[1..] == a[1..];
    names', steps' := Round(names, steps, limit, t, t, a[1..]);
    CountRound(Last(names).log, t, t, limit - 1, MAX_FAILURES - 1);
  }

  /** From the start and with never more than `limit` in flight: four failures, a round whose overflow comes late, and
      five rounds as its failures expire. */
  lemma {:induction false} FullWindow(limit: nat) returns (names: seq<Name>, steps: seq<Step>)
    requires limit > 0
    ensures names != [] && IsRun(names, steps, limit)
    ensures Last(names).clock - (MAX_FAILURES - 1) <= FAILURE_WINDOW
    ensures CountIn(Last(names).log, MAX_FAILURES - 1) == (MAX_FAILURES + 1) * limit - 1
  {
    hide IsRun, Prune, CountIn;
    var w := FAILURE_WINDOW;
    names, steps := FourFailures(limit);
    var log := Last(names).log;
    AllRecent(4 - w, [0, 1, 2, 3]);
    AllRecent(5 - w, [0, 1, 2, 3]);
    names, steps := Round(names, steps, limit, 4, 5, [0, 1, 2, 3]);
    CountRound(log, 4, 5, limit - 1, 4);
    FourCount(log);
    assert [0, 1, 2, 3] + [4] == [0, 1, 2, 3, 4];
    names, steps := FiveRounds(names, steps, limit);
  }

  lemma CountOne(log: seq<Failure>, f: Failure, lo: int)
    ensures CountIn(log + [f], lo) == CountIn(log, lo) + if f.at > lo then 1 else 0
  {
    assert (log + [f])[..|log|] == log;
  }

  lemma FourCount(log: seq<Failure>)
    requires log == [Failure(0, true), Failure(1, true), Failure(2, true), Failure(3, true)]
    ensures CountIn(log, 4) == 0 && CountIn(log, -1) == 4
  {
    var a := [Failure(0, true)];
    var b := a + [Failure(1, true)];
    var c := b + [Failure(2, true)];
    assert log == c + [Failure(3, true)] && a == [] + [Failure(0, true)];
    assert CountIn([], 4) == 0 && CountIn([], -1) == 0;
    hide CountIn;
    CountFour(a, b, c, log, 4);
    CountFour(a, b, c, log, -1);
  }

  lemma CountFour(a: seq<Failure>, b: seq<Failure>, c: seq<Failure>, log: seq<Failure>, lo: int)
    requires a == [] + [Failure(0, true)] && b == a + [Failure(1, true)] && c == b + [Failure(2, true)]
    requires log == c + [Failure(3, true)] && CountIn([], lo) == 0
    ensures lo >= 3 ==> CountIn(log, lo) == 0
    ensures lo < 0 ==> CountIn(log, lo) == 4
  {
    hide CountIn;
    CountOne([], Failure(0, true), lo);
    CountOne(a, Failure(1, true), lo);
    CountOne(b, Failure(2, true), lo);
    CountOne(c, Failure(3, true), lo);
  }

  lemma {:induction false} FiveRounds(names: seq<Name>, steps: seq<Step>, limit: nat)
    returns (names': seq<Name>, steps': seq<Step>)
    requires names != [] && IsRun(names, steps, limit) && limit > 0
    requires Last(names).entries == [0, 1, 2, 3, 4] && Last(names).flying == 0 && Last(names).clock <= 5
    ensures names' != [] && IsRun(names', steps', limit) && Last(names').clock <= FAILURE_WINDOW + 4
    ensures CountIn(Last(names').log, 4) == CountIn(Last(names).log, 4) + 5 * limit
  {
    hide IsRun, CountIn, Prune;
    var w := FAILURE_WINDOW;
    names', steps' := NextRound(names, steps, limit, [0, 1, 2, 3, 4], w);
    assert [0, 1, 2, 3, 4][1..] + [w] == [1, 2, 3, 4, w];
    names', steps' := NextRound(names', steps', limit, [1, 2, 3, 4, w], w + 1);
    assert [1, 2, 3, 4, w][1..] + [w + 1] == [2, 3, 4, w, w + 1];
    names', steps' := NextRound(names', steps', limit, [2, 3, 4, w, w + 1], w + 2);
    assert [2, 3, 4, w, w + 1][1..] + [w + 2] == [3, 4, w, w + 1, w + 2];
    names', steps' := NextRound(names', steps', limit, [3, 4, w, w + 1, w + 2], w + 3);
    assert [3, 4, w, w + 1, w + 2][1..] + [w + 3] == [4, w, w + 1, w + 2, w + 3];
    names', steps' := NextRound(names', steps', limit, [4, w, w + 1, w + 2, w + 3], w + 4);
  }

  /** Every window of five minutes of every run within the limit holds at most so many failures. */
  ghost predicate Bounded(limit: nat, bound: int) {
    forall names: seq<Name>, steps, n: int, lo: int ::
      IsRun(names, steps, limit) && 0 <= n < |names| && names[n].clock - lo <= FAILURE_WINDOW ==>
        CountIn(names[n].log, lo) <= bound
  }

  /** How many failures a window can hold with `limit` attempts in flight: `6 * limit - 1` and no fewer. So the five of
      the design are kept exactly when attempts come one at a time. */
  lemma BoundedExactly(limit: nat, bound: int)
    requires limit > 0
    ensures Bounded(limit, bound) <==> bound >= (MAX_FAILURES + 1) * limit - 1
    ensures Bounded(limit, MAX_FAILURES) <==> limit == 1
  {
    BoundOf(limit, bound);
    BoundOf(limit, MAX_FAILURES);
  }

  lemma BoundOf(limit: nat, bound: int)
    requires limit > 0
    ensures Bounded(limit, bound) <==> bound >= (MAX_FAILURES + 1) * limit - 1
  {
    hide IsRun, CountIn;
    if bound >= (MAX_FAILURES + 1) * limit - 1 {
      forall names: seq<Name>, steps, n: int, lo: int |
        IsRun(names, steps, limit) && 0 <= n < |names| && names[n].clock - lo <= FAILURE_WINDOW
        ensures CountIn(names[n].log, lo) <= bound
      {
        FailuresInFlight(names, steps, limit, n, lo);
      }
    } else {
      var names, steps := FullWindow(limit);
      assert CountIn(names[|names| - 1].log, MAX_FAILURES - 1) > bound;
    }
  }

  /** Two attempts are enough to overflow: after four failures both pass the check and both fail, so the log of a run
      has six failures within nanoseconds, and the list of five no longer answers for it. */
  lemma TwoInFlight() returns (names: seq<Name>, steps: seq<Step>)
    ensures names != [] && IsRun(names, steps, 2)
    ensures var n := Last(names);
            && n.clock <= 4 && CountIn(n.log, -1) == 6 && n.entries == [0, 1, 2, 3, 4]
            && !Tracks(n.entries, Times(n.log), n.clock)
  {
    hide IsRun, Prune, CountIn, Tracks;
    names, steps := FourFailures(2);
    var log := Last(names).log;
    AllRecent(4 - FAILURE_WINDOW, [0, 1, 2, 3]);
    names, steps := Round(names, steps, 2, 4, 4, [0, 1, 2, 3]);
    assert [0, 1, 2, 3] + [4] == [0, 1, 2, 3, 4];
    CountRound(log, 4, 4, 1, -1);
    FourCount(log);
    TrackedExactly(names, steps, 2, |names| - 1);
    assert Last(names).log[|log| + 1] == Failure(4, false);
  }

  // ----- In plain terms -----

  lemma {:induction false} PruneCounts(cutoff: int, times: seq<int>)
    ensures |Prune(cutoff, times)| == |set k | 0 <= k < |times| && times[k] > cutoff|
  {
    var some := set k | 0 <= k < |times| && times[k] > cutoff;
    if times == [] {
      assert some == {};
    } else {
      var n := |times| - 1;
      PruneCounts(cutoff, times[..n]);
      var fewer := set k | 0 <= k < |times[..n]| && times[..n][k] > cutoff;
      assert some == if times[n] > cutoff then fewer + {n} else fewer;
    }
  }

  /** Five failures are recent when five lie less than five minutes back, in nanoseconds. */
  lemma FiveRecentExactly(times: seq<int>, now: int)
    ensures FiveRecent(times, now) <==> |set k | 0 <= k < |times| && now - times[k] < 300_000_000_000| >= 5
  {
    PruneCounts(now - FAILURE_WINDOW, times);
    assert (set k | 0 <= k < |times| && times[k] > now - FAILURE_WINDOW)
        == set k | 0 <= k < |times| && now - times[k] < 300_000_000_000;
  }
}
