/** The Discord forwarding throttle: a pruned, bounded bucket that must answer as the full history of calls would. Clock
    readings are naturals in nanoseconds. Every task reads the clock before it takes the lock, so the readings may come
    in any order. */
module DiscordThrottle {
  const SECOND: nat := 1_000_000_000
  const DUPLICATE_SUPPRESSION_WINDOW: nat := 600 * SECOND
  const RATE_WINDOW: nat := 60 * SECOND
  const MAX_FORWARDS_PER_MINUTE: nat := 20

  datatype ForwardDecision = Send | DuplicateWithinWindow | RateLimited

  /** One call: the message, the caller's clock reading, and whether the message was forwarded. */
  datatype Call = Call(message: string, now: nat, sent: bool)

  // ----- The specification: decisions read off the whole history -----

  /** No call since has read a clock a whole window past this send. */
  ghost predicate Held(calls: seq<Call>, k: nat, window: nat) {
    k < |calls| && calls[k].sent && forall j :: k < j < |calls| ==> calls[j].now - calls[k].now < window
  }

  /** And neither has the present one. */
  ghost predicate HeldAt(calls: seq<Call>, k: nat, now: nat, window: nat) {
    Held(calls, k, window) && now - calls[k].now < window
  }

  /** How many of the first `n` calls are sends held at `now`. */
  ghost function CountHeld(calls: seq<Call>, n: nat, now: nat): (count: nat)
    ensures count <= n
  {
    if n == 0 then 0 else CountHeld(calls, n - 1, now) + if HeldAt(calls, n - 1, now, RATE_WINDOW) then 1 else 0
  }

  ghost predicate Suppressed(calls: seq<Call>, message: string, now: nat) {
    exists k: nat :: HeldAt(calls, k, now, DUPLICATE_SUPPRESSION_WINDOW) && calls[k].message == message
  }

  ghost function Decide(calls: seq<Call>, message: string, now: nat): ForwardDecision {
    if Suppressed(calls, message, now) then DuplicateWithinWindow
    else if CountHeld(calls, |calls|, now) >= MAX_FORWARDS_PER_MINUTE then RateLimited
    else Send
  }

  /** The histories that runs produce: a message was forwarded exactly when `Decide` said so over everything before. */
  ghost predicate Admissible(calls: seq<Call>) {
    forall k :: 0 <= k < |calls| ==> (calls[k].sent <==> Decide(calls[..k], calls[k].message, calls[k].now).Send?)
  }

  /** No reading is overtaken by more than `skew`. */
  ghost predicate Overtaken(calls: seq<Call>, skew: nat) {
    forall j, k :: 0 <= j < k < |calls| ==> calls[j].now <= calls[k].now + skew
  }

  // ----- What the specification guarantees -----

  /** Number of sends with `lo < now <= hi`. */
  ghost function CountIn(calls: seq<Call>, lo: int, hi: int): (n: nat)
    ensures n <= |calls|
  {
    if calls == [] then 0
    else
      var last := calls[|calls| - 1];
      CountIn(calls[..|calls| - 1], lo, hi) + if last.sent && lo < last.now <= hi then 1 else 0
  }

  lemma AdmissiblePrefix(calls: seq<Call>, n: nat)
    requires Admissible(calls) && n <= |calls|
    ensures Admissible(calls[..n])
  {
    hide Decide;
    forall k | 0 <= k < n
      ensures calls[..n][..k] == calls[..k]
    {
    }
  }

  /** Sends of a short window are still held at its end. */
  lemma {:induction false} WindowIsHeld(calls: seq<Call>, n: nat, lo: int, hi: int, now: nat)
    requires n <= |calls|
    requires forall k :: 0 <= k < n && calls[k].sent && lo < calls[k].now <= hi ==> HeldAt(calls, k, now, RATE_WINDOW)
    ensures CountIn(calls[..n], lo, hi) <= CountHeld(calls, n, now)
  {
    hide HeldAt;
    if n > 0 {
      WindowIsHeld(calls, n - 1, lo, hi, now);
      assert calls[..n][..n - 1] == calls[..n - 1];
    }
  }

  lemma StillHeld(calls: seq<Call>, skew: nat, n: nat, k: nat)
    requires Overtaken(calls, skew) && k < n < |calls| && calls[k].sent
    requires calls[n].now + skew < calls[k].now + RATE_WINDOW
    ensures HeldAt(calls[..n], k, calls[n].now, RATE_WINDOW)
  {
    forall j | k < j < n
      ensures calls[..n][j].now - calls[..n][k].now < RATE_WINDOW
    {
      assert calls[j].now <= calls[n].now + skew;
    }
  }

  lemma SendHasRoom(calls: seq<Call>, n: nat)
    requires Admissible(calls) && n < |calls| && calls[n].sent
    ensures CountHeld(calls[..n], n, calls[n].now) < MAX_FORWARDS_PER_MINUTE
    ensures !Suppressed(calls[..n], calls[n].message, calls[n].now)
  {
    hide Suppressed, CountHeld;
    assert Decide(calls[..n], calls[n].message, calls[n].now).Send?;
  }

  /** Any window of a minute less the skew, wherever it starts, holds at most 20 sends. */
  lemma {:induction false} AtMostTwentyPerWindow(calls: seq<Call>, skew: nat, t: int)
    requires Admissible(calls) && Overtaken(calls, skew)
    ensures CountIn(calls, t - RATE_WINDOW + skew, t) <= MAX_FORWARDS_PER_MINUTE
  {
    hide Decide, HeldAt, CountHeld, Admissible;
    if calls != [] {
      var n := |calls| - 1;
      var last, before, lo := calls[n], calls[..n], t - RATE_WINDOW + skew;
      if last.sent && lo < last.now <= t {
        SendHasRoom(calls, n);
        forall k | 0 <= k < n && before[k].sent && lo < before[k].now <= t
          ensures HeldAt(before, k, last.now, RATE_WINDOW)
        {
          StillHeld(calls, skew, n, k);
        }
        WindowIsHeld(before, n, lo, t, last.now);
        assert before[..n] == before;
      } else {
        AdmissiblePrefix(calls, n);
        AtMostTwentyPerWindow(before, skew, t);
      }
    }
  }

  /** So when the readings come in order, any minute holds at most 20. */
  lemma AtMostTwentyPerMinute(calls: seq<Call>, t: int)
    requires Admissible(calls) && Overtaken(calls, 0)
    ensures CountIn(calls, t - RATE_WINDOW, t) <= MAX_FORWARDS_PER_MINUTE
  {
    AtMostTwentyPerWindow(calls, 0, t);
  }

  /** Two sends of the same text are at least ten minutes apart, less the skew. */
  lemma EqualTextsTenMinutesApart(calls: seq<Call>, skew: nat, i: nat, j: nat)
    requires Admissible(calls) && Overtaken(calls, skew)
    requires i < j < |calls| && calls[i].sent && calls[j].sent && calls[i].message == calls[j].message
    ensures calls[j].now - calls[i].now >= DUPLICATE_SUPPRESSION_WINDOW - skew
  {
    var before := calls[..j];
    assert Decide(before, calls[j].message, calls[j].now).Send?;
    assert !HeldAt(before, i, calls[j].now, DUPLICATE_SUPPRESSION_WINDOW);
    if calls[j].now - calls[i].now < DUPLICATE_SUPPRESSION_WINDOW {
      var m :| i < m < j && before[m].now - before[i].now >= DUPLICATE_SUPPRESSION_WINDOW;
      assert calls[m].now <= calls[j].now + skew;
    }
  }

  lemma CountAdds(calls: seq<Call>, lo: int, mid: int, hi: int)
    requires lo <= mid <= hi
    ensures CountIn(calls, lo, hi) == CountIn(calls, lo, mid) + CountIn(calls, mid, hi)
  {
    if calls != [] {
      CountAdds(calls[..|calls| - 1], lo, mid, hi);
    }
  }

  lemma EmptyWindow(calls: seq<Call>, t: int)
    ensures CountIn(calls, t, t) == 0
  {
  }

  lemma Multiples(n: nat, window: nat)
    requires n > 0
    ensures n * window == (n - 1) * window + window && (n - 1) * window >= 0
  {
  }

  /** `n` such windows hold at most `20 * n` sends. */
  lemma {:induction false} AtMostTwentyEveryWindow(calls: seq<Call>, skew: nat, t: int, n: nat, length: nat)
    requires Admissible(calls) && Overtaken(calls, skew) && skew <= RATE_WINDOW && length == n * (RATE_WINDOW - skew)
    ensures CountIn(calls, t - length, t) <= n * MAX_FORWARDS_PER_MINUTE
    decreases n
  {
    hide Admissible, Overtaken, CountIn;
    var window := RATE_WINDOW - skew;
    if n == 0 {
      EmptyWindow(calls, t);
    } else {
      Multiples(n, window);
      AtMostTwentyPerWindow(calls, skew, t);
      AtMostTwentyEveryWindow(calls, skew, t - window, n - 1, length - window);
      CountAdds(calls, t - length, t - window, t);
    }
  }

  /** Distinct texts are no more numerous than the sends that carry them. */
  lemma {:induction false} DistinctTexts(texts: set<string>, calls: seq<Call>, lo: int, hi: int)
    requires forall m :: m in texts ==>
               exists k :: 0 <= k < |calls| && calls[k].sent && calls[k].message == m && lo < calls[k].now <= hi
    ensures |texts| <= CountIn(calls, lo, hi)
  {
    if calls == [] {
      assert texts == {} by {
        if m :| m in texts { assert false; }
      }
    } else {
      var init, last := calls[..|calls| - 1], calls[|calls| - 1];
      var rest := if last.sent && lo < last.now <= hi then texts - {last.message} else texts;
      forall m | m in rest
        ensures exists k :: 0 <= k < |init| && init[k].sent && init[k].message == m && lo < init[k].now <= hi
      {
        var k :| 0 <= k < |calls| && calls[k].sent && calls[k].message == m && lo < calls[k].now <= hi;
        assert init[k].message == m;
      }
      DistinctTexts(rest, init, lo, hi);
    }
  }

  // ----- The bucket -----

  /** `Vec::retain` on send times; a reading from before the send has age zero. */
  function RetainTimes(times: seq<nat>, now: nat): (kept: seq<nat>)
    ensures |kept| <= |times|
  {
    if times == [] then []
    else
      var init := RetainTimes(times[..|times| - 1], now);
      if now - times[|times| - 1] < RATE_WINDOW then init + [times[|times| - 1]] else init
  }

  /** The send times that pruning at every call has left. */
  ghost function HeldTimes(calls: seq<Call>): (times: seq<nat>) {
    if calls == [] then []
    else
      var last := calls[|calls| - 1];
      RetainTimes(HeldTimes(calls[..|calls| - 1]), last.now) + if last.sent then [last.now] else []
  }

  function Later(a: nat, b: nat): nat {
    if a < b then b else a
  }

  /** Pruning at two readings, in either order, is pruning at the later one. */
  lemma {:induction false} RetainTwice(times: seq<nat>, before: nat, now: nat)
    ensures RetainTimes(RetainTimes(times, before), now) == RetainTimes(times, Later(before, now))
  {
    if times != [] {
      var init, last := times[..|times| - 1], times[|times| - 1];
      RetainTwice(init, before, now);
      var kept := RetainTimes(init, before);
      assert (kept + [last])[..|kept|] == kept;
    }
  }

  lemma RetainSnoc(times: seq<nat>, last: nat, now: nat)
    ensures RetainTimes(times + [last], now)
         == RetainTimes(times, now) + if now - last < RATE_WINDOW then [last] else []
  {
    assert (times + [last])[..|times|] == times;
  }

  /** One more call makes the sends before it hold out against its reading too. */
  lemma {:induction false} CountHeldSnoc(calls: seq<Call>, call: Call, n: nat, now: nat)
    requires n <= |calls|
    ensures CountHeld(calls + [call], n, now) == CountHeld(calls, n, Later(call.now, now))
  {
    if n > 0 {
      CountHeldSnoc(calls, call, n - 1, now);
      HeldSnoc(calls, call, n - 1, now, RATE_WINDOW);
    }
  }

  lemma HeldSnoc(calls: seq<Call>, call: Call, k: nat, now: nat, window: nat)
    requires k < |calls|
    ensures HeldAt(calls + [call], k, now, window) <==> HeldAt(calls, k, Later(call.now, now), window)
    ensures Held(calls + [call], k, window) <==> HeldAt(calls, k, call.now, window)
  {
    var all := calls + [call];
    assert forall j :: 0 <= j < |calls| ==> all[j] == calls[j];
    assert all[|calls|] == call;
  }

  /** Step-by-step pruning leaves exactly the held sends. */
  lemma {:induction false} HeldTimesCount(calls: seq<Call>, now: nat)
    ensures |RetainTimes(HeldTimes(calls), now)| == CountHeld(calls, |calls|, now)
  {
    hide HeldAt, RetainTimes;
    if calls == [] {
      NoTimes(now);
    } else {
      var init, last := calls[..|calls| - 1], calls[|calls| - 1];
      assert calls == init + [last];
      HeldTimesCount(init, Later(last.now, now));
      RetainTwice(HeldTimes(init), last.now, now);
      CountHeldSnoc(init, last, |init|, now);
      LastHeld(calls, now);
      var times := RetainTimes(HeldTimes(init), last.now);
      assert times + [] == times;
      RetainSnoc(times, last.now, now);
    }
  }

  lemma NoTimes(now: nat)
    ensures RetainTimes([], now) == []
  {
  }

  lemma LastHeld(calls: seq<Call>, now: nat)
    requires calls != []
    ensures var last := calls[|calls| - 1];
            HeldAt(calls, |calls| - 1, now, RATE_WINDOW) <==> last.sent && now - last.now < RATE_WINDOW
  {
  }

  /** The message map holds exactly the texts with a held send, each with its reading. */
  ghost predicate Remembers(messages: map<string, nat>, calls: seq<Call>) {
    && (forall m :: m in messages ==>
          exists k: nat ::
            Held(calls, k, DUPLICATE_SUPPRESSION_WINDOW) && calls[k].message == m && calls[k].now == messages[m])
    && (forall k: nat :: Held(calls, k, DUPLICATE_SUPPRESSION_WINDOW) ==>
          calls[k].message in messages && messages[calls[k].message] == calls[k].now)
  }

  /** `HashMap::retain` on the message map. */
  function RetainMessages(messages: map<string, nat>, now: nat): map<string, nat> {
    map m | m in messages && now - messages[m] < DUPLICATE_SUPPRESSION_WINDOW :: messages[m]
  }

  /** A pruned map's keys are exactly the suppressed texts. */
  lemma Forgets(messages: map<string, nat>, calls: seq<Call>, now: nat)
    requires Remembers(messages, calls)
    ensures forall m :: m in RetainMessages(messages, now) <==> Suppressed(calls, m, now)
  {
    forall m
      ensures m in RetainMessages(messages, now) <==> Suppressed(calls, m, now)
    {
      if m in RetainMessages(messages, now) {
        var k: nat :| Held(calls, k, DUPLICATE_SUPPRESSION_WINDOW) && calls[k].message == m
                      && calls[k].now == messages[m];
        assert HeldAt(calls, k, now, DUPLICATE_SUPPRESSION_WINDOW);
      }
      if Suppressed(calls, m, now) {
        var k: nat :| HeldAt(calls, k, now, DUPLICATE_SUPPRESSION_WINDOW) && calls[k].message == m;
        assert Held(calls, k, DUPLICATE_SUPPRESSION_WINDOW);
      }
    }
  }

  /** After a call the pruned map, with the message if it was sent, remembers the longer history. */
  lemma RemembersCall(messages: map<string, nat>, calls: seq<Call>, call: Call)
    requires Remembers(messages, calls) && (call.sent ==> call.message !in RetainMessages(messages, call.now))
    ensures var kept := RetainMessages(messages, call.now);
            Remembers(if call.sent then kept[call.message := call.now] else kept, calls + [call])
  {
    var kept, all, window := RetainMessages(messages, call.now), calls + [call], DUPLICATE_SUPPRESSION_WINDOW;
    var messages' := if call.sent then kept[call.message := call.now] else kept;
    assert all[|calls|] == call && (forall k :: 0 <= k < |calls| ==> all[k] == calls[k]);
    forall m | m in messages'
      ensures exists k: nat :: Held(all, k, window) && all[k].message == m && all[k].now == messages'[m]
    {
      if call.sent && m == call.message {
        assert Held(all, |calls|, window);
      } else {
        var k: nat :| Held(calls, k, window) && calls[k].message == m && calls[k].now == messages[m];
        HeldSnoc(calls, call, k, call.now, window);
        assert Held(all, k, window);
      }
    }
    forall k: nat | Held(all, k, window)
      ensures all[k].message in messages' && messages'[all[k].message] == all[k].now
    {
      if k < |calls| {
        HeldSnoc(calls, call, k, call.now, window);
      }
    }
  }

  /** What the pruned bucket says is what the history says. */
  lemma Decision(messages: map<string, nat>, calls: seq<Call>, message: string, now: nat)
    requires Remembers(messages, calls)
    ensures Decide(calls, message, now) ==
            if message in RetainMessages(messages, now) then DuplicateWithinWindow
            else if |RetainTimes(HeldTimes(calls), now)| >= MAX_FORWARDS_PER_MINUTE then RateLimited
            else Send
  {
    hide CountHeld, Suppressed, RetainTimes, HeldTimes, Remembers, RetainMessages;
    Forgets(messages, calls, now);
    HeldTimesCount(calls, now);
  }

  class Throttle {
    var recentMessages: map<string, nat>
    var recentSends: seq<nat>
    /** Every call ever made. */
    ghost var calls: seq<Call>

    ghost predicate Valid()
      reads this
    {
      && Admissible(calls) && recentSends == HeldTimes(calls) && |recentSends| <= MAX_FORWARDS_PER_MINUTE
      && Remembers(recentMessages, calls)
    }

    constructor ()
      ensures Valid() && calls == []
    {
      recentMessages, recentSends := map[], [];
      calls := [];
    }

    /** Decides as the full history does, whatever the order of the readings, records the call, and stays within 20
        timestamps. */
    method DecideForward(message: string, now: nat) returns (decision: ForwardDecision)
      requires Valid()
      modifies this
      ensures Valid()
      ensures decision == Decide(old(calls), message, now)
      ensures calls == old(calls) + [Call(message, now, decision.Send?)]
    {
      hide Admissible, Decide, HeldTimes, RetainTimes, Remembers, RetainMessages;
      Decision(recentMessages, calls, message, now);
      ghost var call := Call(message, now, Decide(calls, message, now).Send?);
      RemembersCall(recentMessages, calls, call);
      Recorded(calls, call);
      recentMessages := RetainMessages(recentMessages, now);
      recentSends := RetainTimes(recentSends, now);
      calls := calls + [call];

      if message in recentMessages {
        return DuplicateWithinWindow;
      }
      if |recentSends| >= MAX_FORWARDS_PER_MINUTE {
        return RateLimited;
      }

      recentMessages := recentMessages[message := now];
      recentSends := recentSends + [now];
      decision := Send;
    }
  }

  /** One more call, decided as `Decide` says. */
  lemma {:induction false} Recorded(calls: seq<Call>, call: Call)
    requires Admissible(calls) && (call.sent <==> Decide(calls, call.message, call.now).Send?)
    ensures Admissible(calls + [call])
    ensures HeldTimes(calls + [call]) == RetainTimes(HeldTimes(calls), call.now) + if call.sent then [call.now] else []
  {
    hide Decide, RetainTimes;
    var all := calls + [call];
    assert all[..|calls|] == calls;
    forall k | 0 <= k < |all|
      ensures all[k].sent <==> Decide(all[..k], all[k].message, all[k].now).Send?
    {
      if k < |calls| {
        assert all[..k] == calls[..k] && all[k] == calls[k];
      }
    }
  }

  /** A remembered text was sent in the last ten minutes, up to the skew. */
  lemma RememberedRecently(messages: map<string, nat>, calls: seq<Call>, skew: nat, m: string) returns (k: nat)
    requires Overtaken(calls, skew) && Remembers(messages, calls) && m in messages
    ensures k < |calls| && calls[k].sent && calls[k].message == m
    ensures var last := calls[|calls| - 1].now; last - DUPLICATE_SUPPRESSION_WINDOW < calls[k].now <= last + skew
  {
    k :| Held(calls, k, DUPLICATE_SUPPRESSION_WINDOW) && calls[k].message == m && calls[k].now == messages[m];
  }

  /** How many texts the map can hold: twenty for each of the windows that make up ten minutes and the skew. In order
      that is 200. */
  lemma Bounds(messages: map<string, nat>, calls: seq<Call>, skew: nat, n: nat, length: nat)
    requires Admissible(calls) && Overtaken(calls, skew) && Remembers(messages, calls) && skew <= RATE_WINDOW
    requires length == n * (RATE_WINDOW - skew) && length >= DUPLICATE_SUPPRESSION_WINDOW + skew
    ensures |messages| <= n * MAX_FORWARDS_PER_MINUTE
  {
    hide Admissible, Overtaken, Remembers, CountIn;
    if messages != map[] {
      var any :| any in messages;
      var first := RememberedRecently(messages, calls, skew, any);
      var t := calls[|calls| - 1].now + skew;
      AtMostTwentyEveryWindow(calls, skew, t, n, length);
      forall m | m in messages.Keys
        ensures exists k :: 0 <= k < |calls| && calls[k].sent && calls[k].message == m && t - length < calls[k].now <= t
      {
        var k := RememberedRecently(messages, calls, skew, m);
      }
      DistinctTexts(messages.Keys, calls, t - length, t);
      assert |messages.Keys| == |messages|;
    }
  }

  lemma TwoHundredTexts(messages: map<string, nat>, calls: seq<Call>)
    requires Admissible(calls) && Overtaken(calls, 0) && Remembers(messages, calls)
    ensures |messages| <= 10 * MAX_FORWARDS_PER_MINUTE
  {
    Bounds(messages, calls, 0, 10, DUPLICATE_SUPPRESSION_WINDOW);
  }

  // ----- Readings out of order -----

  /** The sends of the window of a length that ends at `t`. */
  ghost function SendsIn(calls: seq<Call>, t: int, length: nat): nat {
    CountIn(calls, t - length, t)
  }

  /** Every window of this length holds at most 20 sends, however the calls of a run with this skew come. */
  ghost predicate Capped(skew: nat, length: nat) {
    forall calls, t :: Admissible(calls) && Overtaken(calls, skew) ==>
      SendsIn(calls, t, length) <= MAX_FORWARDS_PER_MINUTE
  }

  function Text(k: nat): (text: string)
    ensures |text| == k
  {
    seq(k, _ => 'a')
  }

  /** So many different messages at once. */
  function Burst(n: nat): (calls: seq<Call>)
    ensures |calls| == n
  {
    seq(n, k requires 0 <= k < n => Call(Text(k), 0, true))
  }

  /** A new text with room for it is sent. */
  lemma NewTextIsSent(calls: seq<Call>, call: Call)
    requires Admissible(calls) && call.sent && forall k :: 0 <= k < |calls| ==> calls[k].message != call.message
    requires CountHeld(calls, |calls|, call.now) < MAX_FORWARDS_PER_MINUTE
    ensures Admissible(calls + [call])
  {
    hide Admissible, CountHeld, HeldTimes;
    assert !Suppressed(calls, call.message, call.now);
    Recorded(calls, call);
  }

  lemma {:induction false} CountInSnoc(calls: seq<Call>, call: Call, lo: int, hi: int)
    ensures CountIn(calls + [call], lo, hi)
         == CountIn(calls, lo, hi) + if call.sent && lo < call.now <= hi then 1 else 0
  {
    assert (calls + [call])[..|calls|] == calls;
  }

  lemma {:induction false} BurstIsSent(n: nat, lo: int, hi: int)
    requires n <= MAX_FORWARDS_PER_MINUTE && lo < 0 <= hi
    ensures Admissible(Burst(n)) && CountIn(Burst(n), lo, hi) == n
  {
    hide CountHeld, Admissible, CountIn, Burst;
    if n == 0 {
      NoBurst(lo, hi);
    } else {
      BurstIsSent(n - 1, lo, hi);
      var call := Call(Text(n - 1), 0, true);
      BurstGrows(n - 1);
      NewTextIsSent(Burst(n - 1), call);
      CountInSnoc(Burst(n - 1), call, lo, hi);
    }
  }

  lemma NoBurst(lo: int, hi: int)
    ensures Burst(0) == [] && Admissible(Burst(0)) && CountIn(Burst(0), lo, hi) == 0
  {
  }

  lemma BurstGrows(n: nat)
    ensures Burst(n + 1) == Burst(n) + [Call(Text(n), 0, true)]
    ensures forall k :: 0 <= k < n ==> Burst(n)[k].message != Text(n)
  {
    forall k | 0 <= k < n
      ensures Burst(n)[k].message != Text(n)
    {
      assert |Text(k)| != |Text(n)|;
    }
  }

  lemma {:induction false} NoneHeld(calls: seq<Call>, n: nat, now: nat)
    requires forall k :: 0 <= k < n ==> !HeldAt(calls, k, now, RATE_WINDOW)
    ensures CountHeld(calls, n, now) == 0
  {
    hide HeldAt;
    if n > 0 {
      NoneHeld(calls, n - 1, now);
    }
  }

  lemma AtMostOneMore(calls: seq<Call>, n: nat, now: nat)
    requires n > 0
    ensures CountHeld(calls, n, now) <= CountHeld(calls, n - 1, now) + 1
  {
  }

  const A_MINUTE_ON := Call("b", RATE_WINDOW, true)

  /** Twenty messages at once, and one when their minute is over. */
  function FullMinute(): (calls: seq<Call>)
    ensures |calls| == 21
  {
    Burst(20) + [A_MINUTE_ON]
  }

  lemma NotInBurst(text: string, c: char)
    requires text == [c] && c != 'a'
    ensures forall k :: 0 <= k < 20 ==> Burst(20)[k].message != text
  {
    forall k | 0 <= k < 20
      ensures Burst(20)[k].message != text
    {
      assert k == 1 ==> Text(k)[0] == 'a' && text[0] == c;
    }
  }

  lemma FullMinuteIsSent()
    ensures Admissible(FullMinute())
  {
    BurstIsSent(20, -1, 0);
    NoneHeld(Burst(20), 20, RATE_WINDOW);
    hide Admissible, CountHeld;
    NotInBurst("b", 'b');
    NewTextIsSent(Burst(20), A_MINUTE_ON);
  }

  /** And then a message whose reading the last one has overtaken by `skew`: it finds the burst forgotten. */
  lemma OvertakenExample(skew: nat, length: nat) returns (calls: seq<Call>)
    requires skew <= RATE_WINDOW && length > RATE_WINDOW - skew
    ensures Admissible(calls) && Overtaken(calls, skew)
    ensures SendsIn(calls, RATE_WINDOW - skew, length) > MAX_FORWARDS_PER_MINUTE
  {
    hide Admissible, CountHeld, CountIn;
    var late := Call("c", RATE_WINDOW - skew, true);
    var most := FullMinute();
    FullMinuteIsSent();
    assert most[20] == A_MINUTE_ON && forall k :: 0 <= k < 20 ==> most[k] == Burst(20)[k];
    NoneHeld(most, 20, late.now);
    AtMostOneMore(most, 21, late.now);
    NotInBurst("c", 'c');
    forall k | 0 <= k < 21
      ensures most[k].message != "c"
    {
      assert k == 20 ==> "b"[0] != "c"[0];
    }
    NewTextIsSent(most, late);
    calls := most + [late];
    assert forall k :: 0 <= k < 21 ==> calls[k] == most[k];
    var lo := late.now - length;
    BurstIsSent(20, lo, late.now);
    CountInSnoc(Burst(20), A_MINUTE_ON, lo, late.now);
    CountInSnoc(most, late, lo, late.now);
  }

  lemma {:induction false} ShorterHoldsLess(calls: seq<Call>, lo: int, lo': int, hi: int)
    requires lo <= lo'
    ensures CountIn(calls, lo', hi) <= CountIn(calls, lo, hi)
  {
    if calls != [] {
      ShorterHoldsLess(calls[..|calls| - 1], lo, lo', hi);
    }
  }

  /** How long a window can be that never holds more than 20 sends, however the readings come: exactly a minute less the
      largest delay, and no time at all from a delay of a minute on. A whole minute is capped exactly when no reading is
      overtaken. */
  lemma CappedExactly(skew: nat, length: nat)
    ensures Capped(skew, length) <==> length == 0 || length <= RATE_WINDOW - skew
    ensures Capped(skew, RATE_WINDOW) <==> skew == 0
  {
    CappedLength(skew, length);
    CappedLength(skew, RATE_WINDOW);
  }

  lemma CappedLength(skew: nat, length: nat)
    ensures Capped(skew, length) <==> length == 0 || length <= RATE_WINDOW - skew
  {
    hide Admissible, CountIn;
    if length == 0 {
      forall calls, t | Admissible(calls) && Overtaken(calls, skew)
        ensures SendsIn(calls, t, length) <= MAX_FORWARDS_PER_MINUTE
      {
        EmptyWindow(calls, t);
      }
    } else if length <= RATE_WINDOW - skew {
      forall calls, t | Admissible(calls) && Overtaken(calls, skew)
        ensures SendsIn(calls, t, length) <= MAX_FORWARDS_PER_MINUTE
      {
        AtMostTwentyPerWindow(calls, skew, t);
        ShorterHoldsLess(calls, t - RATE_WINDOW + skew, t - length, t);
      }
    } else {
      var delay := if skew <= RATE_WINDOW then skew else RATE_WINDOW;
      var calls := OvertakenExample(delay, length);
      assert SendsIn(calls, RATE_WINDOW - delay, length) > MAX_FORWARDS_PER_MINUTE;
    }
  }

  /** Two sends of one text in a run with this skew are never closer than this. */
  ghost predicate Apart(skew: nat, gap: int) {
    forall calls: seq<Call>, i: int, j: int :: Admissible(calls) && Overtaken(calls, skew) && Repeats(calls, i, j) ==>
      calls[j].now - calls[i].now >= gap
  }

  predicate Repeats(calls: seq<Call>, i: int, j: int) {
    0 <= i < j < |calls| && calls[i].sent && calls[j].sent && calls[i].message == calls[j].message
  }

  /** A text, ten minutes later another one, and then the first again with a reading overtaken by `skew`. */
  lemma RepeatedExample(skew: nat) returns (calls: seq<Call>)
    ensures Admissible(calls) && Overtaken(calls, skew) && |calls| == 3 && calls[0].sent && calls[2].sent
    ensures calls[0].message == calls[2].message && calls[2].now - calls[0].now == DUPLICATE_SUPPRESSION_WINDOW - skew
  {
    var first, again := Call("x", skew, true), Call("x", DUPLICATE_SUPPRESSION_WINDOW, true);
    var between := Call("y", skew + DUPLICATE_SUPPRESSION_WINDOW, true);
    assert "x"[0] != "y"[0];
    assert Admissible([]);
    hide Admissible, CountHeld, HeldTimes;
    NewTextIsSent([], first);
    var one := [] + [first];
    NewTextIsSent(one, between);
    var two := one + [between];
    assert two[0] == first && two[1] == between;
    assert !Suppressed(two, "x", again.now);
    Recorded(two, again);
    calls := two + [again];
    assert calls[0] == first && calls[1] == between && calls[2] == again;
  }

  /** So equal texts are apart by exactly ten minutes less the largest delay, and no more can be said. */
  lemma ApartExactly(skew: nat, gap: int)
    ensures Apart(skew, gap) <==> gap <= DUPLICATE_SUPPRESSION_WINDOW - skew
  {
    hide Admissible, Overtaken;
    if gap <= DUPLICATE_SUPPRESSION_WINDOW - skew {
      forall calls: seq<Call>, i: int, j: int | Admissible(calls) && Overtaken(calls, skew) && Repeats(calls, i, j)
        ensures calls[j].now - calls[i].now >= gap
      {
        EqualTextsTenMinutesApart(calls, skew, i, j);
      }
    } else {
      var calls := RepeatedExample(skew);
      assert Repeats(calls, 0, 2);
      assert calls[2].now - calls[0].now < gap;
    }
  }

  // ----- In order, in plain terms -----

  /** The sends among the first `n` calls that are less than `window` old. */
  ghost function SentWithin(calls: seq<Call>, n: nat, now: nat, window: nat): set<nat>
    requires n <= |calls|
  {
    set k: nat | k < n && calls[k].sent && now - calls[k].now < window
  }

  /** The readings come in order, and this one last. */
  ghost predicate InOrder(calls: seq<Call>, now: nat) {
    && (forall j, k :: 0 <= j < k < |calls| ==> calls[j].now <= calls[k].now)
    && forall k :: 0 <= k < |calls| ==> calls[k].now <= now
  }

  lemma HeldInOrder(calls: seq<Call>, now: nat, k: nat, window: nat)
    requires InOrder(calls, now) && k < |calls|
    ensures HeldAt(calls, k, now, window) <==> k in SentWithin(calls, |calls|, now, window)
  {
  }

  lemma SentNextAt(calls: seq<Call>, n: nat, now: nat, window: nat, k: nat)
    requires n < |calls|
    ensures k in SentWithin(calls, n + 1, now, window) <==>
            k in SentWithin(calls, n, now, window) || (k == n && n in SentWithin(calls, |calls|, now, window))
  {
  }

  lemma SentNext(calls: seq<Call>, n: nat, now: nat, window: nat)
    requires n < |calls|
    ensures |SentWithin(calls, n + 1, now, window)|
         == |SentWithin(calls, n, now, window)| + if n in SentWithin(calls, |calls|, now, window) then 1 else 0
  {
    var some, fewer := SentWithin(calls, n + 1, now, window), SentWithin(calls, n, now, window);
    var next := if n in SentWithin(calls, |calls|, now, window) then {n} else {};
    assert n !in fewer;
    hide SentWithin;
    forall k: nat
      ensures k in some <==> k in fewer + next
    {
      SentNextAt(calls, n, now, window, k);
    }
    assert some == fewer + next;
  }

  lemma {:induction false} CountHeldInOrder(calls: seq<Call>, now: nat, n: nat)
    requires InOrder(calls, now) && n <= |calls|
    ensures CountHeld(calls, n, now) == |SentWithin(calls, n, now, RATE_WINDOW)|
  {
    if n == 0 {
      assert SentWithin(calls, n, now, RATE_WINDOW) == {};
    } else {
      hide SentWithin, InOrder, HeldAt;
      CountHeldInOrder(calls, now, n - 1);
      HeldInOrder(calls, now, n - 1, RATE_WINDOW);
      SentNext(calls, n - 1, now, RATE_WINDOW);
    }
  }

  /** With readings in order: a text is a duplicate exactly when an equal one was sent less than ten minutes ago;
      another text is over the limit exactly when twenty were sent less than a minute ago; anything else is sent. In
      nanoseconds. */
  lemma DecidesInOrder(calls: seq<Call>, message: string, now: nat)
    requires InOrder(calls, now)
    ensures var recent := SentWithin(calls, |calls|, now, 600_000_000_000);
            Decide(calls, message, now) ==
            if exists k: nat :: k in recent && k < |calls| && calls[k].message == message then DuplicateWithinWindow
            else if |SentWithin(calls, |calls|, now, 60_000_000_000)| >= 20 then RateLimited
            else Send
  {
    CountHeldInOrder(calls, now, |calls|);
    SuppressedInOrder(calls, message, now);
  }

  lemma SuppressedInOrder(calls: seq<Call>, message: string, now: nat)
    requires InOrder(calls, now)
    ensures Suppressed(calls, message, now) <==>
            exists k: nat ::
              k in SentWithin(calls, |calls|, now, 600_000_000_000) && k < |calls| && calls[k].message == message
  {
    hide HeldAt, SentWithin, InOrder;
    if k: nat :| k in SentWithin(calls, |calls|, now, 600_000_000_000) && k < |calls| && calls[k].message == message {
      HeldInOrder(calls, now, k, 600_000_000_000);
    }
    if Suppressed(calls, message, now) {
      HeldIsCall(calls, now);
      var k: nat :| HeldAt(calls, k, now, DUPLICATE_SUPPRESSION_WINDOW) && calls[k].message == message;
      HeldInOrder(calls, now, k, 600_000_000_000);
    }
  }

  lemma HeldIsCall(calls: seq<Call>, now: nat)
    ensures forall k: nat :: HeldAt(calls, k, now, DUPLICATE_SUPPRESSION_WINDOW) ==> k < |calls|
  {
  }
}
