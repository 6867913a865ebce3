/** When the rewritten stylesheet scans as intended: the exact condition on the text. */
module CssExact {
  import opened CssText
  import opened CssRescan
  import opened PythonText
  import opened Wrappers

  // ----- A block that follows a deletion -----

  lemma NothingAtEnd(css: string, depth: int, end: nat)
    requires end <= |css| && Enclosed(css, end, depth, end)
    ensures !Opens(css, end, depth, end < |css|)
  {
  }

  /** If some block opens, a first one does. */
  lemma {:induction false} FirstOpening(css: string, i: nat, depth: int, end: nat) returns (q: nat)
    requires i <= end <= |css| && Enclosed(css, i, depth, end) && Opens(css, i, depth, end < |css|)
    ensures i <= q < end && Reaches(css, i, depth, q)
    decreases |css| - i
  {
    hide Close, AfterComment, CommentAt, Opens, Enclosed, Reaches;
    if i == end {
      NothingAtEnd(css, depth, end);
    }
    EnclosedStep(css, i, depth, end);
    OpensStep(css, i, depth, end < |css|);
    if end < |css| {
      InsideStep(css, i, depth, end);
    }
    if CommentAt(css, i) {
      q := FirstOpening(css, AfterComment(css, i), depth, end);
      ReachesBack(css, i, depth, q);
    } else if css[i] == '{' && depth == 0 {
      q := i;
      ReachesBack(css, i, depth, q);
    } else {
      q := FirstOpening(css, i + 1, DepthAfter(css[i], depth), end);
      ReachesBack(css, i, depth, q);
    }
  }

  lemma ReachesBack(css: string, i: nat, depth: int, q: nat)
    requires i <= q < |css|
    ensures i < q && CommentAt(css, i) ==> Reaches(css, i, depth, q) == Reaches(css, AfterComment(css, i), depth, q)
    ensures i < q && !CommentAt(css, i) && !(css[i] == '{' && depth == 0) ==>
              Reaches(css, i, depth, q) == Reaches(css, i + 1, DepthAfter(css[i], depth), q)
    ensures i == q && css[i] == '{' && depth == 0 ==> Reaches(css, i, depth, q)
  {
  }

  lemma {:induction false} ReachesShift(a: string, i: nat, b: string, j: nat, depth: int, q: nat)
    requires SameAfter(a, i, b, j) && i <= q < |a| && Reaches(a, i, depth, q)
    ensures j <= q + j - i < |b| && Reaches(b, j, depth, q + j - i)
    decreases |a| - i
  {
    hide CommentAt, AfterComment, Reaches;
    SameBounds(a, i, b, j);
    hide SameAfter;
    SameOn(a, i, b, j, 0);
    ReachesBack(b, j, depth, q + j - i);
    if i == q {
      ReachesHere(a, depth, q);
    } else {
      ReachesStep(a, i, depth, q);
      SameOn(a, i, b, j, 1);
      if CommentAt(a, i) {
        CommentShift(a, i, b, j);
        ReachesShift(a, AfterComment(a, i), b, AfterComment(b, j), depth, q);
      } else {
        ReachesShift(a, i + 1, b, j + 1, DepthAfter(a[i], depth), q);
      }
    }
  }

  lemma {:induction false} ReachesInert(css: string, i: nat, cut: nat, q: nat)
    requires i <= cut <= q < |css| && InertOn(css, i, cut) && Reaches(css, cut, 0, q)
    ensures Reaches(css, i, 0, q)
    decreases cut - i
  {
    hide CommentAt, AfterComment, Reaches;
    if i < cut {
      ReachesInert(css, i + 1, cut, q);
      ReachesBack(css, i, 0, q);
    }
  }

  // ----- What a deletion can leave behind -----

  /** The rule's prelude takes in the text from `p` on, beyond what lies after `cut`. */
  ghost predicate Clings(css: string, p: nat, cut: nat, r: Span) {
    p <= cut < r.start <= |css| && r.prelude == Strip(css[p..r.start - 1])
  }

  /** The rule stands where `y` stood, or lies inside fewer at-rules. */
  predicate Displaces(x: Span, y: Span, moved: int) {
    y.start + moved == x.start || |x.context| < |y.context|
  }

  /** The scan finds the first `k` of these rules, and instead of the next one, which was deleted, and of those in the
      block after it, one whose prelude clings to what was left behind. */
  ghost predicate Broken(css: string, found: Option<seq<Span>>, rules: seq<Span>, k: nat, p: nat, cut: nat,
                         moved: int) {
    && found.Some? && k < |found.value| <= |rules| && found.value[..k] == rules[..k]
    && Clings(css, p, cut, found.value[k])
    && (|found.value| + 1 == |rules| ==> k + 1 < |rules| && Displaces(found.value[k], rules[k + 1], moved))
  }

  lemma BrokenAfter(css: string, x: seq<Span>, found: Option<seq<Span>>, rules: seq<Span>, k: nat, p: nat, cut: nat,
                    moved: int)
    requires Broken(css, found, rules, k, p, cut, moved)
    ensures Broken(css, Both(Some(x), found), x + rules, |x| + k, p, cut, moved)
  {
    hide Clings, Displaces;
    var all := x + found.value;
    assert all[..|x| + k] == x + found.value[..k] && (x + rules)[..|x| + k] == x + rules[..k];
    assert all[|x| + k] == found.value[k];
    assert k + 1 < |rules| ==> (x + rules)[|x| + k + 1] == rules[k + 1];
  }

  lemma BrokenBefore(css: string, found: Option<seq<Span>>, y: seq<Span>, rules: seq<Span>, rest: seq<Span>, k: nat,
                     p: nat, cut: nat,
                     moved: int)
    requires Broken(css, found, rules, k, p, cut, moved) && |y| == |rest|
    ensures Broken(css, Both(found, Some(y)), rules + rest, k, p, cut, moved)
  {
    hide Clings, Displaces;
    var all := found.value + y;
    assert all[..k] == found.value[..k] && (rules + rest)[..k] == rules[..k] && all[k] == found.value[k];
    assert k + 1 < |rules| ==> (rules + rest)[k + 1] == rules[k + 1];
  }

  /** Inside a block the at-rules only grow. */
  lemma {:induction false} ContextGrows(css: string, i: nat, from: nat, depth: int, end: nat, context: string)
    requires from <= i <= |css| && end <= |css| && Scan(css, i, from, depth, end, context).Some?
    ensures forall r :: r in Scan(css, i, from, depth, end, context).value ==> |context| <= |r.context|
    decreases |css| - i
  {
    hide Strip, IsAtRule, Nests, Close, AfterComment, CommentAt, Nested, Scan, Both, BlockRules;
    if i >= end {
      ScanDone(css, i, from, depth, end, context);
    } else {
      ScanStep(css, i, from, depth, end, context);
      if CommentAt(css, i) {
        ContextGrows(css, AfterComment(css, i), from, depth, end, context);
      } else if css[i] == '{' && depth == 0 {
        var close := Close(css, i + 1, 1).value;
        var block, rest := BlockRules(css, from, i, close, context), Scan(css, close + 1, close + 1, 0, end, context);
        BothParts(block, rest);
        ContextGrows(css, close + 1, close + 1, 0, end, context);
        var prelude := Strip(css[from..i]);
        BlockCases(css, from, i, close, context);
        NestedGrows(context, prelude);
        if IsAtRule(prelude) && Nests(prelude) {
          ContextGrows(css, i + 1, i + 1, 0, close, Nested(context, prelude));
        }
      } else {
        ContextGrows(css, i + 1, from, DepthAfter(css[i], depth), end, context);
      }
    }
  }

  lemma NestedGrows(context: string, prelude: string)
    ensures |context| < |Nested(context, prelude)|
  {
  }

  lemma BlockCases(css: string, from: nat, i: nat, close: nat, context: string)
    requires from <= i < close < |css|
    ensures var prelude := Strip(css[from..i]);
            BlockRules(css, from, i, close, context) ==
            if !IsAtRule(prelude) then Some([Span(prelude, i + 1, close, context)])
            else if Nests(prelude) then Scan(css, i + 1, i + 1, 0, close, Nested(context, prelude))
            else Some([])
  {
    hide Strip, IsAtRule, Nests, Scan, Nested;
  }

  /** A block with one rule is that rule, or lies around it. */
  lemma BlockWithOne(css: string, from: nat, i: nat, close: nat, context: string)
    requires from <= i < close < |css| && BlockRules(css, from, i, close, context).Some?
    ensures var block := BlockRules(css, from, i, close, context).value;
            |block| == 1 ==> block[0].start == i + 1 || |context| < |block[0].context|
  {
    hide Strip, IsAtRule, Nests, Scan, Nested, BlockRules;
    var prelude := Strip(css[from..i]);
    BlockCases(css, from, i, close, context);
    NestedGrows(context, prelude);
    if IsAtRule(prelude) && Nests(prelude) {
      ContextGrows(css, i + 1, i + 1, 0, close, Nested(context, prelude));
    }
  }

  lemma BothParts(x: Option<seq<Span>>, y: Option<seq<Span>>)
    ensures Both(x, y).Some? ==> x.Some? && y.Some? && Both(x, y).value == x.value + y.value
  {
  }

  /** At the place of the deletion, the next block takes what was left behind into its prelude. */
  lemma BrokenHere(a: string, b: string, p: nat, q: nat, close: nat, cut: nat, end: nat, context: string)
    requires p <= cut <= q < close < |a| && Site(a, p, q, close) && Parted(a, b, p, close + 1, cut)
    requires InertOn(b, p, cut)
    requires close < end <= |a| && Enclosed(a, p, 0, end) && Scan(a, p, p, 0, end, context).Some?
    requires Opens(a, close + 1, 0, end < |a|) && Stray(a, b, p, q, cut)
    ensures Broken(b, Scan(b, p, p, 0, end + cut - close - 1, context), Scan(a, p, p, 0, end, context).value, 0, p, cut,
                   cut - close - 1)
  {
    hide Site, Reaches, Close, Strip, IsAtRule, CommentAt, Enclosed, Scan, SameBefore, SameAfter, Ordered, InertOn,
      Opens, BlockRules, Stray, Nests, Both, ShiftAll;
    var e, end2 := close + 1, end + cut - close - 1;
    SiteScan(a, p, q, close, end, context);
    SiteEnclosed(a, p, q, close, end);
    BothParts(Some([Span(Strip(a[p..q]), q + 1, close, context)]), Scan(a, e, e, 0, end, context));
    var q1 := FirstOpening(a, e, 0, end);
    var q2 := q1 + cut - e;
    ScanReaches(a, e, e, 0, q1, end, context);
    ReachesStays(a, e, 0, q1);
    ScanStep(a, q1, e, 0, end, context);
    var close1 := Close(a, q1 + 1, 1).value;
    CloseBrace(a, q1 + 1);
    var block, rest := BlockRules(a, e, q1, close1, context), Scan(a, close1 + 1, close1 + 1, 0, end, context);
    BothParts(block, rest);
    BlockWithOne(a, e, q1, close1, context);
    ReachesShift(a, e, b, cut, 0, q1);
    ClingingBlock(a, b, p, q, e, cut, end, context, q1, close1);
    BrokenParts(b, Span(Strip(a[p..q]), q + 1, close, context), block.value, rest.value,
                Span(Strip(b[p..q2]), q2 + 1, close1 + cut - e, context), ShiftAll(rest.value, cut - e), p, cut,
                     cut - e);
  }

  /** The scan of the shortened text up to the end of that block. */
  lemma ClingingBlock(a: string, b: string, p: nat, q: nat, e: nat, cut: nat, end: nat, context: string, q1: nat,
                      close1: nat)
    requires p <= cut && e <= q1 < close1 < |a| && q1 < end <= |a| && Parted(a, b, p, e, cut) && InertOn(b, p, cut)
    requires Stray(a, b, p, q, cut)
    requires Close(a, q1 + 1, 1) == Some(close1) && Scan(a, close1 + 1, close1 + 1, 0, end, context).Some?
    requires q1 + cut - e < |b| && Reaches(b, cut, 0, q1 + cut - e)
    ensures var q2 := q1 + cut - e;
            && p <= q2 < |b| && end + cut - e <= |b|
            && Scan(b, p, p, 0, end + cut - e, context)
               == Some([Span(Strip(b[p..q2]), q2 + 1, close1 + cut - e, context)]
                       + ShiftAll(Scan(a, close1 + 1, close1 + 1, 0, end, context).value, cut - e))
  {
    hide Reaches, Close, Strip, IsAtRule, CommentAt, Scan, SameBefore, SameAfter, InertOn, BlockRules, Stray, Nests,
      ShiftAll;
    var q2, end2, close2 := q1 + cut - e, end + cut - e, close1 + cut - e;
    ReachesInert(b, p, cut, q2);
    ScanReaches(b, p, p, 0, q2, end2, context);
    ReachesStays(b, p, 0, q2);
    ScanStep(b, q2, p, 0, end2, context);
    SameOn(a, e, b, cut, q1 + 1 - e);
    CloseShift(a, q1 + 1, b, q2 + 1, 1);
    SameOn(a, e, b, cut, close1 + 1 - e);
    PreludeStarts(a, close1 + 1, b, close2 + 1);
    ScanShift(a, close1 + 1, close1 + 1, b, close2 + 1, close2 + 1, 0, end, end2, context);
    StrayLeads(a, b, p, q, cut, q2);
    LeafIs(b, p, q2, close2, context);
  }

  lemma BrokenParts(css: string, r: Span, block: seq<Span>, rest: seq<Span>, x: Span, later: seq<Span>, p: nat,
                    cut: nat, moved: int)
    requires |later| == |rest| && Clings(css, p, cut, x)
    requires |block| == 1 ==> Displaces(x, block[0], moved)
    ensures Broken(css, Some([x] + later), [r] + (block + rest), 0, p, cut, moved)
  {
    hide Clings, Displaces;
    assert ([x] + later)[0] == x;
    assert |block| == 1 ==> ([r] + (block + rest))[1] == block[0];
  }

  /** Something but blanks stays behind: the beginning of the deleted rule's prelude, which is not an at-rule's. */
  ghost predicate Stray(a: string, b: string, p: nat, q: nat, cut: nat) {
    && p <= cut <= q <= |a| && cut <= |b| && SameBefore(a, b, cut)
    && !BlankOn(a, p, cut) && !IsAtRule(Strip(a[p..q]))
  }

  /** The first character that is not a blank decides whether a prelude is an at-rule's. */
  lemma {:induction false} FirstLetter(css: string, p: nat, q: nat, x: nat)
    requires p <= x < q <= |css| && BlankOn(css, p, x) && !IsSpace(css[x])
    ensures Strip(css[p..q]) != "" && Strip(css[p..q])[0] == css[x]
  {
    hide IsSpace, Strip;
    var lead := StripAt(css, p, q);
    var s := Strip(css[p..q]);
    assert lead <= x && x < lead + |s|;
    assert x == lead;
    assert s[0] == css[lead..lead + |s|][0];
  }

  lemma {:induction false} FirstOf(css: string, p: nat, cut: nat) returns (x: nat)
    requires p <= cut <= |css| && !BlankOn(css, p, cut)
    ensures p <= x < cut && BlankOn(css, p, x) && !IsSpace(css[x])
    decreases cut - p
  {
    hide IsSpace;
    if IsSpace(css[p]) {
      x := FirstOf(css, p + 1, cut);
    } else {
      x := p;
    }
  }

  lemma StrayLeads(a: string, b: string, p: nat, q: nat, cut: nat, q2: nat)
    requires Stray(a, b, p, q, cut) && cut <= q2 <= |b|
    ensures !IsAtRule(Strip(b[p..q2]))
  {
    hide IsSpace, Strip;
    var x := FirstOf(a, p, cut);
    SameAt(a, b, cut, x);
    assert BlankOn(b, p, x) by {
      forall k | p <= k < x
        ensures IsSpace(b[k])
      {
        SameAt(a, b, cut, k);
      }
    }
    FirstLetter(a, p, q, x);
    FirstLetter(b, p, q2, x);
  }

  // ----- Seen from the beginning -----

  /** The first `k` rules end before `p`, the others do not. */
  ghost predicate Parts(rules: seq<Span>, k: nat, p: nat) {
    && k <= |rules| && (forall l :: 0 <= l < k ==> rules[l].end < p)
    && (forall l :: k <= l < |rules| ==> p <= rules[l].end)
  }

  lemma PartsAfter(x: seq<Span>, y: seq<Span>, k: nat, p: nat)
    requires Parts(x + y, k, p) && forall l :: 0 <= l < |x| ==> x[l].end < p
    ensures |x| <= k && Parts(y, k - |x|, p) && (x + y)[..k] == x + y[..k - |x|]
  {
    if x != [] {
      assert (x + y)[|x| - 1] == x[|x| - 1];
    }
    forall l | 0 <= l < |y|
      ensures y[l] == (x + y)[|x| + l]
    {
    }
  }

  lemma PartsBefore(x: seq<Span>, y: seq<Span>, k: nat, p: nat)
    requires Parts(x + y, k, p) && forall l :: 0 <= l < |y| ==> p <= y[l].end
    ensures k <= |x| && Parts(x, k, p) && (x + y)[..k] == x[..k]
  {
    assert y != [] ==> (x + y)[|x|] == y[0];
    forall l | 0 <= l < |x|
      ensures x[l] == (x + y)[l]
    {
    }
  }

  lemma OrderedEnds(css: string, rules: seq<Span>, lo: int, hi: int, p: nat)
    requires Ordered(css, rules, lo, hi)
    ensures hi <= p ==> forall l :: 0 <= l < |rules| ==> rules[l].end < p
    ensures p <= lo ==> forall l :: 0 <= l < |rules| ==> p <= rules[l].end
  {
    hide Close;
  }

  lemma ShiftNumbers(rules: seq<Span>, moved: int)
    ensures |ShiftAll(rules, moved)| == |rules|
  {
  }

  /** A deletion that breaks the scan at its place breaks the whole of it there. */
  lemma {:induction false} BrokenFrom(a: string, b: string, i: nat, from: nat, depth: int, end: nat, context: string,
                                      p: nat, q: nat, e: nat, cut: nat, home: string, k: nat)
    requires Parted(a, b, p, e, cut) && SameClose(a, b, p, e, cut) && p <= cut <= q < e - 1 && Site(a, p, q, e - 1)
    requires InertOn(b, p, cut) && Stray(a, b, p, q, cut) && Opens(a, e, 0, home != "")
    requires from <= i <= p && e <= end <= |a| && Enclosed(a, i, depth, end) && Passes(a, i, from, depth, end, p, e)
    requires Scan(a, i, from, depth, end, context).Some? && (end < |a| <==> context != "")
    requires LiesIn(Scan(a, i, from, depth, end, context).value, q + 1, home)
    requires Parts(Scan(a, i, from, depth, end, context).value, k, p)
    ensures Broken(b, Scan(b, i, from, depth, end + cut - e, context), Scan(a, i, from, depth, end, context).value,
                   k, p, cut, cut - e)
    decreases |a| - i
  {
    hide Passes, AfterComment, Strip, IsAtRule, Nests, CommentAt, Scan, Close, Enclosed, BlockRules, SameClose,
      SameAfter, SameBefore, Both, Site, LiesIn, Broken, Stray, Opens, InertOn;
    if i == p {
      PassesHere(a, i, from, depth, end, p, e);
      SiteIsHome(a, p, q, e - 1, end, context, home);
      hide Parts;
      BrokenHere(a, b, p, q, e - 1, cut, end, context);
      NoneBefore(a, p, end, context, k);
    } else {
      hide Parts;
      PassesStep(a, i, from, depth, end, p, e);
      EnclosedStep(a, i, depth, end);
      SameAt(a, b, p, i);
      ScanStep(a, i, from, depth, end, context);
      ScanStep(b, i, from, depth, end + cut - e, context);
      if CommentAt(a, i) {
        CommentPrefix(a, b, i, p);
        BrokenFrom(a, b, AfterComment(a, i), from, depth, end, context, p, q, e, cut, home, k);
      } else if a[i] == '{' && depth == 0 {
        BrokenBlock(a, b, i, from, end, context, p, q, e, cut, home, k);
      } else {
        BrokenFrom(a, b, i + 1, from, DepthAfter(a[i], depth), end, context, p, q, e, cut, home, k);
      }
    }
  }

  lemma NoneBefore(a: string, p: nat, end: nat, context: string, k: nat)
    requires p <= end <= |a| && Enclosed(a, p, 0, end) && Scan(a, p, p, 0, end, context).Some?
    requires Parts(Scan(a, p, p, 0, end, context).value, k, p)
    ensures k == 0
  {
    hide Scan, Enclosed, Ordered;
    ScanIsOrdered(a, p, p, 0, end, context);
    var rules := Scan(a, p, p, 0, end, context).value;
    OrderedEnds(a, rules, p, end, p);
    assert rules != [] ==> p <= rules[0].end;
  }

  lemma {:induction false} BrokenBlock(a: string, b: string, i: nat, from: nat, end: nat, context: string,
                                       p: nat, q: nat, e: nat, cut: nat, home: string, k: nat)
    requires Parted(a, b, p, e, cut) && SameClose(a, b, p, e, cut) && p <= cut <= q < e - 1 && Site(a, p, q, e - 1)
    requires InertOn(b, p, cut) && Stray(a, b, p, q, cut) && Opens(a, e, 0, home != "")
    requires from <= i < p && e <= end <= |a| && Enclosed(a, i, 0, end) && Passes(a, i, from, 0, end, p, e)
    requires a[i] == '{' && Scan(a, i, from, 0, end, context).Some? && (end < |a| <==> context != "")
    requires LiesIn(Scan(a, i, from, 0, end, context).value, q + 1, home)
    requires Parts(Scan(a, i, from, 0, end, context).value, k, p)
    ensures Broken(b, Scan(b, i, from, 0, end + cut - e, context), Scan(a, i, from, 0, end, context).value,
                   k, p, cut, cut - e)
    decreases |a| - i, 0
  {
    hide Passes, AfterComment, Strip, IsAtRule, Nests, CommentAt, Scan, Close, Enclosed, BlockRules, SameClose,
      SameAfter, SameBefore, Site, LiesIn, Broken, Stray, Opens, InertOn, Parts, Ordered, Nested, DepthAfter, ShiftAll,
      Clings, Both;
    SameAt(a, b, p, i);
    CloseOpen(a, i);
    CloseOpen(b, i);
    PassesStep(a, i, from, 0, end, p, e);
    EnclosedStep(a, i, 0, end);
    ScanStep(a, i, from, 0, end, context);
    ScanStep(b, i, from, 0, end + cut - e, context);
    var close := Close(a, i + 1, 1).value;
    BothParts(BlockRules(a, from, i, close, context), Scan(a, close + 1, close + 1, 0, end, context));
    var block := BlockRules(a, from, i, close, context).value;
    var rest := Scan(a, close + 1, close + 1, 0, end, context).value;
    LiesInParts(block, rest, q + 1, home);
    if p <= close {
      PassesEnds(a, i + 1, i + 1, 0, close, p, e);
      NestedBlock(a, from, i, close, context);
      NestedIsInside(context, Strip(a[from..i]));
      SamePreludeBefore(a, b, from, i, p);
      CloseIsEnclosed(a, i, close);
      ScanIsOrdered(a, close + 1, close + 1, 0, end, context);
      OrderedEnds(a, rest, close + 1, if close + 1 <= end then end else close + 1, p);
      PartsBefore(block, rest, k, p);
      BrokenFrom(a, b, i + 1, i + 1, 0, close, Nested(context, Strip(a[from..i])), p, q, e, cut, home, k);
      CloseAround(a, b, i + 1, i + 1, close, p, e, cut);
      NestedBlock(b, from, i, close + cut - e, context);
      SameOn(a, e, b, cut, close + 1 - e);
      PreludeStarts(a, close + 1, b, close + 1 + cut - e);
      ScanShift(a, close + 1, close + 1, b, close + 1 + cut - e, close + 1 + cut - e, 0, end, end + cut - e, context);
      ShiftNumbers(rest, cut - e);
      BrokenBefore(b, BlockRules(b, from, i, close + cut - e, context), ShiftAll(rest, cut - e), block, rest, k, p,
                   cut, cut - e);
    } else {
      PassesLow(a, close + 1, close + 1, 0, end, p, e);
      ClosePrefix(a, b, i + 1, 1, p);
      BlockBefore(a, b, from, i, close, context, p, e, cut, Delete);
      BlockEnds(a, from, i, close, context);
      PartsAfter(block, rest, k, p);
      BrokenFrom(a, b, close + 1, close + 1, 0, end, context, p, q, e, cut, home, k - |block|);
      BrokenAfter(b, block, Scan(b, close + 1, close + 1, 0, end + cut - e, context), rest, k - |block|, p, cut,
                  cut - e);
    }
  }

  /** A deletion that leaves part of a prelude behind, with a block still to come, is found out: the scan of the result
      has a rule in the deleted one's place whose prelude begins with the remains. */
  lemma {:induction false} OneBroken(css: string, k: nat, out: string) returns (p: nat)
    requires Rules(css).Some? && k < |Rules(css).value|
    requires var r := Rules(css).value[k];
             && Cuttable(css, r) && Inert(css, r) && !Fits(css, r, Delete)
             && out == css[..WalkBack(css, Lo(r))] + css[r.end + 1..]
    ensures var cut := WalkBack(css, Lo(Rules(css).value[k]));
            && Broken(out, Rules(out), Rules(css).value, k, p, cut, |out| - |css|)
            && p <= cut <= |out| && !BlankOn(out, p, cut)
  {
    hide Scan, Close, Strip, IsAtRule, Reaches, Ordered, CommentAt, Passes, WalkBack, Touches, SameAfter, SameBefore,
      Opens, Inert, LiesIn, InertOn, SameClose, Broken, BlankOn;
    var rules := Rules(css).value;
    var r := rules[k];
    p := OrderedSite(css, k);
    var q, e, cut := r.start - 1, r.end + 1, WalkBack(css, Lo(r));
    DeletionIsClean(css, p, q, r);
    StrayIsInert(css, p, r, out);
    assert Deleted(css, out, cut, r.end);
    DeleteCloses(css, out, p, q, r.end, cut);
    DeletedParts(css, out, p, cut, r.end);
    BlankAlike(css, out, p, cut);
    WholeIsEnclosed(css);
    OnlyRule(css, rules, k);
    hide Site;
    ForwardParts(css, rules, k, p);
    BrokenFrom(css, out, 0, 0, 0, |css|, "", p, q, e, cut, r.context, k);
  }

  lemma BlankAlike(a: string, b: string, p: nat, cut: nat)
    requires p <= cut && SameBefore(a, b, cut)
    ensures BlankOn(a, p, cut) == BlankOn(b, p, cut)
  {
    forall k | p <= k < cut
      ensures a[k] == b[k]
    {
      SameAt(a, b, cut, k);
    }
  }

  lemma ForwardParts(css: string, rules: seq<Span>, k: nat, p: nat)
    requires Ordered(css, rules, 0, |css|) && k < |rules| && (forall l :: 0 <= l < k ==> rules[l].end < p)
    requires p < rules[k].start
    ensures Parts(rules, k, p)
  {
    hide Ordered;
    forall l | k <= l < |rules|
      ensures p <= rules[l].end
    {
      StartsBeforeEnd(css, rules, l);
      if k < l {
        LaterRules(css, rules, k, l);
        StartsBeforeEnd(css, rules, k);
      }
    }
  }

  // ----- A prelude of its own -----

  /** The rule's prelude stands before its brace, after `x`. */
  ghost predicate Led(css: string, r: Span, x: int) {
    && 0 < r.start <= r.end && r.start <= |css|
    && exists t: nat :: LedTo(css, r, x, t)
  }

  ghost predicate LedTo(css: string, r: Span, x: int, t: nat) {
    && x + |r.prelude| <= t < r.start <= |css| && |r.prelude| <= t && css[t - |r.prelude|..t] == r.prelude
    && BlankOn(css, t, r.start - 1) && (r.prelude != "" ==> !IsSpace(css[t - 1]))
  }

  lemma StripLonger(css: string, p: nat, cut: nat, q: nat, t: nat)
    requires p <= cut <= t <= q <= |css| && !BlankOn(css, p, cut) && BlankOn(css, t, q)
    requires (t > cut ==> !IsSpace(css[t - 1]))
    ensures |Strip(css[p..q])| > 0 && (t > cut ==> |Strip(css[p..q])| > t - cut)
  {
    hide IsSpace, Strip;
    var lead := StripAt(css, p, q);
    var x := FirstOf(css, p, cut);
    FirstLetter(css, p, q, x);
    var u := lead + |Strip(css[p..q])|;
    assert lead <= x;
    assert t > cut ==> t <= u;
  }

  /** Such a prelude takes in nothing from before `x`. */
  lemma LedDoesNotCling(css: string, p: nat, cut: nat, r: Span)
    requires Led(css, r, cut) && p <= cut <= |css| && !BlankOn(css, p, cut)
    ensures !Clings(css, p, cut, r)
  {
    hide IsSpace, Strip;
    var t: nat :| LedTo(css, r, cut, t);
    if r.prelude == "" {
      var x := FirstOf(css, p, cut);
      FirstLetter(css, p, r.start - 1, x);
    } else {
      StripLonger(css, p, cut, r.start - 1, t);
    }
  }

  lemma FoundIsLed(css: string, k: nat)
    requires Rules(css).Some? && k < |Rules(css).value|
    ensures Led(css, Rules(css).value[k], if k == 0 then 0 else Rules(css).value[k - 1].end + 1)
  {
    hide Scan, Strip, IsSpace, Site, Passes, Ordered;
    var rules := Rules(css).value;
    var p := OrderedSite(css, k);
    StartsBeforeEnd(css, rules, k);
    SiteBrace(css, p, rules[k].start - 1, rules[k].end);
    var r := rules[k];
    var lead := StripAt(css, p, r.start - 1);
    var x := if k == 0 then 0 else rules[k - 1].end + 1;
    assert x <= p;
    LedFrom(css, r, p, lead, x);
  }

  lemma LedFrom(css: string, r: Span, p: nat, lead: nat, x: int)
    requires 0 < r.start <= r.end && r.start <= |css| && x <= p <= lead && lead + |r.prelude| < r.start
    requires css[lead..lead + |r.prelude|] == r.prelude && BlankOn(css, lead + |r.prelude|, r.start - 1)
    requires r.prelude != "" ==> !IsSpace(css[lead + |r.prelude| - 1])
    ensures Led(css, r, x)
  {
    assert LedTo(css, r, x, lead + |r.prelude|);
  }

  lemma LedLower(css: string, r: Span, x: int, y: int)
    requires Led(css, r, x) && y <= x
    ensures Led(css, r, y)
  {
    hide IsSpace;
    var t: nat :| LedTo(css, r, x, t);
    assert LedTo(css, r, y, t);
  }

  lemma LedPrefix(a: string, b: string, r: Span, x: int)
    requires Led(a, r, x) && SameBefore(a, b, r.start)
    ensures Led(b, r, x)
  {
    hide IsSpace;
    var t: nat :| LedTo(a, r, x, t);
    forall k | 0 <= k < r.start
      ensures a[k] == b[k]
    {
      SameAt(a, b, r.start, k);
    }
    SamePreludeBefore(a, b, t - |r.prelude|, t, r.start);
    assert LedTo(b, r, x, t);
  }

  lemma LedShift(a: string, b: string, r: Span, e: nat, e2: nat)
    requires Led(a, r, e) && SameAfter(a, e, b, e2)
    ensures Led(b, Shift(r, e2 - e), e2)
    ensures Shift(r, e2 - e).start == r.start + e2 - e && Shift(r, e2 - e).end == r.end + e2 - e
  {
    hide LedTo, SameAfter;
    var t: nat :| LedTo(a, r, e, t);
    SameBounds(a, e, b, e2);
    LedToShift(a, b, r, e, e2, t);
    var u: nat := t + e2 - e;
    assert LedTo(b, Shift(r, e2 - e), e2, u);
  }

  lemma LedToShift(a: string, b: string, r: Span, e: nat, e2: nat, t: nat)
    requires 0 < r.start <= r.end && LedTo(a, r, e, t) && SameAfter(a, e, b, e2)
    ensures e <= t < r.start <= |a| && LedTo(b, Shift(r, e2 - e), e2, t + e2 - e)
  {
    hide IsSpace, SameAfter, BlankOn;
    var d, s := e2 - e, Shift(r, e2 - e);
    SameBounds(a, e, b, e2);
    SliceMoves(a, e, b, e2, t - |r.prelude|, t);
    SliceMoves(a, e, b, e2, t, r.start - 1);
    BlankSlices(a, t, r.start - 1, b, t + d, s.start - 1);
    if r.prelude != "" {
      CharMoves(a, e, b, e2, t - 1);
    }
  }

  lemma CharMoves(a: string, e: nat, b: string, e2: nat, x: nat)
    requires SameAfter(a, e, b, e2) && e <= x < |a|
    ensures 0 <= x + e2 - e < |b| && b[x + e2 - e] == a[x]
  {
    SameBounds(a, e, b, e2);
    assert a[e..][x - e] == b[e2..][x - e];
  }

  lemma BlankSlices(a: string, x: nat, y: nat, b: string, x2: nat, y2: nat)
    requires x <= y <= |a| && x2 <= y2 <= |b| && a[x..y] == b[x2..y2] && BlankOn(a, x, y)
    ensures BlankOn(b, x2, y2)
  {
    hide IsSpace;
    forall k | x2 <= k < y2
      ensures IsSpace(b[k])
    {
      assert b[k] == b[x2..y2][k - x2] == a[x..y][k - x2] == a[x + k - x2];
    }
  }

  // ----- What the scan should find -----

  /** The rules as they should be found in the text in which the edits from the `k`-th on are done: those not deleted,
      each moved by what the edits before it add or take away. */
  function Expected(css: string, rules: seq<Span>, edits: seq<Edit>, k: nat): (found: seq<Span>)
    requires Spliceable(css, rules, edits) && k <= |rules|
    ensures k <= |found| && found[..k] == rules[..k]
    decreases |rules| - k
  {
    if k == |rules| then
      assert rules[..k] == rules;
      rules
    else
      var later := Expected(css, rules, edits, k + 1);
      assert later[..k] == later[..k + 1][..k] && rules[..k] == rules[..k + 1][..k];
      if edits[k].Keep? then later
      else
        var moved := |Rebuild(css, rules, edits, k, 0)| - |Rebuild(css, rules, edits, k + 1, 0)|;
        Edited(later, k, rules[k], edits[k], moved)
  }

  /** One rule of a list edited, and the later ones moved. */
  function Edited(found: seq<Span>, k: nat, r: Span, edit: Edit, moved: int): (next: seq<Span>)
    requires k < |found|
    ensures k <= |next| && next[..k] == found[..k]
  {
    found[..k] + EditedSpan(r, edit) + ShiftAll(found[k + 1..], moved)
  }

  /** Where the text of the `k`-th rule can begin. */
  function Floor(rules: seq<Span>, k: nat): nat
    requires k <= |rules|
  {
    if k == 0 then 0 else rules[k - 1].end + 1
  }

  /** How one edit moves the text after it. */
  lemma TailMoves(css: string, rules: seq<Span>, edits: seq<Edit>, k: nat)
    requires Spliceable(css, rules, edits) && Ordered(css, rules, 0, |css|) && k < |rules| && !edits[k].Keep?
    ensures var later, out, r := Rebuild(css, rules, edits, k + 1, 0), Rebuild(css, rules, edits, k, 0), rules[k];
            var e2 := r.end + 1 + |out| - |later|;
            && Cuttable(later, r) && CutEnd(r, edits[k]) <= |later|
            && out == later[..CutStart(later, r, edits[k])] + Inserted(edits[k]) + later[CutEnd(r, edits[k])..]
            && SameBefore(css, later, r.end + 1) && SameBefore(css, out, CutStart(later, r, edits[k]))
            && Floor(rules, k) <= e2 && SameAfter(later, r.end + 1, out, e2)
            && (edits[k].Delete? ==> e2 == WalkBack(later, Lo(r)))
  {
    hide Ordered, Rebuild, WalkBack;
    var later, out := Rebuild(css, rules, edits, k + 1, 0), Rebuild(css, rules, edits, k, 0);
    var r, edit := rules[k], edits[k];
    StartsBeforeEnd(css, rules, k);
    EditStep(css, rules, edits, k, later);
    EditMovesAlong(css, r, edit, later);
    CutsWithin(later, r, edit);
    var cut := CutStart(later, r, edit);
    EditTail(later, r, edit, cut, out);
    assert out[..cut] == later[..cut];
    SameShorter(css, later, r.end + 1, cut);
    if k > 0 {
      CutsAfter(css, rules, edits, k - 1, k);
    }
  }

  ghost predicate AllLed(css: string, found: seq<Span>, k: nat, x: int) {
    k <= |found| && forall l :: k <= l < |found| ==> Led(css, found[l], x)
  }

  /** Every rule that should be found has a prelude of its own in the new text. */
  lemma {:induction false} ExpectedLed(css: string, rules: seq<Span>, edits: seq<Edit>, k: nat)
    requires Rules(css) == Some(rules) && Spliceable(css, rules, edits) && Ordered(css, rules, 0, |css|) && k <= |rules|
    ensures AllLed(Rebuild(css, rules, edits, k, 0), Expected(css, rules, edits, k), k, Floor(rules, k))
    decreases |rules| - k
  {
    hide Rules, Ordered, Rebuild, Led, Edited;
    if k < |rules| {
      ExpectedLed(css, rules, edits, k + 1);
      FoundIsLed(css, k);
      var later, found := Rebuild(css, rules, edits, k + 1, 0), Expected(css, rules, edits, k + 1);
      assert found[k] == found[..k + 1][k] == rules[k];
      StartsBeforeEnd(css, rules, k);
      OrderedFloor(css, rules, k);
      if edits[k].Keep? {
        EditStep(css, rules, edits, k, later);
        KeepStep(css, rules, edits, k);
        KeepLed(css, later, found, k, rules[k], Floor(rules, k));
      } else {
        var out := Rebuild(css, rules, edits, k, 0);
        TailMoves(css, rules, edits, k);
        EditLed(css, later, found, k, rules[k], edits[k], out, Floor(rules, k));
      }
    }
  }

  lemma OrderedFloor(css: string, rules: seq<Span>, k: nat)
    requires Ordered(css, rules, 0, |css|) && k < |rules|
    ensures Floor(rules, k) <= rules[k].end + 1 == Floor(rules, k + 1)
  {
    hide Ordered;
    if k > 0 {
      LaterRules(css, rules, k - 1, k);
    }
  }

  lemma KeepLed(css: string, later: string, found: seq<Span>, k: nat, r: Span, floor: nat)
    requires k < |found| && found[k] == r && r.start <= r.end && Led(css, r, floor) && SameBefore(css, later, r.end + 1)
    requires AllLed(later, found, k + 1, r.end + 1) && floor <= r.end + 1
    ensures AllLed(later, found, k, floor)
  {
    hide Led;
    forall l | k <= l < |found|
      ensures Led(later, found[l], floor)
    {
      if l == k {
        SameShorter(css, later, r.end + 1, r.start);
        LedPrefix(css, later, r, floor);
      } else {
        LedLower(later, found[l], r.end + 1, floor);
      }
    }
  }

  lemma EditLed(css: string, later: string, found: seq<Span>, k: nat, r: Span, edit: Edit, out: string, floor: nat)
    requires k < |found| && found[k] == r && r.start <= r.end && !edit.Keep? && Led(css, r, floor)
    requires AllLed(later, found, k + 1, r.end + 1) && 0 <= Lo(r) <= |later|
    requires SameBefore(css, out, CutStart(later, r, edit))
    requires var e2 := r.end + 1 + |out| - |later|; floor <= e2 && SameAfter(later, r.end + 1, out, e2)
    ensures AllLed(out, Edited(found, k, r, edit, |out| - |later|), k, floor)
  {
    hide Led;
    var next, d := Edited(found, k, r, edit, |out| - |later|), |out| - |later|;
    var mid := EditedSpan(r, edit);
    forall l | k <= l < |next|
      ensures Led(out, next[l], floor)
    {
      if l < k + |mid| {
        assert next[l] == mid[l - k];
        LedPrefix(css, out, r, floor);
        LedOtherEnd(out, r, mid[0], floor);
      } else {
        var x := found[l - |mid| + 1];
        assert next[l] == Shift(x, d);
        LedShift(later, out, x, r.end + 1, r.end + 1 + d);
        LedLower(out, next[l], r.end + 1 + d, floor);
      }
    }
  }

  lemma LedOtherEnd(css: string, r: Span, s: Span, x: int)
    requires Led(css, r, x) && s.prelude == r.prelude && s.start == r.start <= s.end
    ensures Led(css, s, x)
  {
    hide IsSpace;
    var t: nat :| LedTo(css, r, x, t);
    assert LedTo(css, s, x, t);
  }

  // ----- Edit by edit -----

  /** The edits from the `k`-th on fit. */
  ghost predicate FitFrom(css: string, rules: seq<Span>, edits: seq<Edit>, k: nat)
    requires Spliceable(css, rules, edits)
  {
    forall l :: k <= l < |rules| ==> FitsThere(css, rules, edits, l)
  }

  lemma FitFromStep(css: string, rules: seq<Span>, edits: seq<Edit>, k: nat)
    requires Spliceable(css, rules, edits) && k < |rules|
    ensures FitFrom(css, rules, edits, k) <==> FitsThere(css, rules, edits, k) && FitFrom(css, rules, edits, k + 1)
  {
    hide FitsThere, Spliceable;
  }

  /** The text in which the edits from the `k`-th on are done scans, finds the first `k` rules where they were, and
      finds what it should exactly when those edits fit. */
  ghost predicate FoundExactly(css: string, rules: seq<Span>, edits: seq<Edit>, k: nat)
    requires Spliceable(css, rules, edits) && k <= |rules|
  {
    && Rules(Rebuild(css, rules, edits, k, 0)).Some?
    && var found := Rules(Rebuild(css, rules, edits, k, 0)).value;
       && k <= |found| && found[..k] == rules[..k]
       && (found == Expected(css, rules, edits, k) <==> FitFrom(css, rules, edits, k))
  }

  /** Replacements keep their bodies to themselves. */
  predicate BodiesContained(edits: seq<Edit>) {
    forall k :: 0 <= k < |edits| && edits[k].Replace? ==> Contained(edits[k].body)
  }

  lemma {:induction false} FoundFrom(css: string, rules: seq<Span>, edits: seq<Edit>, k: nat)
    requires Rules(css) == Some(rules) && Spliceable(css, rules, edits) && Ordered(css, rules, 0, |css|) && k <= |rules|
    requires StraysInert(css, rules, edits) && BodiesContained(edits)
    ensures FoundExactly(css, rules, edits, k)
    decreases |rules| - k
  {
    hide Rules, Ordered, Rebuild, Expected, FitFrom, InertThere, Contained;
    if k == |rules| {
      RebuildNone(css, rules, edits);
      ExpectedNone(css, rules, edits);
      assert rules[..k] == rules;
    } else {
      FoundFrom(css, rules, edits, k + 1);
      assert InertThere(css, rules, edits, k);
      if edits[k].Keep? {
        FoundKeep(css, rules, edits, k);
      } else {
        FoundEdit(css, rules, edits, k);
      }
    }
  }

  lemma ExpectedNone(css: string, rules: seq<Span>, edits: seq<Edit>)
    requires Spliceable(css, rules, edits)
    ensures Expected(css, rules, edits, |rules|) == rules && FitFrom(css, rules, edits, |rules|)
  {
  }

  lemma ExpectedStep(css: string, rules: seq<Span>, edits: seq<Edit>, k: nat)
    requires Spliceable(css, rules, edits) && k < |rules|
    ensures var later := Expected(css, rules, edits, k + 1);
            Expected(css, rules, edits, k) ==
            if edits[k].Keep? then later
            else Edited(later, k, rules[k], edits[k],
                        |Rebuild(css, rules, edits, k, 0)| - |Rebuild(css, rules, edits, k + 1, 0)|)
  {
    hide Spliceable, Rebuild, Edited;
  }

  lemma FoundKeep(css: string, rules: seq<Span>, edits: seq<Edit>, k: nat)
    requires Spliceable(css, rules, edits) && Ordered(css, rules, 0, |css|) && k < |rules| && edits[k].Keep?
    requires FoundExactly(css, rules, edits, k + 1)
    ensures FoundExactly(css, rules, edits, k)
  {
    hide Rules, Ordered, Rebuild, Expected, FitFrom;
    var later := Rebuild(css, rules, edits, k + 1, 0);
    KeepStep(css, rules, edits, k);
    ExpectedStep(css, rules, edits, k);
    FitFromStep(css, rules, edits, k);
    EditStep(css, rules, edits, k, later);
    StartsBeforeEnd(css, rules, k);
    var found := Rules(later).value;
    assert found[..k] == found[..k + 1][..k] && rules[..k] == rules[..k + 1][..k];
  }

  lemma {:induction false} FoundEdit(css: string, rules: seq<Span>, edits: seq<Edit>, k: nat)
    requires Rules(css) == Some(rules) && Spliceable(css, rules, edits) && Ordered(css, rules, 0, |css|) && k < |rules|
    requires !edits[k].Keep? && InertThere(css, rules, edits, k) && (edits[k].Replace? ==> Contained(edits[k].body))
    requires FoundExactly(css, rules, edits, k + 1)
    ensures FoundExactly(css, rules, edits, k)
  {
    hide Rules, Ordered, Rebuild, Expected, FitFrom, Fits, Inert, Contained, WalkBack, AllLed, Edited, CutStart, CutEnd,
      Inserted, SameAfter, SameBefore, Cuttable;
    var later, out := Rebuild(css, rules, edits, k + 1, 0), Rebuild(css, rules, edits, k, 0);
    var found, due := Rules(later).value, Expected(css, rules, edits, k + 1);
    TailMoves(css, rules, edits, k);
    ExpectedStep(css, rules, edits, k);
    ExpectedLed(css, rules, edits, k + 1);
    FitFromStep(css, rules, edits, k);
    assert found[k] == found[..k + 1][k] == rules[k];
    assert due[k] == due[..k + 1][k] == rules[k];
    assert found[..k] == found[..k + 1][..k] && rules[..k] == rules[..k + 1][..k];
    if Fits(later, rules[k], edits[k]) {
      FoundFits(later, found, due, k, edits[k], out);
    } else {
      FoundBroken(later, found, due, k, edits[k], out);
    }
  }

  lemma FoundFits(later: string, found: seq<Span>, due: seq<Span>, k: nat, edit: Edit, out: string)
    requires Rules(later) == Some(found) && k < |found| && k < |due| && found[..k + 1] == due[..k + 1] && !edit.Keep?
    requires var r := found[k];
             && Cuttable(later, r) && Fits(later, r, edit) && (edit.Delete? ==> Inert(later, r))
             && CutEnd(r, edit) <= |later|
             && out == later[..CutStart(later, r, edit)] + Inserted(edit) + later[CutEnd(r, edit)..]
             && AllLed(later, due, k + 1, r.end + 1) && r.end + 1 + |out| - |later| >= 0
    ensures Rules(out).Some? && k <= |Rules(out).value| && Rules(out).value[..k] == found[..k]
    ensures Rules(out).value == Edited(due, k, found[k], edit, |out| - |later|) <==> found == due
  {
    hide Rules, Ordered, Fits, Inert, WalkBack, AllLed, CutStart, CutEnd, Inserted, Edited;
    OneEdit(later, k, edit, out);
    EditedIs(found, k, found[k], edit, |out| - |later|);
    ScanIsOrderedRules(later);
    assert found[k] == found[..k + 1][k] == due[..k + 1][k] == due[k];
    SameEdited(later, found, due, k, edit, |out| - |later|);
  }

  lemma FoundBroken(later: string, found: seq<Span>, due: seq<Span>, k: nat, edit: Edit, out: string)
    requires Rules(later) == Some(found) && k < |found| && k < |due| && found[..k + 1] == due[..k + 1] && !edit.Keep?
    requires var r := found[k];
             && Cuttable(later, r) && !Fits(later, r, edit) && (edit.Replace? ==> Contained(edit.body))
             && (edit.Delete? ==> Inert(later, r)) && CutEnd(r, edit) <= |later|
             && out == later[..CutStart(later, r, edit)] + Inserted(edit) + later[CutEnd(r, edit)..]
             && AllLed(later, due, k + 1, r.end + 1)
             && (edit.Delete? ==> r.end + 1 + |out| - |later| == WalkBack(later, Lo(r))
                                  && SameAfter(later, r.end + 1, out, WalkBack(later, Lo(r))))
    ensures Rules(out).Some? && k <= |Rules(out).value| && Rules(out).value[..k] == found[..k]
    ensures Rules(out).value != Edited(due, k, found[k], edit, |out| - |later|)
  {
    hide Rules, Ordered, Fits, Inert, WalkBack, AllLed, CutStart, CutEnd, Inserted, Edited, SameAfter, Clings,
      Displaces, BlankOn, Contained;
    NoFit(later, found[k], edit);
    var p := OneBroken(later, k, out);
    assert found[..k] == found[..k + 1][..k] && due[..k] == due[..k + 1][..k];
    BrokenDiffers(later, due, k, found[k], out, p);
  }

  lemma EditedIs(found: seq<Span>, k: nat, r: Span, edit: Edit, moved: int)
    requires k < |found| && found[k] == r
    ensures Edited(found, k, r, edit, moved)
         == found[..k] + EditedSpan(found[k], edit) + ShiftAll(found[k + 1..], moved)
  {
  }

  lemma NoFit(css: string, r: Span, edit: Edit)
    requires Cuttable(css, r) && !edit.Keep? && !Fits(css, r, edit) && (edit.Replace? ==> Contained(edit.body))
    ensures edit.Delete? && !Fits(css, r, Delete) && CutStart(css, r, edit) == WalkBack(css, Lo(r))
    ensures CutEnd(r, edit) == r.end + 1
    ensures Inserted(edit) == "" && forall a: string :: a + Inserted(edit) == a
    ensures EditedSpan(r, edit) == []
  {
    hide Contained, WalkBack, Touches, Opens;
    assert forall a: string :: a + "" == a;
  }

  /** Editing two lists alike keeps them different, if they were. */
  lemma SameEdited(later: string, found: seq<Span>, due: seq<Span>, k: nat, edit: Edit, moved: int)
    requires k < |found| && k < |due| && found[..k + 1] == due[..k + 1] && Ordered(later, found, 0, |later|)
    requires AllLed(later, due, k + 1, found[k].end + 1) && found[k].end + 1 + moved >= 0
    ensures Edited(found, k, found[k], edit, moved) == Edited(due, k, due[k], edit, moved) <==> found == due
  {
    hide Ordered, Led;
    assert found[k] == found[..k + 1][k] && due[k] == due[..k + 1][k];
    assert found[..k] == found[..k + 1][..k] && due[..k] == due[..k + 1][..k];
    var x, y := Edited(found, k, found[k], edit, moved), Edited(due, k, due[k], edit, moved);
    var m := k + |EditedSpan(found[k], edit)|;
    assert x[m..] == ShiftAll(found[k + 1..], moved) && y[m..] == ShiftAll(due[k + 1..], moved);
    if x == y {
      assert |found| == |due|;
      forall l | 0 <= l < |found|
        ensures found[l] == due[l]
      {
        if l <= k {
          assert found[l] == found[..k + 1][l] && due[l] == due[..k + 1][l];
        } else {
          assert x[m..][l - k - 1] == Shift(found[l], moved) && y[m..][l - k - 1] == Shift(due[l], moved);
          LaterRules(later, found, k, l);
          StartsBeforeEnd(later, found, l);
          LedStarts(later, due[l], found[k].end + 1);
        }
      }
    }
  }

  lemma LedStarts(css: string, r: Span, x: int)
    requires Led(css, r, x)
    ensures x < r.start <= r.end
  {
  }

  /** A rule with a prelude of its own is not the one a failed deletion leads to. */
  lemma BrokenDiffers(later: string, due: seq<Span>, k: nat, r: Span, out: string, p: nat)
    requires k < |due| && 0 <= Lo(r) <= |later| && AllLed(later, due, k + 1, r.end + 1)
    requires var cut := WalkBack(later, Lo(r));
             && Rules(out).Some? && k < |Rules(out).value| && Rules(out).value[..k] == due[..k]
             && Clings(out, p, cut, Rules(out).value[k]) && p <= cut <= |out| && !BlankOn(out, p, cut)
             && SameAfter(later, r.end + 1, out, cut) && cut == r.end + 1 + |out| - |later|
    ensures Rules(out).Some? && k <= |Rules(out).value| && Rules(out).value[..k] == due[..k]
    ensures Rules(out).value != Edited(due, k, r, Delete, |out| - |later|)
  {
    hide Rules, Led, WalkBack, BlankOn, Clings, SameAfter;
    var cut := WalkBack(later, Lo(r));
    var next := Edited(due, k, r, Delete, |out| - |later|);
    if k < |next| {
      assert next[k] == Shift(due[k + 1], |out| - |later|);
      LedShift(later, out, due[k + 1], r.end + 1, cut);
      LedDoesNotCling(out, p, cut, next[k]);
    }
  }

  // ----- Replaced bodies -----

  /** The list has a rule with this body between its braces. */
  ghost predicate Holds(css: string, found: seq<Span>, k: nat, body: string) {
    exists l :: HoldsAt(css, found, k, l, body)
  }

  ghost predicate HoldsAt(css: string, found: seq<Span>, k: nat, l: nat, body: string) {
    && k <= l < |found| && found[l].end == found[l].start + |body|
    && found[l].end < |css| && css[found[l].start..found[l].end + 1] == body + "}"
  }

  /** Where a replaced body should be found, it stands. */
  lemma {:induction false} BodyStays(css: string, rules: seq<Span>, edits: seq<Edit>, k: nat, m: nat)
    requires Rules(css) == Some(rules) && Spliceable(css, rules, edits) && Ordered(css, rules, 0, |css|)
    requires m <= k < |rules| && edits[k].Replace?
    ensures Holds(Rebuild(css, rules, edits, m, 0), Expected(css, rules, edits, m), m, edits[k].body)
    decreases k - m
  {
    hide Rules, Ordered, Rebuild, Expected, WalkBack, AllLed, HoldsAt, Edited, SameAfter;
    var body := edits[k].body;
    var later, found := Rebuild(css, rules, edits, m + 1, 0), Expected(css, rules, edits, m + 1);
    var out := Rebuild(css, rules, edits, m, 0);
    ExpectedStep(css, rules, edits, m);
    assert found[m] == found[..m + 1][m] == rules[m];
    if m == k {
      TailMoves(css, rules, edits, m);
      BracedEnd(css, rules, k);
      SameAt(css, later, rules[k].end + 1, rules[k].end);
      BodyHere(later, found, k, rules[k], body, out);
    } else {
      BodyStays(css, rules, edits, k, m + 1);
      var l: nat :| HoldsAt(later, found, m + 1, l, body);
      if edits[m].Keep? {
        KeepStep(css, rules, edits, m);
        HoldsLower(out, found, m, l, body);
      } else {
        TailMoves(css, rules, edits, m);
        ExpectedLed(css, rules, edits, m + 1);
        BodyMoves(later, found, m, l, rules[m], edits[m], body, out);
      }
    }
  }

  lemma BracedEnd(css: string, rules: seq<Span>, k: nat)
    requires Ordered(css, rules, 0, |css|) && k < |rules|
    ensures rules[k].start <= rules[k].end < |css| && css[rules[k].end] == '}'
  {
  }

  lemma HoldsLower(css: string, found: seq<Span>, m: nat, l: nat, body: string)
    requires HoldsAt(css, found, m + 1, l, body)
    ensures Holds(css, found, m, body)
  {
    assert HoldsAt(css, found, m, l, body);
  }

  lemma BodyHere(later: string, found: seq<Span>, k: nat, r: Span, body: string, out: string)
    requires k < |found| && r.start <= r.end < |later| && later[r.end] == '}'
    requires out == later[..r.start] + body + later[r.end..]
    ensures Holds(out, Edited(found, k, r, Replace(body), |out| - |later|), k, body)
  {
    var next := Edited(found, k, r, Replace(body), |out| - |later|);
    assert next[k] == Span(r.prelude, r.start, r.start + |body|, r.context);
    assert out[r.start..r.start + |body| + 1] == body + [later[r.end]];
    assert HoldsAt(out, next, k, k, body);
  }

  lemma BodyMoves(later: string, found: seq<Span>, m: nat, l: nat, r: Span, edit: Edit, body: string, out: string)
    requires HoldsAt(later, found, m + 1, l, body) && AllLed(later, found, m + 1, r.end + 1) && m < |found|
    requires var e2 := r.end + 1 + |out| - |later|; 0 <= e2 && SameAfter(later, r.end + 1, out, e2)
    ensures Holds(out, Edited(found, m, r, edit, |out| - |later|), m, body)
  {
    hide Led;
    var e, d := r.end + 1, |out| - |later|;
    var next, x := Edited(found, m, r, edit, d), found[l];
    LedStarts(later, x, e);
    var n := l + |EditedSpan(r, edit)| - 1;
    assert next[n] == Shift(x, d);
    SameOn(later, e, out, e + d, x.start - e);
    hide EditedSpan;
    SliceMoves(later, e, out, e + d, x.start, x.end + 1);
    assert HoldsAt(out, next, m, n, body);
  }

  lemma SliceMoves(a: string, e: nat, b: string, e2: nat, x: nat, y: nat)
    requires SameAfter(a, e, b, e2) && e <= x <= y <= |a|
    ensures 0 <= x + e2 - e && y + e2 - e <= |b| && b[x + e2 - e..y + e2 - e] == a[x..y]
  {
    SameBounds(a, e, b, e2);
    forall k | x <= k < y
      ensures a[k] == b[k + e2 - e]
    {
      assert a[e..][k - e] == b[e2..][k - e];
    }
    var u, v := a[x..y], b[x + e2 - e..y + e2 - e];
    forall n | 0 <= n < |u|
      ensures u[n] == v[n]
    {
      assert a[x + n] == b[x + n + e2 - e];
    }
  }

  /** A body that closes where it should, wherever it stands, is contained. */
  lemma ClosesIsContained(css: string, i: nat, body: string)
    requires i + |body| < |css| && css[i..i + |body| + 1] == body + "}" && Close(css, i, 1) == Some(i + |body|)
    ensures Contained(body)
  {
    hide Close;
    var tail, alone := css[i..], body + "}";
    assert tail[0..] == tail;
    CloseShift(css, i, tail, 0, 1);
    assert tail[..|alone|] == css[i..i + |alone|];
    assert alone[..|alone|] == alone;
    ClosePrefix(tail, alone, 0, 1, |alone|);
  }

  lemma FoundBodiesContained(css: string, rules: seq<Span>, edits: seq<Edit>)
    requires Rules(css) == Some(rules) && Spliceable(css, rules, edits) && Ordered(css, rules, 0, |css|)
    requires Rules(Rebuild(css, rules, edits, 0, 0)) == Some(Expected(css, rules, edits, 0))
    ensures BodiesContained(edits)
  {
    hide Rules, Ordered, Rebuild, Expected, Close, Contained;
    var out := Rebuild(css, rules, edits, 0, 0);
    forall k | 0 <= k < |edits| && edits[k].Replace?
      ensures Contained(edits[k].body)
    {
      BodyStays(css, rules, edits, k, 0);
      var found := Expected(css, rules, edits, 0);
      var l: nat :| HoldsAt(out, found, 0, l, edits[k].body);
      ScanIsOrderedRules(out);
      OrderedClose(out, found, l);
      ClosesIsContained(out, found[l].start, edits[k].body);
    }
  }

  lemma OrderedClose(css: string, rules: seq<Span>, k: nat)
    requires Ordered(css, rules, 0, |css|) && k < |rules|
    ensures rules[k].start <= |css| && Close(css, rules[k].start, 1) == Some(rules[k].end)
  {
  }

  /** The rewritten stylesheet scans as it should, every rule that was not deleted in its place and no other, exactly
      when every new body keeps its braces and comments to itself and every deleted rule's prelude touches its brace or
      has no block after it. */
  lemma RescanExactly(css: string, rules: seq<Span>, edits: seq<Edit>)
    requires Rules(css) == Some(rules) && Spliceable(css, rules, edits) && StraysInert(css, rules, edits)
    ensures Rules(Rebuild(css, rules, edits, 0, 0)) == Some(Expected(css, rules, edits, 0))
            <==> TextFits(css, rules, edits)
  {
    hide Rules, Ordered, Rebuild, Expected, Spliceable, StraysInert, FitsThere;
    ScanIsOrderedRules(css);
    if Rules(Rebuild(css, rules, edits, 0, 0)) == Some(Expected(css, rules, edits, 0)) {
      FoundBodiesContained(css, rules, edits);
      FoundFrom(css, rules, edits, 0);
    }
    if TextFits(css, rules, edits) {
      FittingBodies(css, rules, edits);
      FoundFrom(css, rules, edits, 0);
    }
  }

  lemma FittingBodies(css: string, rules: seq<Span>, edits: seq<Edit>)
    requires Spliceable(css, rules, edits) && TextFits(css, rules, edits)
    ensures BodiesContained(edits)
  {
    hide Contained, Rebuild;
    forall k | 0 <= k < |edits| && edits[k].Replace?
      ensures Contained(edits[k].body)
    {
      assert FitsThere(css, rules, edits, k);
    }
  }

  // ----- One deletion -----

  lemma EarlierViews(css: string, rules: seq<Span>, out: string, found: seq<Span>, k: nat, cut: nat)
    requires InText(css, rules) && InText(out, found) && k <= |rules| && k <= |found| && found[..k] == rules[..k]
    requires SameBefore(css, out, cut) && forall l :: 0 <= l < k ==> rules[l].end < cut
    ensures Views(out, found)[..k] == Views(css, rules)[..k]
  {
    var x, y := Views(out, found)[..k], Views(css, rules)[..k];
    forall l | 0 <= l < k
      ensures x[l] == y[l]
    {
      assert found[l] == found[..k][l] == rules[..k][l] == rules[l];
      SameView(css, out, rules[l], cut);
    }
  }

  /** What the cut of the `k`-th rule leaves of the text. */
  lemma CutText(css: string, rules: seq<Span>, k: nat, out: string)
    requires Rules(css) == Some(rules) && k < |rules| && Cuttable(css, rules[k])
    requires out == css[..WalkBack(css, Lo(rules[k]))] + css[rules[k].end + 1..]
    ensures var cut := WalkBack(css, Lo(rules[k]));
            && SameBefore(css, out, cut) && cut == rules[k].end + 1 + |out| - |css|
            && SameAfter(css, rules[k].end + 1, out, cut) && (forall l :: 0 <= l < k ==> rules[l].end < cut)
  {
    hide Rules, Ordered, WalkBack;
    var cut := WalkBack(css, Lo(rules[k]));
    assert out[..cut] == css[..cut] && out[cut..] == css[rules[k].end + 1..];
    ScanIsOrderedRules(css);
    forall l | 0 <= l < k
      ensures rules[l].end < cut
    {
      CutsBehind(css, rules, l, k);
    }
  }

  lemma CutsBehind(css: string, rules: seq<Span>, l: nat, k: nat)
    requires Ordered(css, rules, 0, |css|) && l < k < |rules| && Cuttable(css, rules[k])
    ensures rules[l].end < WalkBack(css, Lo(rules[k]))
  {
    hide Close;
    WalkBackStops(css, Lo(rules[k]), rules[l].end);
  }

  lemma FittingDeletionReads(css: string, rules: seq<Span>, k: nat, out: string)
    requires Rules(css) == Some(rules) && k < |rules| && InText(css, rules) && Cuttable(css, rules[k])
    requires Inert(css, rules[k]) && Fits(css, rules[k], Delete)
    requires out == css[..WalkBack(css, Lo(rules[k]))] + css[rules[k].end + 1..]
    ensures Rules(out).Some? && InText(out, Rules(out).value)
    ensures Views(out, Rules(out).value) == Views(css, rules)[..k] + Views(css, rules)[k + 1..]
  {
    hide Rules, Ordered, WalkBack, Inert, Fits, InText, ShiftAll, Views;
    var r, cut := rules[k], WalkBack(css, Lo(rules[k]));
    assert css[..cut] + "" == css[..cut];
    OneEdit(css, k, Delete, out);
    ScanIsOrderedRules(css);
    ScanIsOrderedRules(out);
    var found := Rules(out).value;
    OrderedInText(out, found);
    CutText(css, rules, k, out);
    TailViews(css, rules, k, Delete, out, found);
    assert found[..k] == rules[..k];
    EarlierViews(css, rules, out, found, k, cut);
    var views := Views(out, found);
    assert views == views[..k] + views[k..];
  }

  lemma MissingAt<T>(views: seq<T>, k: nat)
    requires k + 1 < |views|
    ensures (views[..k] + views[k + 1..])[k] == views[k + 1]
  {
  }

  lemma BrokenDeletionReads(css: string, rules: seq<Span>, k: nat, out: string)
    requires Rules(css) == Some(rules) && k < |rules| && InText(css, rules) && Cuttable(css, rules[k])
    requires Inert(css, rules[k]) && !Fits(css, rules[k], Delete)
    requires out == css[..WalkBack(css, Lo(rules[k]))] + css[rules[k].end + 1..]
    ensures Rules(out).Some? && InText(out, Rules(out).value)
    ensures Views(out, Rules(out).value) != Views(css, rules)[..k] + Views(css, rules)[k + 1..]
  {
    hide Rules, Ordered, WalkBack, Inert, Fits, InText, Led, Clings, BlankOn, SameBefore, SameAfter;
    var cut := WalkBack(css, Lo(rules[k]));
    var p := OneBroken(css, k, out);
    ScanIsOrderedRules(out);
    var found := Rules(out).value;
    OrderedInText(out, found);
    CutText(css, rules, k, out);
    if |found| + 1 == |rules| {
      var x, y := found[k], rules[k + 1];
      FoundIsLed(css, k + 1);
      LedShift(css, out, y, rules[k].end + 1, cut);
      LedDoesNotCling(out, p, cut, Shift(y, |out| - |css|));
      if x.start == Shift(y, |out| - |css|).start {
        ClingsByStart(out, p, cut, x, Shift(y, |out| - |css|));
      }
      MissingAt(Views(css, rules), k);
      ViewAt(out, found, k);
      ViewAt(css, rules, k + 1);
    }
  }

  lemma ClingsByStart(css: string, p: nat, cut: nat, x: Span, y: Span)
    requires Clings(css, p, cut, x) && !Clings(css, p, cut, y) && x.start == y.start
    ensures x.prelude != y.prelude
  {
  }

  /** One deletion leaves the other rules as they read, if and only if the prelude touches its brace or no block follows
      in its own. */
  lemma DeletionReadsExactly(css: string, k: nat, out: string)
    requires Rules(css).Some? && k < |Rules(css).value|
    requires var r := Rules(css).value[k];
             Cuttable(css, r) && Inert(css, r) && out == css[..WalkBack(css, Lo(r))] + css[r.end + 1..]
    ensures var rules := Rules(css).value;
            && InText(css, rules) && Rules(out).Some? && InText(out, Rules(out).value)
            && (Views(out, Rules(out).value) == Views(css, rules)[..k] + Views(css, rules)[k + 1..]
                <==> Touches(css, rules[k]) || !Opens(css, rules[k].end + 1, 0, rules[k].context != ""))
  {
    hide Rules, Ordered, WalkBack, Inert, InText, Views, Touches, Opens;
    var rules := Rules(css).value;
    ScanIsOrderedRules(css);
    OrderedInText(css, rules);
    if Fits(css, rules[k], Delete) {
      FittingDeletionReads(css, rules, k, out);
    } else {
      BrokenDeletionReads(css, rules, k, out);
    }
  }
}
