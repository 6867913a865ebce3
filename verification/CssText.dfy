/** The stylesheet as text: scanning it into rule spans, and splicing the rewritten rules back. */
module CssText {
  import opened PythonText
  import opened Wrappers

  /** A leaf rule: stripped prelude, the span of its body, and the enclosing at-rules. */
  datatype Span = Span(prelude: string, start: nat, end: nat, context: string)

  // ----- Comments and braces -----

  /** The next end of a comment from `from` on, or the text's length when there is none. */
  function CommentClose(css: string, from: nat): (k: nat)
    requires from <= |css|
    ensures from <= k <= |css|
    ensures k < |css| ==> k + 1 < |css| && css[k] == '*' && css[k + 1] == '/'
    decreases |css| - from
  {
    if from + 1 >= |css| then |css|
    else if css[from] == '*' && css[from + 1] == '/' then from
    else CommentClose(css, from + 1)
  }

  predicate CommentAt(css: string, i: nat) {
    i + 1 < |css| && css[i] == '/' && css[i + 1] == '*'
  }

  /** Where scanning resumes after a comment; an unclosed one swallows the rest. */
  function AfterComment(css: string, i: nat): (k: nat)
    requires CommentAt(css, i)
    ensures i < k <= |css|
  {
    var close := CommentClose(css, i + 2);
    if close == |css| then |css| else close + 2
  }

  /** The position of the `}` that brings the depth from `depth` to zero. */
  function Close(css: string, i: nat, depth: nat): (r: Option<nat>)
    requires i <= |css| && depth > 0
    ensures r.Some? ==> i <= r.value < |css| && css[r.value] == '}'
    decreases |css| - i
  {
    if i == |css| then None
    else if CommentAt(css, i) then Close(css, AfterComment(css, i), depth)
    else if css[i] == '{' then Close(css, i + 1, depth + 1)
    else if css[i] == '}' then (if depth == 1 then Some(i) else Close(css, i + 1, depth - 1))
    else Close(css, i + 1, depth)
  }

  /** `matching_brace`; none means the braces are unbalanced. */
  method MatchingBrace(css: string, open: nat) returns (r: Option<nat>)
    requires open < |css| && css[open] == '{'
    ensures r == Close(css, open + 1, 1)
  {
    var depth, i := 1, open + 1;
    while i < |css|
      invariant open < i <= |css| && depth > 0
      invariant Close(css, i, depth) == Close(css, open + 1, 1)
      decreases |css| - i
    {
      if CommentAt(css, i) {
        i := AfterComment(css, i);
      } else {
        if css[i] == '{' {
          depth := depth + 1;
        } else if css[i] == '}' {
          if depth == 1 {
            return Some(i);
          }
          depth := depth - 1;
        }
        i := i + 1;
      }
    }
    return None;
  }

  /** Leaving two levels is leaving one, then the other. */
  lemma {:induction false} CloseTwice(css: string, i: nat, depth: nat)
    requires i <= |css| && depth > 0
    ensures Close(css, i, depth + 1) ==
            match Close(css, i, depth) { case None => None case Some(k) => Close(css, k + 1, 1) }
    decreases |css| - i
  {
    if i < |css| {
      if CommentAt(css, i) {
        CloseTwice(css, AfterComment(css, i), depth);
      } else if css[i] == '{' {
        CloseTwice(css, i + 1, depth + 1);
      } else if css[i] == '}' {
        if depth > 1 {
          CloseTwice(css, i + 1, depth - 1);
        }
      } else {
        CloseTwice(css, i + 1, depth);
      }
    }
  }

  // ----- Scanning -----

  /** `prelude.split()[0].lower()`. */
  function FirstWord(s: string): string {
    if s == "" || IsSpace(s[0]) then "" else [LowerChar(s[0])] + FirstWord(s[1..])
  }

  predicate Nests(prelude: string) {
    FirstWord(prelude) in ["@media", "@supports", "@layer", "@container"]
  }

  predicate IsAtRule(prelude: string) {
    prelude != "" && prelude[0] == '@'
  }

  function Nested(context: string, prelude: string): string {
    context + "||" + prelude
  }

  function Prepend(first: seq<Span>, rest: Option<seq<Span>>): Option<seq<Span>> {
    if rest.None? then None else Some(first + rest.value)
  }

  lemma PrependTwice(a: seq<Span>, b: seq<Span>, rest: Option<seq<Span>>)
    ensures Prepend(a, Prepend(b, rest)) == Prepend(a + b, rest)
    ensures rest == Some([]) ==> Prepend(a, rest) == Some(a)
    ensures b == [] ==> Prepend(a, Prepend(b, rest)) == Prepend(a, rest)
  {
    if rest.Some? {
      assert a + (b + rest.value) == (a + b) + rest.value;
      assert b == [] ==> a + b == a;
      assert a + [] == a;
    }
  }

  function DepthAfter(c: char, depth: int): int {
    if c == '{' then depth + 1 else if c == '}' then depth - 1 else depth
  }

  /** The leaf rules between `i` and `end`, where the current prelude began at `from`. The depth goes
      below zero after a stray `}`, and a later `{` then only brings it back. */
  function Scan(css: string, i: nat, from: nat, depth: int, end: nat, context: string): Option<seq<Span>>
    requires from <= i <= |css| && end <= |css|
    decreases |css| - i
  {
    if i >= end then Some([])
    else if CommentAt(css, i) then
      Scan(css, AfterComment(css, i), from, depth, end, context)
    else if css[i] == '{' && depth == 0 then
      match Close(css, i + 1, 1)
      case None => None
      case Some(close) =>
        var prelude := Strip(css[from..i]);
        var inner := if !IsAtRule(prelude) then Some([Span(prelude, i + 1, close, context)])
                     else if Nests(prelude) then Scan(css, i + 1, i + 1, 0, close, Nested(context, prelude))
                     else Some([]);
        if inner.None? then None else Prepend(inner.value, Scan(css, close + 1, close + 1, 0, end, context))
    else
      Scan(css, i + 1, from, DepthAfter(css[i], depth), end, context)
  }

  /** `split_top_level`: a loop over the block that recurses into nesting at-rules. */
  method SplitTopLevel(css: string, start: nat, end: nat, context: string,
                       before: seq<Span>) returns (out: Option<seq<Span>>)
    requires start <= |css| && end <= |css|
    ensures out == Prepend(before, Scan(css, start, start, 0, end, context))
    decreases |css| - start
  {
    var i, depth, from, rules := start, 0, start, before;
    while i < end
      invariant start <= from <= i <= |css|
      invariant Prepend(before, Scan(css, start, start, 0, end, context))
           == Prepend(rules, Scan(css, i, from, depth, end, context))
      decreases |css| - i
    {
      if CommentAt(css, i) {
        i := AfterComment(css, i);
        continue;
      }
      if css[i] == '{' {
        if depth == 0 {
          var close := MatchingBrace(css, i);
          if close.None? {
            return None;
          }
          var prelude := Strip(css[from..i]);
          ghost var rest := Scan(css, close.value + 1, close.value + 1, 0, end, context);
          if IsAtRule(prelude) {
            if Nests(prelude) {
              var inner := SplitTopLevel(css, i + 1, close.value, Nested(context, prelude), rules);
              if inner.None? {
                return None;
              }
              PrependTwice(rules, Scan(css, i + 1, i + 1, 0, close.value, Nested(context, prelude)).value, rest);
              rules := inner.value;
            } else {
              PrependTwice(rules, [], rest);
            }
          } else {
            PrependTwice(rules, [Span(prelude, i + 1, close.value, context)], rest);
            rules := rules + [Span(prelude, i + 1, close.value, context)];
          }
          i := close.value + 1;
          from := i;
          continue;
        }
        depth := depth + 1;
      } else if css[i] == '}' {
        depth := depth - 1;
      }
      i := i + 1;
    }
    PrependTwice(rules, [], Some([]));
    out := Some(rules);
  }

  // ----- Where the spans lie -----

  /** Where the prelude is taken to begin: as if it touched its brace. */
  function Lo(r: Span): int {
    r.start - 1 - |r.prelude|
  }

  /** The span is the inside of one balanced pair of braces. */
  ghost predicate Braced(css: string, r: Span) {
    && 0 < r.start <= r.end < |css|
    && css[r.start - 1] == '{' && Close(css, r.start, 1) == Some(r.end)
  }

  /** Braced spans between `lo` and `hi`, in order and disjoint, preludes included. */
  ghost predicate Ordered(css: string, rules: seq<Span>, lo: int, hi: int) {
    && (forall k :: 0 <= k < |rules| ==> Braced(css, rules[k]) && lo <= Lo(rules[k]) && rules[k].end < hi)
    && (forall k, l :: 0 <= k < l < |rules| ==> rules[k].end < Lo(rules[l]))
  }

  lemma {:induction false} StripShortens(s: string)
    ensures |Strip(s)| <= |s|
    decreases |s|
  {
    if s != "" {
      StripShortens(s[1..]);
      StripShortens(s[..|s| - 1]);
    }
  }

  lemma OrderedConcat(css: string, a: seq<Span>, b: seq<Span>, lo: int, mid: int, hi: int)
    requires Ordered(css, a, lo, mid) && Ordered(css, b, mid, hi) && lo <= mid <= hi
    ensures Ordered(css, a + b, lo, hi)
  {
    hide Braced;
  }

  /** The scan runs over the whole text, or over the inside of a block at its own level. */
  ghost predicate Enclosed(css: string, i: nat, depth: int, end: nat)
    requires i <= |css|
  {
    end == |css| || (depth == 0 && Close(css, i, 1) == Some(end))
  }

  /** How the scan's next step keeps it enclosed. */
  lemma {:induction false} EnclosedStep(css: string, i: nat, depth: int, end: nat)
    requires i < end <= |css| && Enclosed(css, i, depth, end)
    ensures CommentAt(css, i) ==> Enclosed(css, AfterComment(css, i), depth, end)
    ensures !CommentAt(css, i) && css[i] == '{' && depth == 0 && Close(css, i + 1, 1).Some? ==>
              var close := Close(css, i + 1, 1).value;
              close < end && Enclosed(css, i + 1, 0, close) && Enclosed(css, close + 1, 0, end)
    ensures !CommentAt(css, i) && !(css[i] == '{' && depth == 0) ==>
              Enclosed(css, i + 1, DepthAfter(css[i], depth), end)
  {
    CloseTwice(css, i + 1, 1);
  }

  lemma LeafIsOrdered(css: string, prelude: string, i: nat, close: nat, context: string, from: nat)
    requires i < |css| && css[i] == '{' && Close(css, i + 1, 1) == Some(close) && from + |prelude| <= i
    ensures Ordered(css, [Span(prelude, i + 1, close, context)], from, close + 1)
  {
  }

  lemma OrderedWithin(css: string, rules: seq<Span>, lo: int, hi: int, lo': int, hi': int)
    requires Ordered(css, rules, lo, hi) && lo' <= lo && hi <= hi'
    ensures Ordered(css, rules, lo', hi')
  {
    hide Braced;
  }

  /** The part of the scan's result that one block contributes. */
  function BlockRules(css: string, from: nat, i: nat, close: nat, context: string): Option<seq<Span>>
    requires from <= i < |css| && i < close < |css|
  {
    var prelude := Strip(css[from..i]);
    if !IsAtRule(prelude) then Some([Span(prelude, i + 1, close, context)])
    else if Nests(prelude) then Scan(css, i + 1, i + 1, 0, close, Nested(context, prelude))
    else Some([])
  }

  function Both(a: Option<seq<Span>>, b: Option<seq<Span>>): Option<seq<Span>> {
    if a.None? || b.None? then None else Some(a.value + b.value)
  }

  /** One step of the scan. */
  lemma ScanStep(css: string, i: nat, from: nat, depth: int, end: nat, context: string)
    requires from <= i < end <= |css|
    ensures CommentAt(css, i) ==>
              Scan(css, i, from, depth, end, context) == Scan(css, AfterComment(css, i), from, depth, end, context)
    ensures !CommentAt(css, i) && css[i] == '{' && depth == 0 ==>
              Scan(css, i, from, depth, end, context) ==
              match Close(css, i + 1, 1)
              case None => None
              case Some(close) =>
                Both(BlockRules(css, from, i, close, context), Scan(css, close + 1, close + 1, 0, end, context))
    ensures !CommentAt(css, i) && !(css[i] == '{' && depth == 0) ==>
              Scan(css, i, from, depth, end, context) == Scan(css, i + 1, from, DepthAfter(css[i], depth), end, context)
  {
    hide Strip, IsAtRule, Nests, Nested, AfterComment;
  }

  lemma BlockIsOrdered(css: string, from: nat, i: nat, close: nat, context: string, rest: seq<Span>, end: nat)
    requires from <= i < close < end <= |css| && css[i] == '{' && Close(css, i + 1, 1) == Some(close)
    requires var inner, prelude := BlockRules(css, from, i, close, context), Strip(css[from..i]);
             inner.Some? && (IsAtRule(prelude) && Nests(prelude) ==> Ordered(css, inner.value, i + 1, close))
    requires Ordered(css, rest, close + 1, end)
    ensures Ordered(css, BlockRules(css, from, i, close, context).value + rest, from, end)
  {
    hide Strip, IsAtRule, Nests, Close, Nested, Ordered, Scan;
    var inner, prelude := BlockRules(css, from, i, close, context).value, Strip(css[from..i]);
    if !IsAtRule(prelude) {
      StripShortens(css[from..i]);
      LeafIsOrdered(css, prelude, i, close, context, from);
    } else if Nests(prelude) {
      OrderedWithin(css, inner, i + 1, close, from, close + 1);
    } else {
      NoneIsOrdered(css, from, close + 1);
    }
    OrderedConcat(css, inner, rest, from, close + 1, end);
  }

  lemma NoneIsOrdered(css: string, lo: int, hi: int)
    ensures Ordered(css, [], lo, hi)
  {
  }

  /** Spans are in bounds, balanced, increasing and disjoint, for every text the scan accepts. */
  lemma {:induction false} ScanIsOrdered(css: string, i: nat, from: nat, depth: int, end: nat, context: string)
    requires from <= i <= |css| && end <= |css| && Enclosed(css, i, depth, end)
    requires Scan(css, i, from, depth, end, context).Some?
    ensures Ordered(css, Scan(css, i, from, depth, end, context).value, from, if from <= end then end else from)
    decreases |css| - i
  {
    hide Strip, IsAtRule, Nests, Close, Enclosed, AfterComment, Nested;
    if i < end {
      EnclosedStep(css, i, depth, end);
      if CommentAt(css, i) {
        ScanIsOrdered(css, AfterComment(css, i), from, depth, end, context);
      } else if css[i] == '{' && depth == 0 {
        ScanStep(css, i, from, depth, end, context);
        hide Scan, Ordered, CommentAt;
        var close, prelude := Close(css, i + 1, 1).value, Strip(css[from..i]);
        ScanIsOrdered(css, close + 1, close + 1, 0, end, context);
        if IsAtRule(prelude) && Nests(prelude) {
          ScanIsOrdered(css, i + 1, i + 1, 0, close, Nested(context, prelude));
        }
        BlockIsOrdered(css, from, i, close, context, Scan(css, close + 1, close + 1, 0, end, context).value, end);
      } else {
        ScanStep(css, i, from, depth, end, context);
        ScanIsOrdered(css, i + 1, from, DepthAfter(css[i], depth), end, context);
      }
    }
  }

  // ----- Splicing -----

  /** What happens to a rule: nothing, another body, or removal with its prelude and braces. */
  datatype Edit = Keep | Replace(body: string) | Delete

  /** Back over the blanks that `main` removes before a prelude. */
  function WalkBack(css: string, k: nat): (r: nat)
    requires k <= |css|
    ensures r <= k
  {
    if k > 0 && css[k - 1] in {' ', '\n', '\t'} then WalkBack(css, k - 1) else k
  }

  /** The text cut out for an edit, and what replaces it. */
  function CutStart(css: string, r: Span, e: Edit): nat
    requires 0 <= Lo(r) <= |css|
  {
    if e.Delete? then WalkBack(css, Lo(r)) else r.start
  }

  function CutEnd(r: Span, e: Edit): nat {
    if e.Delete? then r.end + 1 else r.end
  }

  function Inserted(e: Edit): string {
    if e.Replace? then e.body else ""
  }

  predicate Spliceable(css: string, rules: seq<Span>, edits: seq<Edit>) {
    |edits| == |rules| && forall k :: 0 <= k < |rules| ==> 0 <= Lo(rules[k]) && rules[k].start <= rules[k].end < |css|
  }

  /** The reference: from the `k`-th rule on, one left-to-right rebuild of the text after `from`. */
  function Rebuild(css: string, rules: seq<Span>, edits: seq<Edit>, k: nat, from: nat): string
    requires Spliceable(css, rules, edits) && k <= |rules| && from <= |css|
    decreases |rules| - k
  {
    if k == |rules| then css[from..]
    else if edits[k].Keep? then Rebuild(css, rules, edits, k + 1, from)
    else
      var lo, hi := CutStart(css, rules[k], edits[k]), CutEnd(rules[k], edits[k]);
      (if from <= lo then css[from..lo] else "") + Inserted(edits[k]) + Rebuild(css, rules, edits, k + 1, hi)
  }

  lemma {:induction false} WalkBackStops(css: string, k: nat, stop: nat)
    requires stop < k <= |css| && css[stop] == '}'
    ensures WalkBack(css, k) > stop
  {
    if k > stop + 1 {
      WalkBackStops(css, k - 1, stop);
    }
  }

  lemma {:induction false} WalkBackSame(a: string, b: string, k: nat)
    requires k <= |a| && k <= |b| && a[..k] == b[..k]
    ensures WalkBack(a, k) == WalkBack(b, k)
  {
    if k > 0 {
      assert a[..k][k - 1] == b[..k][k - 1];
      assert a[..k - 1] == a[..k][..k - 1] && b[..k - 1] == b[..k][..k - 1];
      WalkBackSame(a, b, k - 1);
    }
  }

  lemma Assoc(a: string, b: string, c: string, d: string)
    ensures (a + b) + c + d == a + (b + c + d)
  {
  }

  /** Text before the first cut is copied verbatim. */
  lemma {:induction false} RebuildCopies(css: string, rules: seq<Span>, edits: seq<Edit>, k: nat, from: nat, x: nat)
    requires Spliceable(css, rules, edits) && k <= |rules| && from <= x <= |css|
    requires forall l :: k <= l < |rules| ==> x <= CutStart(css, rules[l], edits[l])
    ensures Rebuild(css, rules, edits, k, from) == css[from..x] + Rebuild(css, rules, edits, k, x)
    decreases |rules| - k
  {
    hide WalkBack, CutStart, CutEnd, Inserted, Lo;
    if k == |rules| {
      assert css[from..] == css[from..x] + css[x..];
    } else if edits[k].Keep? {
      RebuildCopies(css, rules, edits, k + 1, from, x);
    } else {
      RebuildCopiesCut(css, rules, edits, k, from, x);
    }
  }

  lemma RebuildCopiesCut(css: string, rules: seq<Span>, edits: seq<Edit>, k: nat, from: nat, x: nat)
    requires Spliceable(css, rules, edits) && k < |rules| && !edits[k].Keep? && from <= x <= |css|
    requires x <= CutStart(css, rules[k], edits[k])
    ensures Rebuild(css, rules, edits, k, from) == css[from..x] + Rebuild(css, rules, edits, k, x)
  {
    hide WalkBack, Inserted;
    var lo := CutStart(css, rules[k], edits[k]);
    assert lo <= |css|;
    var rest := Rebuild(css, rules, edits, k + 1, CutEnd(rules[k], edits[k]));
    assert css[from..lo] == css[from..x] + css[x..lo];
    Assoc(css[from..x], css[x..lo], Inserted(edits[k]), rest);
  }

  /** A later rule is never cut back into an earlier one. */
  lemma CutsAfter(css: string, rules: seq<Span>, edits: seq<Edit>, k: nat, l: nat)
    requires Spliceable(css, rules, edits) && Ordered(css, rules, 0, |css|) && k < l < |rules|
    ensures rules[k].end < CutStart(css, rules[l], edits[l])
  {
    hide Close;
    WalkBackStops(css, Lo(rules[l]), rules[k].end);
  }

  /** One edit applied to the text in which all later edits are done. */
  lemma EditStep(css: string, rules: seq<Span>, edits: seq<Edit>, k: nat, out: string)
    requires Spliceable(css, rules, edits) && Ordered(css, rules, 0, |css|) && k < |rules|
    requires out == Rebuild(css, rules, edits, k + 1, 0)
    ensures rules[k].end < |out| && out[..rules[k].end + 1] == css[..rules[k].end + 1]
    ensures !edits[k].Keep? ==>
              out[..CutStart(css, rules[k], edits[k])] + Inserted(edits[k]) + out[CutEnd(rules[k], edits[k])..]
              == Rebuild(css, rules, edits, k, 0)
  {
    hide Ordered, WalkBack, Rebuild;
    var x := rules[k].end + 1;
    forall l | k + 1 <= l < |rules|
      ensures x <= CutStart(css, rules[l], edits[l])
    {
      CutsAfter(css, rules, edits, k, l);
    }
    RebuildCopies(css, rules, edits, k + 1, 0, x);
    if !edits[k].Keep? {
      var lo, hi := CutStart(css, rules[k], edits[k]), CutEnd(rules[k], edits[k]);
      RebuildCopies(css, rules, edits, k + 1, hi, x);
      var rest := Rebuild(css, rules, edits, k + 1, x);
      assert out[..lo] == css[..lo];
      assert out[hi..] == css[hi..x] + rest;
      RebuildAt(css, rules, edits, k);
    }
  }

  lemma RebuildAt(css: string, rules: seq<Span>, edits: seq<Edit>, k: nat)
    requires Spliceable(css, rules, edits) && k < |rules| && !edits[k].Keep?
    ensures Rebuild(css, rules, edits, k, 0)
         == css[..CutStart(css, rules[k], edits[k])] + Inserted(edits[k])
            + Rebuild(css, rules, edits, k + 1, CutEnd(rules[k], edits[k]))
  {
    hide WalkBack, CutEnd, Inserted;
  }

  /** The rewriting loop of `main`, from the back so that earlier offsets stay valid: every offset was taken from
      the original text, and the result is the single left-to-right rebuild. */
  method Splice(css: string, rules: seq<Span>, edits: seq<Edit>) returns (out: string)
    requires Spliceable(css, rules, edits) && Ordered(css, rules, 0, |css|)
    ensures out == Rebuild(css, rules, edits, 0, 0)
  {
    hide Ordered, CutEnd, Inserted, Rebuild;
    out := css;
    var k := |rules|;
    assert out == Rebuild(css, rules, edits, k, 0) by {
      RebuildNone(css, rules, edits);
    }
    while k > 0
      invariant 0 <= k <= |rules|
      invariant out == Rebuild(css, rules, edits, k, 0)
    {
      k := k - 1;
      EditStep(css, rules, edits, k, out);
      match edits[k]
      case Keep =>
        KeepStep(css, rules, edits, k);
      case Replace(body) =>
        EditSpan(rules[k], edits[k]);
        out := out[..rules[k].start] + body + out[rules[k].end..];
      case Delete =>
        EditSpan(rules[k], edits[k]);
        var from := Lo(rules[k]);
        WalkBackPrefix(css, out, from, rules[k].end + 1);
        while from > 0 && out[from - 1] in {' ', '\n', '\t'}
          invariant 0 <= from <= Lo(rules[k]) && WalkBack(out, from) == WalkBack(css, Lo(rules[k]))
        {
          from := from - 1;
        }
        assert out[..from] + "" == out[..from];
        out := out[..from] + out[rules[k].end + 1..];
    }
  }

  lemma RebuildNone(css: string, rules: seq<Span>, edits: seq<Edit>)
    requires Spliceable(css, rules, edits)
    ensures Rebuild(css, rules, edits, |rules|, 0) == css
  {
  }

  lemma KeepStep(css: string, rules: seq<Span>, edits: seq<Edit>, k: nat)
    requires Spliceable(css, rules, edits) && k < |rules| && edits[k].Keep?
    ensures Rebuild(css, rules, edits, k, 0) == Rebuild(css, rules, edits, k + 1, 0)
  {
  }

  lemma EditSpan(r: Span, e: Edit)
    ensures e.Replace? ==> CutEnd(r, e) == r.end && Inserted(e) == e.body
    ensures e.Delete? ==> CutEnd(r, e) == r.end + 1 && Inserted(e) == ""
  {
  }

  lemma WalkBackPrefix(a: string, b: string, k: nat, x: nat)
    requires k <= x <= |a| && x <= |b| && a[..x] == b[..x]
    ensures WalkBack(a, k) == WalkBack(b, k)
  {
    assert a[..k] == a[..x][..k] && b[..k] == b[..x][..k];
    WalkBackSame(a, b, k);
  }

  /** Scanning then splicing is always defined, for any edits of the rules found. */
  lemma ScanIsSpliceable(css: string, edits: seq<Edit>)
    requires Scan(css, 0, 0, 0, |css|, "").Some? && |edits| == |Scan(css, 0, 0, 0, |css|, "").value|
    ensures var rules := Scan(css, 0, 0, 0, |css|, "").value;
            Ordered(css, rules, 0, |css|) && Spliceable(css, rules, edits)
  {
    hide Scan, Close;
    ScanIsOrdered(css, 0, 0, 0, |css|, "");
  }
}
