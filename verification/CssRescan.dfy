/** Scanning the rewritten stylesheet again: every rule that was kept is found again, with the body it was given, and
    nothing else is. */
module CssRescan {
  import opened CssText
  import opened PythonText
  import opened Wrappers

  // ----- Equal beginnings -----

  ghost predicate SameBefore(a: string, b: string, p: nat) {
    p <= |a| && p <= |b| && a[..p] == b[..p]
  }

  lemma SameAt(a: string, b: string, p: nat, i: nat)
    requires SameBefore(a, b, p) && i < p
    ensures a[i] == b[i]
    ensures i + 1 < p ==> CommentAt(a, i) == CommentAt(b, i)
  {
    assert a[..p][i] == b[..p][i];
    if i + 1 < p {
      assert a[..p][i + 1] == b[..p][i + 1];
    }
  }

  lemma {:induction false} CommentClosePrefix(a: string, b: string, j: nat, p: nat)
    requires SameBefore(a, b, p) && j <= |a| && CommentClose(a, j) + 2 <= p
    ensures j <= |b| && CommentClose(b, j) == CommentClose(a, j)
    decreases |a| - j
  {
    SameAt(a, b, p, j);
    SameAt(a, b, p, j + 1);
    if !(a[j] == '*' && a[j + 1] == '/') {
      CommentClosePrefix(a, b, j + 1, p);
    }
  }

  lemma CommentPrefix(a: string, b: string, i: nat, p: nat)
    requires SameBefore(a, b, p) && CommentAt(a, i) && AfterComment(a, i) <= p < |a|
    ensures CommentAt(b, i) && AfterComment(b, i) == AfterComment(a, i)
  {
    SameAt(a, b, p, i);
    CommentClosePrefix(a, b, i + 2, p);
  }

  lemma {:induction false} ClosePrefix(a: string, b: string, i: nat, depth: nat, p: nat)
    requires SameBefore(a, b, p) && i <= |a| && depth > 0 && Close(a, i, depth).Some? && Close(a, i, depth).value < p
    ensures i <= |b| && Close(b, i, depth) == Close(a, i, depth)
    decreases |a| - i
  {
    var k := Close(a, i, depth).value;
    SameAt(a, b, p, i);
    if CommentAt(a, i) {
      assert AfterComment(a, i) <= k;
      CommentPrefix(a, b, i, k);
      ClosePrefix(a, b, AfterComment(a, i), depth, p);
    } else if a[i] == '{' {
      ClosePrefix(a, b, i + 1, depth + 1, p);
    } else if a[i] == '}' {
      if depth > 1 {
        ClosePrefix(a, b, i + 1, depth - 1, p);
      }
    } else {
      ClosePrefix(a, b, i + 1, depth, p);
    }
  }

  lemma SamePreludeBefore(a: string, b: string, from: nat, i: nat, p: nat)
    requires SameBefore(a, b, p) && from <= i <= p
    ensures a[from..i] == b[from..i]
  {
    forall t | 0 <= t < i - from
      ensures a[from..i][t] == b[from..i][t]
    {
      SameAt(a, b, p, from + t);
    }
  }

  /** A block that ends before the texts part is scanned alike in both. */
  lemma {:induction false} ScanPrefix(a: string, b: string, i: nat, from: nat, depth: int, end: nat,
                                      context: string, p: nat)
    requires SameBefore(a, b, p) && from <= i && end < p && i <= |a| && i <= p
    requires Enclosed(a, i, depth, end) && end < |a|
    ensures Scan(b, i, from, depth, end, context) == Scan(a, i, from, depth, end, context)
    decreases |a| - i
  {
    hide Strip, IsAtRule, Nests, Close, Enclosed, AfterComment, Nested, Scan, CommentAt;
    if i < end {
      EnclosedStep(a, i, depth, end);
      ScanStep(a, i, from, depth, end, context);
      ScanStep(b, i, from, depth, end, context);
      SameAt(a, b, p, i);
      if CommentAt(a, i) {
        EnclosedWithin(a, AfterComment(a, i), depth, end);
        CommentPrefix(a, b, i, end);
        ScanPrefix(a, b, AfterComment(a, i), from, depth, end, context, p);
      } else if a[i] == '{' && depth == 0 {
        EnclosedOpen(a, i, end);
        var close := Close(a, i + 1, 1).value;
        ClosePrefix(a, b, i + 1, 1, p);
        SamePreludeBefore(a, b, from, i, p);
        var prelude := Strip(a[from..i]);
        ScanPrefix(a, b, i + 1, i + 1, 0, close, Nested(context, prelude), p);
        ScanPrefix(a, b, close + 1, close + 1, 0, end, context, p);
      } else {
        ScanPrefix(a, b, i + 1, from, DepthAfter(a[i], depth), end, context, p);
      }
    } else {
      ScanDone(a, i, from, depth, end, context);
      ScanDone(b, i, from, depth, end, context);
    }
  }

  lemma ScanDone(css: string, i: nat, from: nat, depth: int, end: nat, context: string)
    requires from <= i <= |css| && end <= |css| && i >= end
    ensures Scan(css, i, from, depth, end, context) == Some([])
  {
  }

  lemma EnclosedWithin(css: string, i: nat, depth: int, end: nat)
    requires i <= |css| && end < |css| && Enclosed(css, i, depth, end)
    ensures i <= end && css[end] == '}' && depth == 0
  {
  }

  /** An opening brace inside a block has a partner there. */
  lemma EnclosedOpen(css: string, i: nat, end: nat)
    requires i < end < |css| && !CommentAt(css, i) && css[i] == '{' && Enclosed(css, i, 0, end)
    ensures Close(css, i + 1, 1).Some? && Close(css, i + 1, 1).value < end
  {
    CloseTwice(css, i + 1, 1);
  }

  // ----- Equal endings -----

  ghost predicate SameAfter(a: string, i: nat, b: string, j: nat) {
    i <= |a| && j <= |b| && a[i..] == b[j..]
  }

  lemma SameOn(a: string, i: nat, b: string, j: nat, n: nat)
    requires SameAfter(a, i, b, j) && i + n <= |a|
    ensures SameAfter(a, i + n, b, j + n) && |a| - i == |b| - j
    ensures a[i..i + n] == b[j..j + n]
    ensures n == 0 && i < |a| ==> a[i] == b[j] && CommentAt(a, i) == CommentAt(b, j)
  {
    assert a[i + n..] == a[i..][n..] && b[j + n..] == b[j..][n..];
    assert a[i..i + n] == a[i..][..n] && b[j..j + n] == b[j..][..n];
    if i < |a| {
      assert a[i..][0] == b[j..][0];
      if i + 1 < |a| {
        assert a[i..][1] == b[j..][1];
      }
    }
  }

  lemma SameBounds(a: string, i: nat, b: string, j: nat)
    requires SameAfter(a, i, b, j)
    ensures i <= |a| && j <= |b| && |a| - i == |b| - j
  {
  }

  lemma {:induction false} CommentCloseShift(a: string, i: nat, b: string, j: nat)
    requires SameAfter(a, i, b, j)
    ensures CommentClose(b, j) == CommentClose(a, i) + j - i
    decreases |a| - i
  {
    SameOn(a, i, b, j, 0);
    if i + 1 < |a| {
      SameOn(a, i, b, j, 1);
      SameOn(a, i + 1, b, j + 1, 0);
      CommentCloseShift(a, i + 1, b, j + 1);
    }
  }

  lemma CommentShift(a: string, i: nat, b: string, j: nat)
    requires SameAfter(a, i, b, j) && CommentAt(a, i)
    ensures CommentAt(b, j) && AfterComment(b, j) == AfterComment(a, i) + j - i
    ensures SameAfter(a, AfterComment(a, i), b, AfterComment(b, j))
  {
    hide CommentClose;
    SameBounds(a, i, b, j);
    hide SameAfter;
    SameOn(a, i, b, j, 0);
    SameOn(a, i, b, j, 2);
    CommentCloseShift(a, i + 2, b, j + 2);
    SameOn(a, i, b, j, AfterComment(a, i) - i);
  }

  function Moved(k: Option<nat>, offset: int): Option<int> {
    match k case None => None case Some(n) => Some(n + offset)
  }

  lemma {:induction false} CloseShift(a: string, i: nat, b: string, j: nat, depth: nat)
    requires i <= |a| && j <= |b| && SameAfter(a, i, b, j) && depth > 0
    ensures Moved(Close(a, i, depth), j - i) == Moved(Close(b, j, depth), 0)
    decreases |a| - i
  {
    hide CommentAt, AfterComment, SameAfter;
    SameOn(a, i, b, j, 0);
    if i < |a| {
      SameOn(a, i, b, j, 1);
      if CommentAt(a, i) {
        CommentShift(a, i, b, j);
        CloseShift(a, AfterComment(a, i), b, AfterComment(b, j), depth);
      } else if a[i] == '{' {
        CloseShift(a, i + 1, b, j + 1, depth + 1);
      } else if a[i] == '}' {
        if depth > 1 {
          CloseShift(a, i + 1, b, j + 1, depth - 1);
        }
      } else {
        CloseShift(a, i + 1, b, j + 1, depth);
      }
    }
  }

  function Move(n: nat, offset: int): nat {
    if n + offset < 0 then 0 else n + offset
  }

  function Shift(r: Span, offset: int): Span {
    Span(r.prelude, Move(r.start, offset), Move(r.end, offset), r.context)
  }

  function ShiftAll(rules: seq<Span>, offset: int): (out: seq<Span>)
    ensures |out| == |rules|
  {
    seq(|rules|, k requires 0 <= k < |rules| => Shift(rules[k], offset))
  }

  function ShiftFound(rules: Option<seq<Span>>, offset: int): Option<seq<Span>> {
    match rules case None => None case Some(found) => Some(ShiftAll(found, offset))
  }

  lemma ShiftBoth(x: Option<seq<Span>>, y: Option<seq<Span>>, offset: int)
    ensures ShiftFound(Both(x, y), offset) == Both(ShiftFound(x, offset), ShiftFound(y, offset))
  {
    if x.Some? && y.Some? {
      assert ShiftAll(x.value + y.value, offset) == ShiftAll(x.value, offset) + ShiftAll(y.value, offset);
    }
  }

  predicate Blank(s: string) {
    forall k :: 0 <= k < |s| ==> IsSpace(s[k])
  }

  lemma {:induction false} StripBlankPrefix(w: string, s: string)
    requires Blank(w)
    ensures Strip(w + s) == Strip(s)
  {
    if w == "" {
      assert w + s == s;
    } else {
      assert (w + s)[1..] == w[1..] + s;
      StripBlankPrefix(w[1..], s);
    }
  }

  /** The current prelude, with perhaps more blanks before it. */
  ghost predicate SamePrelude(a: string, f: nat, i: nat, b: string, g: nat, j: nat) {
    f <= i <= |a| && g <= j <= |b| && i - f <= j - g && Blank(b[g..j - (i - f)]) && b[j - (i - f)..j] == a[f..i]
  }

  lemma PreludeStrips(a: string, f: nat, i: nat, b: string, g: nat, j: nat)
    requires SamePrelude(a, f, i, b, g, j)
    ensures Strip(a[f..i]) == Strip(b[g..j])
  {
    hide Strip;
    var w := b[g..j - (i - f)];
    assert b[g..j] == w + a[f..i];
    StripBlankPrefix(w, a[f..i]);
  }

  lemma PreludeGrows(a: string, f: nat, i: nat, b: string, g: nat, j: nat, n: nat)
    requires SamePrelude(a, f, i, b, g, j) && SameAfter(a, i, b, j) && i + n <= |a|
    ensures SamePrelude(a, f, i + n, b, g, j + n)
  {
    SameOn(a, i, b, j, n);
    var k := j - (i - f);
    assert b[k..j + n] == b[k..j] + b[j..j + n];
    assert a[f..i + n] == a[f..i] + a[i..i + n];
  }

  lemma PreludeStarts(a: string, i: nat, b: string, j: nat)
    requires i <= |a| && j <= |b|
    ensures SamePrelude(a, i, i, b, j, j)
  {
  }

  /** Where the texts agree to the end, so do the scans, up to the shift. */
  lemma {:induction false} ScanShift(a: string, i: nat, f: nat, b: string, j: nat, g: nat, depth: int, end: nat,
                                     end2: nat, context: string)
    requires SameAfter(a, i, b, j) && SamePrelude(a, f, i, b, g, j) && end <= |a| && end2 == end + j - i
    ensures end2 <= |b| && Scan(b, j, g, depth, end2, context) == ShiftFound(Scan(a, i, f, depth, end, context), j - i)
    decreases |a| - i
  {
    hide Strip, IsAtRule, Nests, Close, AfterComment, Nested, Scan, CommentAt, SameAfter, SamePrelude, ShiftFound, Both;
    PreludeBounds(a, f, i, b, g, j);
    SameOn(a, i, b, j, 0);
    if i >= end {
      ScanDone(a, i, f, depth, end, context);
      ScanDone(b, j, g, depth, end2, context);
      ShiftNothing(j - i);
    } else {
      ScanStep(a, i, f, depth, end, context);
      ScanStep(b, j, g, depth, end2, context);
      SameOn(a, i, b, j, 1);
      if CommentAt(a, i) {
        CommentShift(a, i, b, j);
        PreludeGrows(a, f, i, b, g, j, AfterComment(a, i) - i);
        ScanShift(a, AfterComment(a, i), f, b, AfterComment(b, j), g, depth, end, end2, context);
      } else if a[i] == '{' && depth == 0 {
        BlockShift(a, i, f, b, j, g, end, end2, context);
      } else {
        PreludeGrows(a, f, i, b, g, j, 1);
        ScanShift(a, i + 1, f, b, j + 1, g, DepthAfter(a[i], depth), end, end2, context);
      }
    }
  }

  lemma ShiftNothing(offset: int)
    ensures ShiftFound(Some([]), offset) == Some([]) && ShiftFound(None, offset) == None
  {
  }

  lemma {:induction false} BlockShift(a: string, i: nat, f: nat, b: string, j: nat, g: nat, end: nat, end2: nat,
                                      context: string)
    requires SameAfter(a, i, b, j) && SamePrelude(a, f, i, b, g, j) && end <= |a| && end2 == end + j - i
    requires i < end && !CommentAt(a, i) && a[i] == '{' && f <= i
    ensures end2 <= |b| && Scan(b, j, g, 0, end2, context) == ShiftFound(Scan(a, i, f, 0, end, context), j - i)
    decreases |a| - i, 0
  {
    hide Strip, IsAtRule, Nests, Close, AfterComment, Nested, Scan, CommentAt, SameAfter, SamePrelude, ShiftFound, Both,
      BlockRules;
    PreludeBounds(a, f, i, b, g, j);
    SameOn(a, i, b, j, 0);
    SameOn(a, i, b, j, 1);
    ScanStep(a, i, f, 0, end, context);
    ScanStep(b, j, g, 0, end2, context);
    CloseShift(a, i + 1, b, j + 1, 1);
    ShiftNothing(j - i);
    match Close(a, i + 1, 1)
    case None =>
    case Some(close) =>
      var close2 := close + j - i;
      SameOn(a, i, b, j, close + 1 - i);
      PreludeStarts(a, close + 1, b, close2 + 1);
      ScanShift(a, close + 1, close + 1, b, close2 + 1, close2 + 1, 0, end, end2, context);
      PreludeStrips(a, f, i, b, g, j);
      PreludeStarts(a, i + 1, b, j + 1);
      ScanShift(a, i + 1, i + 1, b, j + 1, j + 1, 0, close, close2, Nested(context, Strip(a[f..i])));
      BlockRulesShift(a, i, f, b, j, g, close, close2, context);
      ShiftBoth(BlockRules(a, f, i, close, context), Scan(a, close + 1, close + 1, 0, end, context), j - i);
  }

  lemma PreludeBounds(a: string, f: nat, i: nat, b: string, g: nat, j: nat)
    requires SamePrelude(a, f, i, b, g, j)
    ensures f <= i <= |a| && g <= j <= |b|
  {
  }

  lemma BlockRulesShift(a: string, i: nat, f: nat, b: string, j: nat, g: nat, close: nat, close2: nat, context: string)
    requires f <= i < close < |a| && g <= j < close2 < |b| && close2 == close + j - i
    requires Strip(a[f..i]) == Strip(b[g..j])
    requires var inner := Nested(context, Strip(a[f..i]));
             Scan(b, j + 1, j + 1, 0, close2, inner) == ShiftFound(Scan(a, i + 1, i + 1, 0, close, inner), j - i)
    ensures BlockRules(b, g, j, close2, context) == ShiftFound(BlockRules(a, f, i, close, context), j - i)
  {
    hide Strip, IsAtRule, Nests, Nested, Scan;
    var r := Span(Strip(a[f..i]), i + 1, close, context);
    assert ShiftAll([r], j - i) == [Span(Strip(b[g..j]), j + 1, close2, context)];
    ShiftNothing(j - i);
  }

  // ----- The edited place -----

  /** Scanning on from `i`, the next block at this level opens at `q`. */
  predicate Reaches(css: string, i: nat, depth: int, q: nat)
    requires i <= |css| && q < |css|
    decreases |css| - i
  {
    if i >= q then i == q && css[q] == '{' && depth == 0
    else if CommentAt(css, i) then Reaches(css, AfterComment(css, i), depth, q)
    else !(css[i] == '{' && depth == 0) && Reaches(css, i + 1, DepthAfter(css[i], depth), q)
  }

  lemma ReachesStep(css: string, i: nat, depth: int, q: nat)
    requires i < q < |css| && Reaches(css, i, depth, q)
    ensures CommentAt(css, i) ==> AfterComment(css, i) <= q && Reaches(css, AfterComment(css, i), depth, q)
    ensures !CommentAt(css, i) ==> !(css[i] == '{' && depth == 0) && Reaches(css, i + 1, DepthAfter(css[i], depth), q)
  {
  }

  lemma {:induction false} ReachesPrefix(a: string, b: string, i: nat, depth: int, q: nat)
    requires SameBefore(a, b, q + 1) && i <= q < |a| && Reaches(a, i, depth, q)
    ensures q < |b| && Reaches(b, i, depth, q)
    decreases |a| - i
  {
    hide CommentAt, AfterComment;
    SameAt(a, b, q + 1, i);
    if i < q {
      ReachesStep(a, i, depth, q);
      if CommentAt(a, i) {
        SameShorter(a, b, q + 1, q);
        CommentPrefix(a, b, i, q);
        ReachesPrefix(a, b, AfterComment(a, i), depth, q);
      } else {
        ReachesPrefix(a, b, i + 1, DepthAfter(a[i], depth), q);
      }
    }
  }

  lemma SameShorter(a: string, b: string, p: nat, q: nat)
    requires SameBefore(a, b, p) && q <= p
    ensures SameBefore(a, b, q)
  {
    assert a[..q] == a[..p][..q] && b[..q] == b[..p][..q];
  }

  lemma {:induction false} ScanReaches(css: string, i: nat, from: nat, depth: int, q: nat, end: nat, context: string)
    requires from <= i <= q < end <= |css| && Reaches(css, i, depth, q)
    ensures Scan(css, i, from, depth, end, context) == Scan(css, q, from, 0, end, context)
    decreases |css| - i
  {
    hide CommentAt, AfterComment, Reaches, Scan, Close, BlockRules, Both;
    if i == q {
      ReachesHere(css, depth, q);
    } else {
      ReachesStep(css, i, depth, q);
      ScanStep(css, i, from, depth, end, context);
      if CommentAt(css, i) {
        ScanReaches(css, AfterComment(css, i), from, depth, q, end, context);
      } else {
        ScanReaches(css, i + 1, from, DepthAfter(css[i], depth), q, end, context);
      }
    }
  }

  lemma ReachesHere(css: string, depth: int, q: nat)
    requires q < |css| && Reaches(css, q, depth, q)
    ensures css[q] == '{' && depth == 0 && !CommentAt(css, q)
  {
  }

  /** Inside a block, reaching the next opening brace changes nothing for the closing one. */
  lemma {:induction false} CloseReaches(a: string, b: string, i: nat, q: nat, end: nat)
    requires SameBefore(a, b, q + 1) && i <= q < end < |a| && Reaches(a, i, 0, q) && Close(a, i, 1) == Some(end)
    ensures q < |b| && Close(b, i, 1) == Close(b, q, 1) && Close(a, q, 1) == Some(end)
    decreases |a| - i
  {
    hide CommentAt, AfterComment, Reaches;
    SameAt(a, b, q + 1, i);
    if i < q {
      ReachesStep(a, i, 0, q);
      if CommentAt(a, i) {
        SameShorter(a, b, q + 1, q);
        CommentPrefix(a, b, i, q);
        CloseReaches(a, b, AfterComment(a, i), q, end);
      } else {
        CloseReaches(a, b, i + 1, q, end);
      }
    }
  }

  lemma {:induction false} EnclosedReaches(css: string, i: nat, depth: int, q: nat, end: nat)
    requires i <= q < end <= |css| && Reaches(css, i, depth, q) && Enclosed(css, i, depth, end)
    ensures Enclosed(css, q, 0, end)
    decreases |css| - i
  {
    hide CommentAt, AfterComment, Reaches, Enclosed, Close;
    if i == q {
      ReachesHere(css, depth, q);
    } else {
      ReachesStep(css, i, depth, q);
      EnclosedStep(css, i, depth, end);
      if CommentAt(css, i) {
        EnclosedReaches(css, AfterComment(css, i), depth, q, end);
      } else {
        EnclosedReaches(css, i + 1, DepthAfter(css[i], depth), q, end);
      }
    }
  }

  /** The scan passes `p` at the start of a prelude, in a block that holds everything up to `e`. */
  predicate Passes(css: string, i: nat, from: nat, depth: int, end: nat, p: nat, e: nat)
    requires from <= i <= |css| && end <= |css|
    decreases |css| - i
  {
    if i >= p then i == p && from == p && depth == 0 && e <= end
    else if i >= end then false
    else if CommentAt(css, i) then Passes(css, AfterComment(css, i), from, depth, end, p, e)
    else if css[i] == '{' && depth == 0 then
      match Close(css, i + 1, 1)
      case None => false
      case Some(close) =>
        if p <= close then
          var prelude := Strip(css[from..i]);
          IsAtRule(prelude) && Nests(prelude) && Passes(css, i + 1, i + 1, 0, close, p, e)
        else Passes(css, close + 1, close + 1, 0, end, p, e)
    else Passes(css, i + 1, from, DepthAfter(css[i], depth), end, p, e)
  }

  lemma PassesStep(css: string, i: nat, from: nat, depth: int, end: nat, p: nat, e: nat)
    requires from <= i < p && i <= |css| && end <= |css| && Passes(css, i, from, depth, end, p, e)
    ensures i < end
    ensures CommentAt(css, i) ==> AfterComment(css, i) < p && Passes(css, AfterComment(css, i), from, depth, end, p, e)
    ensures !CommentAt(css, i) && css[i] == '{' && depth == 0 ==>
              Close(css, i + 1, 1).Some? &&
              var close, prelude := Close(css, i + 1, 1).value, Strip(css[from..i]);
              if p <= close then IsAtRule(prelude) && Nests(prelude) && Passes(css, i + 1, i + 1, 0, close, p, e)
              else Passes(css, close + 1, close + 1, 0, end, p, e)
    ensures !CommentAt(css, i) && !(css[i] == '{' && depth == 0) ==>
              i + 1 < p && Passes(css, i + 1, from, DepthAfter(css[i], depth), end, p, e)
  {
    hide Strip, IsAtRule, Nests;
  }

  // ----- One edit -----

  /** What becomes of a rule when the text between `p` and `e` is edited to end at `e2`. */
  function EditSpan(r: Span, p: nat, e: nat, e2: nat, edit: Edit): seq<Span> {
    if r.end < p then [r]
    else if r.start >= e then [Shift(r, e2 - e)]
    else if edit.Delete? then []
    else [Span(r.prelude, r.start, Move(r.end, e2 - e), r.context)]
  }

  function EditSpans(rules: seq<Span>, p: nat, e: nat, e2: nat, edit: Edit): seq<Span> {
    if rules == [] then [] else EditSpan(rules[0], p, e, e2, edit) + EditSpans(rules[1..], p, e, e2, edit)
  }

  lemma {:induction false} EditConcat(x: seq<Span>, y: seq<Span>, p: nat, e: nat, e2: nat, edit: Edit)
    ensures EditSpans(x + y, p, e, e2, edit) == EditSpans(x, p, e, e2, edit) + EditSpans(y, p, e, e2, edit)
  {
    hide EditSpan;
    if x == [] {
      assert x + y == y;
    } else {
      assert (x + y)[1..] == x[1..] + y;
      EditConcat(x[1..], y, p, e, e2, edit);
    }
  }

  lemma {:induction false} EditBefore(rules: seq<Span>, p: nat, e: nat, e2: nat, edit: Edit)
    requires forall k :: 0 <= k < |rules| ==> rules[k].end < p
    ensures EditSpans(rules, p, e, e2, edit) == rules
  {
    if rules != [] {
      EditBefore(rules[1..], p, e, e2, edit);
    }
  }

  lemma {:induction false} EditAfter(rules: seq<Span>, p: nat, e: nat, e2: nat, edit: Edit)
    requires p <= e && forall k :: 0 <= k < |rules| ==> e <= rules[k].start <= rules[k].end
    ensures EditSpans(rules, p, e, e2, edit) == ShiftAll(rules, e2 - e)
  {
    if rules != [] {
      EditAfter(rules[1..], p, e, e2, edit);
      assert ShiftAll(rules, e2 - e) == [Shift(rules[0], e2 - e)] + ShiftAll(rules[1..], e2 - e);
    }
  }

  lemma OrderedBefore(css: string, rules: seq<Span>, lo: int, hi: int, p: nat, e: nat, e2: nat, edit: Edit)
    requires Ordered(css, rules, lo, hi) && hi <= p
    ensures EditSpans(rules, p, e, e2, edit) == rules
  {
    hide Braced;
    EditBefore(rules, p, e, e2, edit);
  }

  lemma OrderedAfter(css: string, rules: seq<Span>, lo: int, hi: int, p: nat, e: nat, e2: nat, edit: Edit)
    requires Ordered(css, rules, lo, hi) && p <= e <= lo
    ensures EditSpans(rules, p, e, e2, edit) == ShiftAll(rules, e2 - e)
  {
    hide Close;
    EditAfter(rules, p, e, e2, edit);
  }

  ghost predicate Parted(a: string, b: string, p: nat, e: nat, e2: nat) {
    p < e <= |a| && p <= e2 <= |b| && SameBefore(a, b, p) && SameAfter(a, e, b, e2) && |b| - e2 == |a| - e
  }

  /** A block around the place closes where it did, up to the shift, as seen from the place itself. */
  ghost predicate SameClose(a: string, b: string, p: nat, e: nat, e2: nat) {
    && Parted(a, b, p, e, e2)
    && (Close(a, p, 1).Some? && Close(a, p, 1).value >= e ==> Moved(Close(b, p, 1), 0) == Moved(Close(a, p, 1), e2 - e))
  }

  /** The edit is right as seen from the place itself, in a block of its at-rules. */
  ghost predicate Local(a: string, b: string, p: nat, e: nat, e2: nat, edit: Edit, context: string) {
    && SameClose(a, b, p, e, e2)
    && forall end: nat :: Bounds(a, p, e, end, context) && Scan(a, p, p, 0, end, context).Some? ==>
         Scan(b, p, p, 0, end + e2 - e, context)
         == Some(EditSpans(Scan(a, p, p, 0, end, context).value, p, e, e2, edit))
  }

  /** A block's end as the scan passes it on: the text's end outside all at-rules, a closing brace inside one. */
  ghost predicate Bounds(css: string, i: nat, e: nat, end: nat, context: string) {
    i <= |css| && e <= end <= |css| && Enclosed(css, i, 0, end) && (end < |css| <==> context != "")
  }

  lemma LocalScan(a: string, b: string, p: nat, e: nat, e2: nat, edit: Edit, end: nat, context: string)
    requires Local(a, b, p, e, e2, edit, context) && Bounds(a, p, e, end, context)
    requires Scan(a, p, p, 0, end, context).Some?
    ensures Scan(b, p, p, 0, end + e2 - e, context)
         == Some(EditSpans(Scan(a, p, p, 0, end, context).value, p, e, e2, edit))
  {
  }

  lemma CloseHere(a: string, b: string, p: nat, e: nat, e2: nat)
    requires SameClose(a, b, p, e, e2) && Close(a, p, 1).Some? && Close(a, p, 1).value >= e
    ensures Moved(Close(b, p, 1), 0) == Moved(Close(a, p, 1), e2 - e)
  {
  }

  lemma LocalParts(a: string, b: string, p: nat, e: nat, e2: nat, edit: Edit, context: string)
    requires Local(a, b, p, e, e2, edit, context)
    ensures Parted(a, b, p, e, e2) && SameClose(a, b, p, e, e2)
  {
  }

  /** A block around the edited place closes where it did, up to the shift. */
  lemma {:induction false} CloseAround(a: string, b: string, i: nat, from: nat, end: nat, p: nat, e: nat, e2: nat)
    requires Parted(a, b, p, e, e2) && SameClose(a, b, p, e, e2)
    requires from <= i <= p && end < |a| && Close(a, i, 1) == Some(end) && Passes(a, i, from, 0, end, p, e) && e <= end
    ensures Moved(Close(b, i, 1), 0) == Some(end + e2 - e)
    decreases |a| - i
  {
    hide SameClose, Passes, AfterComment, Strip, IsAtRule, Nests, CommentAt;
    if i == p {
      CloseHere(a, b, p, e, e2);
    } else {
      PassesStep(a, i, from, 0, end, p, e);
      SameAt(a, b, p, i);
      if CommentAt(a, i) {
        CommentPrefix(a, b, i, p);
        CloseAround(a, b, AfterComment(a, i), from, end, p, e, e2);
      } else if a[i] == '{' {
        CloseAroundBlock(a, b, i, from, end, p, e, e2);
      } else {
        CloseAround(a, b, i + 1, from, end, p, e, e2);
      }
    }
  }

  lemma {:induction false} CloseAroundBlock(a: string, b: string, i: nat, from: nat, end: nat, p: nat, e: nat, e2: nat)
    requires Parted(a, b, p, e, e2) && SameClose(a, b, p, e, e2)
    requires from <= i < p && end < |a| && Close(a, i, 1) == Some(end) && Passes(a, i, from, 0, end, p, e) && e <= end
    requires a[i] == '{' && b[i] == '{'
    ensures Moved(Close(b, i, 1), 0) == Some(end + e2 - e)
    decreases |a| - i, 0
  {
    hide SameClose, Passes, AfterComment, Strip, IsAtRule, Nests, CommentAt, Close, SameBefore, SameAfter;
    PassesStep(a, i, from, 0, end, p, e);
    CloseOpen(a, i);
    CloseOpen(b, i);
    CloseTwice(a, i + 1, 1);
    CloseTwice(b, i + 1, 1);
    var close := Close(a, i + 1, 1).value;
    if p <= close {
      PassesEnds(a, i + 1, i + 1, 0, close, p, e);
      CloseAround(a, b, i + 1, i + 1, close, p, e, e2);
      SameOn(a, e, b, e2, close + 1 - e);
      CloseShift(a, close + 1, b, close + 1 + e2 - e, 1);
    } else {
      ClosePrefix(a, b, i + 1, 1, p);
      CloseAround(a, b, close + 1, close + 1, end, p, e, e2);
    }
  }

  lemma CloseOpen(css: string, i: nat)
    requires i < |css| && css[i] == '{'
    ensures !CommentAt(css, i) && Close(css, i, 1) == Close(css, i + 1, 2)
  {
  }

  lemma {:induction false} PassesEnds(css: string, i: nat, from: nat, depth: int, end: nat, p: nat, e: nat)
    requires from <= i <= |css| && end <= |css| && Passes(css, i, from, depth, end, p, e)
    requires Enclosed(css, i, depth, end)
    ensures e <= end
    decreases |css| - i
  {
    hide Passes, AfterComment, Strip, IsAtRule, Nests, CommentAt, Close, Enclosed;
    if i >= p {
      PassesHere(css, i, from, depth, end, p, e);
    } else {
      PassesStep(css, i, from, depth, end, p, e);
      EnclosedStep(css, i, depth, end);
      if CommentAt(css, i) {
        PassesEnds(css, AfterComment(css, i), from, depth, end, p, e);
      } else if css[i] == '{' && depth == 0 {
        var close := Close(css, i + 1, 1).value;
        if p <= close {
          PassesEnds(css, i + 1, i + 1, 0, close, p, e);
        } else {
          PassesEnds(css, close + 1, close + 1, 0, end, p, e);
        }
      } else {
        PassesEnds(css, i + 1, from, DepthAfter(css[i], depth), end, p, e);
      }
    }
  }

  lemma PassesHere(css: string, i: nat, from: nat, depth: int, end: nat, p: nat, e: nat)
    requires from <= i <= |css| && end <= |css| && Passes(css, i, from, depth, end, p, e) && i >= p
    ensures i == p && from == p && depth == 0 && e <= end
  {
  }

  lemma PassesLow(css: string, i: nat, from: nat, depth: int, end: nat, p: nat, e: nat)
    requires from <= i <= |css| && end <= |css| && Passes(css, i, from, depth, end, p, e)
    ensures i <= p
  {
  }

  lemma NestedBlock(css: string, from: nat, i: nat, close: nat, context: string)
    requires from <= i < close < |css|
    ensures var prelude := Strip(css[from..i]);
            IsAtRule(prelude) && Nests(prelude) ==>
              BlockRules(css, from, i, close, context) == Scan(css, i + 1, i + 1, 0, close, Nested(context, prelude))
  {
    hide Strip, IsAtRule, Nests, Scan;
  }

  lemma CloseIsEnclosed(css: string, i: nat, close: nat)
    requires i < |css| && Close(css, i + 1, 1) == Some(close)
    ensures Enclosed(css, i + 1, 0, close)
  {
  }

  /** A block that ends before the edited place contributes what it did. */
  lemma {:induction false} BlockBefore(a: string, b: string, from: nat, i: nat, close: nat, context: string,
                                       p: nat, e: nat, e2: nat, edit: Edit)
    requires SameBefore(a, b, p) && from <= i < close < p && Close(a, i + 1, 1) == Some(close)
    requires BlockRules(a, from, i, close, context).Some?
    ensures BlockRules(b, from, i, close, context) == BlockRules(a, from, i, close, context)
    ensures EditSpans(BlockRules(a, from, i, close, context).value, p, e, e2, edit)
         == BlockRules(a, from, i, close, context).value
  {
    hide Strip, IsAtRule, Nests, Scan, Close, Enclosed, Ordered, Nested, EditSpans, SameBefore;
    var prelude := Strip(a[from..i]);
    SamePreludeBefore(a, b, from, i, p);
    CloseIsEnclosed(a, i, close);
    var found := BlockRules(a, from, i, close, context).value;
    if IsAtRule(prelude) && Nests(prelude) {
      ScanPrefix(a, b, i + 1, i + 1, 0, close, Nested(context, prelude), p);
      ScanIsOrdered(a, i + 1, i + 1, 0, close, Nested(context, prelude));
      OrderedBefore(a, found, i + 1, close, p, e, e2, edit);
    } else {
      EditBefore(found, p, e, e2, edit);
    }
  }

  /** The rule that starts at `start` lies inside these at-rules. */
  ghost predicate LiesIn(rules: seq<Span>, start: nat, home: string) {
    forall r :: r in rules && r.start == start ==> r.context == home
  }

  lemma LiesInParts(x: seq<Span>, y: seq<Span>, start: nat, home: string)
    requires LiesIn(x + y, start, home)
    ensures LiesIn(x, start, home) && LiesIn(y, start, home)
  {
    assert forall r :: r in x ==> r in x + y;
  }

  lemma NestedIsInside(context: string, prelude: string)
    ensures Nested(context, prelude) != ""
  {
  }

  /** At its site the scan is inside the rule's own at-rules. */
  lemma SiteIsHome(css: string, p: nat, q: nat, close: nat, end: nat, context: string, home: string)
    requires p <= q < close < end <= |css| && Site(css, p, q, close) && Scan(css, p, p, 0, end, context).Some?
    requires LiesIn(Scan(css, p, p, 0, end, context).value, q + 1, home)
    ensures context == home
  {
    hide Site, Scan, Strip;
    SiteScan(css, p, q, close, end, context);
    var r := Span(Strip(css[p..q]), q + 1, close, context);
    assert r in Scan(css, p, p, 0, end, context).value;
  }

  /** Seen from anywhere before it, one correct edit changes the scan's result at that place only. */
  lemma {:induction false} RescanFrom(a: string, b: string, i: nat, from: nat, depth: int, end: nat, context: string,
                                      p: nat, q: nat, e: nat, e2: nat, edit: Edit, home: string)
    requires Parted(a, b, p, e, e2) && Local(a, b, p, e, e2, edit, home) && p <= q < e - 1 && Site(a, p, q, e - 1)
    requires from <= i <= p && e <= end <= |a| && Enclosed(a, i, depth, end) && Passes(a, i, from, depth, end, p, e)
    requires Scan(a, i, from, depth, end, context).Some? && (end < |a| <==> context != "")
    requires LiesIn(Scan(a, i, from, depth, end, context).value, q + 1, home)
    ensures Scan(b, i, from, depth, end + e2 - e, context)
         == Some(EditSpans(Scan(a, i, from, depth, end, context).value, p, e, e2, edit))
    decreases |a| - i
  {
    hide Local, Passes, AfterComment, Strip, IsAtRule, Nests, CommentAt, Scan, Close, Enclosed, BlockRules, EditSpans,
      SameAfter, SameBefore, Both, Site, LiesIn;
    if i == p {
      PassesHere(a, i, from, depth, end, p, e);
      SiteIsHome(a, p, q, e - 1, end, context, home);
      LocalScan(a, b, p, e, e2, edit, end, context);
    } else {
      PassesStep(a, i, from, depth, end, p, e);
      EnclosedStep(a, i, depth, end);
      SameAt(a, b, p, i);
      ScanStep(a, i, from, depth, end, context);
      ScanStep(b, i, from, depth, end + e2 - e, context);
      if CommentAt(a, i) {
        CommentPrefix(a, b, i, p);
        RescanFrom(a, b, AfterComment(a, i), from, depth, end, context, p, q, e, e2, edit, home);
      } else if a[i] == '{' && depth == 0 {
        RescanBlock(a, b, i, from, end, context, p, q, e, e2, edit, home);
      } else {
        RescanFrom(a, b, i + 1, from, DepthAfter(a[i], depth), end, context, p, q, e, e2, edit, home);
      }
    }
  }

  lemma {:induction false} RescanBlock(a: string, b: string, i: nat, from: nat, end: nat, context: string,
                                       p: nat, q: nat, e: nat, e2: nat, edit: Edit, home: string)
    requires Parted(a, b, p, e, e2) && Local(a, b, p, e, e2, edit, home) && p <= q < e - 1 && Site(a, p, q, e - 1)
    requires from <= i < p && e <= end <= |a| && Enclosed(a, i, 0, end) && Passes(a, i, from, 0, end, p, e)
    requires a[i] == '{' && Scan(a, i, from, 0, end, context).Some? && (end < |a| <==> context != "")
    requires LiesIn(Scan(a, i, from, 0, end, context).value, q + 1, home)
    ensures Scan(b, i, from, 0, end + e2 - e, context)
         == Some(EditSpans(Scan(a, i, from, 0, end, context).value, p, e, e2, edit))
    decreases |a| - i, 0
  {
    hide Local, Passes, AfterComment, Strip, IsAtRule, Nests, CommentAt, Scan, Close, Enclosed, BlockRules, EditSpans,
      SameAfter, SameBefore, Ordered, EditSpan, Nested, Site, LiesIn, SameClose;
    SameAt(a, b, p, i);
    CloseOpen(a, i);
    CloseOpen(b, i);
    PassesStep(a, i, from, 0, end, p, e);
    EnclosedStep(a, i, 0, end);
    ScanStep(a, i, from, 0, end, context);
    ScanStep(b, i, from, 0, end + e2 - e, context);
    var close := Close(a, i + 1, 1).value;
    var block := BlockRules(a, from, i, close, context).value;
    var rest := Scan(a, close + 1, close + 1, 0, end, context).value;
    EditConcat(block, rest, p, e, e2, edit);
    LiesInParts(block, rest, q + 1, home);
    if p <= close {
      PassesEnds(a, i + 1, i + 1, 0, close, p, e);
      NestedBlock(a, from, i, close, context);
      NestedIsInside(context, Strip(a[from..i]));
      SamePreludeBefore(a, b, from, i, p);
      CloseIsEnclosed(a, i, close);
      RescanFrom(a, b, i + 1, i + 1, 0, close, Nested(context, Strip(a[from..i])), p, q, e, e2, edit, home);
      LocalParts(a, b, p, e, e2, edit, home);
      CloseAround(a, b, i + 1, i + 1, close, p, e, e2);
      NestedBlock(b, from, i, close + e2 - e, context);
      ScanIsOrdered(a, close + 1, close + 1, 0, end, context);
      OrderedAfter(a, rest, close + 1, if close + 1 <= end then end else close + 1, p, e, e2, edit);
      SameOn(a, e, b, e2, close + 1 - e);
      PreludeStarts(a, close + 1, b, close + 1 + e2 - e);
      ScanShift(a, close + 1, close + 1, b, close + 1 + e2 - e, close + 1 + e2 - e, 0, end, end + e2 - e, context);
    } else {
      PassesLow(a, close + 1, close + 1, 0, end, p, e);
      ClosePrefix(a, b, i + 1, 1, p);
      RescanFrom(a, b, close + 1, close + 1, 0, end, context, p, q, e, e2, edit, home);
      BlockBefore(a, b, from, i, close, context, p, e, e2, edit);
    }
  }

  // ----- Replacing a body -----

  /** The rule between `q` and `close` is the next one scanned from `p`. */
  ghost predicate Site(css: string, p: nat, q: nat, close: nat) {
    && p <= q < close < |css| && Reaches(css, p, 0, q) && Close(css, q + 1, 1) == Some(close)
    && !IsAtRule(Strip(css[p..q])) && (p == 0 || css[p - 1] in {'{', '}'})
  }

  /** A body that closes nowhere before its brace: balanced, and with every comment closed. */
  predicate Contained(body: string) {
    Close(body + "}", 0, 1) == Some(|body|)
  }

  lemma ContainedCloses(css: string, i: nat, body: string, rest: string)
    requires Contained(body) && i <= |css| && css[i..] == body + "}" + rest
    ensures Close(css, i, 1) == Some(i + |body|)
  {
    hide Close;
    var alone, whole := body + "}", body + "}" + rest;
    assert whole[..|alone|] == alone == alone[..|alone|];
    ClosePrefix(alone, whole, 0, 1, |alone|);
    assert whole[0..] == whole;
    CloseShift(whole, 0, css, i, 1);
  }

  /** What the scan finds at a site. */
  lemma SiteScan(css: string, p: nat, q: nat, close: nat, end: nat, context: string)
    requires Site(css, p, q, close) && close < end <= |css|
    ensures Scan(css, p, p, 0, end, context)
         == Both(Some([Span(Strip(css[p..q]), q + 1, close, context)]),
                 Scan(css, close + 1, close + 1, 0, end, context))
  {
    hide Reaches, Scan, Close, Strip, IsAtRule, CommentAt, Nests;
    ScanReaches(css, p, p, 0, q, end, context);
    ReachesStays(css, p, 0, q);
    ScanStep(css, q, p, 0, end, context);
  }

  lemma {:induction false} ReachesStays(css: string, i: nat, depth: int, q: nat)
    requires i <= q < |css| && Reaches(css, i, depth, q)
    ensures css[q] == '{' && !CommentAt(css, q)
    decreases |css| - i
  {
    hide CommentAt, AfterComment, Reaches;
    if i == q {
      ReachesHere(css, depth, q);
    } else {
      ReachesStep(css, i, depth, q);
      if CommentAt(css, i) {
        ReachesStays(css, AfterComment(css, i), depth, q);
      } else {
        ReachesStays(css, i + 1, DepthAfter(css[i], depth), q);
      }
    }
  }

  /** The enclosing block closes after the site as it does before it. */
  lemma SiteClose(a: string, b: string, p: nat, q: nat, close: nat, end: nat)
    requires Site(a, p, q, close) && SameBefore(a, b, q + 1) && close < end < |a| && Close(a, p, 1) == Some(end)
    requires Close(b, q + 1, 1).Some?
    ensures Close(b, p, 1) == Close(b, Close(b, q + 1, 1).value + 1, 1)
    ensures Close(a, close + 1, 1) == Some(end)
  {
    hide Reaches, Close, Strip, IsAtRule, CommentAt;
    CloseReaches(a, b, p, q, end);
    ReachesStays(a, p, 0, q);
    SameAt(a, b, q + 1, q);
    CloseOpen(a, q);
    CloseOpen(b, q);
    CloseTwice(a, q + 1, 1);
    CloseTwice(b, q + 1, 1);
  }

  /** What is enclosed at a site is enclosed after it. */
  lemma SiteEnclosed(css: string, p: nat, q: nat, close: nat, end: nat)
    requires Site(css, p, q, close) && close < end <= |css| && Enclosed(css, p, 0, end)
    ensures Enclosed(css, close + 1, 0, end)
  {
    hide Reaches, Close, Strip, IsAtRule, CommentAt, Enclosed;
    EnclosedReaches(css, p, 0, q, end);
    ReachesStays(css, p, 0, q);
    EnclosedStep(css, q, 0, end);
  }

  ghost predicate Replaced(a: string, b: string, q: nat, close: nat, body: string) {
    q < close < |a| && b == a[..q + 1] + body + a[close..]
  }

  lemma ReplacedParts(a: string, b: string, p: nat, q: nat, close: nat, body: string)
    requires Replaced(a, b, q, close, body) && p <= q && a[close] == '}' && Contained(body)
    ensures SameBefore(a, b, q + 1) && Parted(a, b, p, close + 1, q + |body| + 2)
    ensures Close(b, q + 1, 1) == Some(q + 1 + |body|)
  {
    hide Close, Contained;
    assert a[..q + 1] == b[..q + 1];
    SameShorter(a, b, q + 1, p);
    assert a[close..] == "}" + a[close + 1..];
    assert b[q + 1..] == body + a[close..];
    assert b[q + 1..] == body + "}" + a[close + 1..];
    assert b[q + |body| + 2..] == a[close + 1..];
    ContainedCloses(b, q + 1, body, a[close + 1..]);
  }

  lemma ReplaceIsLocal(a: string, b: string, p: nat, q: nat, close: nat, body: string, context: string)
    requires Site(a, p, q, close) && Replaced(a, b, q, close, body) && Contained(body)
    ensures Local(a, b, p, close + 1, q + |body| + 2, Replace(body), context)
  {
    hide Reaches, Close, Strip, IsAtRule, CommentAt, Enclosed, Scan, Contained, Replaced, SameBefore, SameAfter,
      EditSpans;
    SiteBrace(a, p, q, close);
    var e, e2 := close + 1, q + |body| + 2;
    ReplacedParts(a, b, p, q, close, body);
    if Close(a, p, 1).Some? && Close(a, p, 1).value >= e {
      SiteClose(a, b, p, q, close, Close(a, p, 1).value);
      CloseShift(a, e, b, e2, 1);
    }
    forall end: nat | Bounds(a, p, e, end, context) && Scan(a, p, p, 0, end, context).Some?
      ensures Scan(b, p, p, 0, end + e2 - e, context)
           == Some(EditSpans(Scan(a, p, p, 0, end, context).value, p, e, e2, Replace(body)))
    {
      ReplaceScan(a, b, p, q, close, body, end, context);
    }
  }

  lemma SiteBrace(css: string, p: nat, q: nat, close: nat)
    requires Site(css, p, q, close)
    ensures css[close] == '}' && p <= q < close < |css|
  {
  }

  lemma ReplaceScan(a: string, b: string, p: nat, q: nat, close: nat, body: string, end: nat, context: string)
    requires p <= q < close < |a| && Site(a, p, q, close)
    requires SameBefore(a, b, q + 1) && Parted(a, b, p, close + 1, q + |body| + 2)
    requires Close(b, q + 1, 1) == Some(q + 1 + |body|)
    requires close < end <= |a| && Enclosed(a, p, 0, end) && Scan(a, p, p, 0, end, context).Some?
    ensures Scan(b, p, p, 0, end + |body| + q + 1 - close, context)
         == Some(EditSpans(Scan(a, p, p, 0, end, context).value, p, close + 1, q + |body| + 2, Replace(body)))
  {
    hide Site, Reaches, Close, Strip, IsAtRule, CommentAt, Enclosed, Scan, SameBefore, SameAfter, EditSpans, Ordered,
      Move;
    var e, e2 := close + 1, q + |body| + 2;
    SiteBrace(a, p, q, close);
    SameSite(a, b, p, q, close, q + 1 + |body|);
    SamePreludeBefore(a, b, p, q, q + 1);
    SiteScan(a, p, q, close, end, context);
    SiteScan(b, p, q, q + 1 + |body|, end + e2 - e, context);
    PreludeStarts(a, e, b, e2);
    ScanShift(a, e, e, b, e2, e2, 0, end, end + e2 - e, context);
    SiteEnclosed(a, p, q, close, end);
    ScanIsOrdered(a, e, e, 0, end, context);
    var r, rest := Span(Strip(a[p..q]), q + 1, close, context), Scan(a, e, e, 0, end, context).value;
    OrderedAfter(a, rest, e, end, p, e, e2, Replace(body));
    EditOne(r, rest, p, e, e2, Replace(body));
    MoveEnd(close, e, e2);
  }

  lemma MoveEnd(close: nat, e: nat, e2: nat)
    requires e == close + 1 && e2 > 0
    ensures Move(close, e2 - e) == e2 - 1
  {
  }

  lemma SameSite(a: string, b: string, p: nat, q: nat, close: nat, close2: nat)
    requires Site(a, p, q, close) && SameBefore(a, b, q + 1) && q < close2 < |b| && Close(b, q + 1, 1) == Some(close2)
    ensures Site(b, p, q, close2)
  {
    hide Reaches, Close, Strip, IsAtRule, CommentAt;
    ReachesPrefix(a, b, p, 0, q);
    SamePreludeBefore(a, b, p, q, q + 1);
    if p > 0 {
      SameAt(a, b, q + 1, p - 1);
    }
  }

  lemma EditOne(r: Span, rest: seq<Span>, p: nat, e: nat, e2: nat, edit: Edit)
    ensures EditSpans([r] + rest, p, e, e2, edit) == EditSpan(r, p, e, e2, edit) + EditSpans(rest, p, e, e2, edit)
  {
    assert ([r] + rest)[1..] == rest;
  }

  // ----- Deleting a rule -----

  predicate BlankOn(css: string, lo: nat, hi: nat)
    requires hi <= |css|
  {
    forall k :: lo <= k < hi ==> IsSpace(css[k])
  }

  lemma StripStep(css: string, p: nat, q: nat)
    requires p <= q <= |css|
    ensures p == q ==> Strip(css[p..q]) == ""
    ensures p < q ==> Strip(css[p..q]) == if IsSpace(css[p]) then Strip(css[p + 1..q])
                                          else if IsSpace(css[q - 1]) then Strip(css[p..q - 1])
                                          else css[p..q]
  {
    hide IsSpace;
    if p < q {
      assert css[p..q][1..] == css[p + 1..q] && css[p..q][..q - p - 1] == css[p..q - 1];
    }
  }

  /** `Strip` takes blanks off both ends and nothing else. */
  lemma {:induction false} StripAt(css: string, p: nat, q: nat) returns (lead: nat)
    requires p <= q <= |css|
    ensures var s := Strip(css[p..q]);
            && p <= lead && lead + |s| <= q && css[lead..lead + |s|] == s
            && BlankOn(css, p, lead) && BlankOn(css, lead + |s|, q)
            && (s != "" ==> !IsSpace(css[lead]) && !IsSpace(css[lead + |s| - 1]))
    decreases q - p
  {
    hide IsSpace, Strip;
    StripStep(css, p, q);
    if p == q {
      lead := p;
    } else if IsSpace(css[p]) {
      lead := StripAt(css, p + 1, q);
    } else if IsSpace(css[q - 1]) {
      lead := StripAt(css, p, q - 1);
    } else {
      lead := p;
    }
  }

  /** The prelude touches its brace. */
  predicate Touches(css: string, r: Span) {
    0 <= Lo(r) && r.start <= |css| && css[Lo(r)..r.start - 1] == r.prelude
  }

  lemma {:induction false} WalkBackBlank(css: string, k: nat, stop: nat)
    requires stop <= k <= |css| && (stop == 0 || !IsSpace(css[stop - 1]))
    ensures stop <= WalkBack(css, k) <= k
  {
    if k > stop {
      WalkBackBlank(css, k - 1, stop);
    }
  }

  lemma TouchesExactly(css: string, q: nat, r: Span, lead: nat)
    requires q < |css| && r.start == q + 1 && lead + |r.prelude| <= q && css[lead..lead + |r.prelude|] == r.prelude
    requires BlankOn(css, lead + |r.prelude|, q) && (r.prelude != "" ==> !IsSpace(css[lead + |r.prelude| - 1]))
    ensures Touches(css, r) <==> r.prelude == "" || lead + |r.prelude| == q
  {
    hide IsSpace;
    var s := r.prelude;
    if s != "" && lead + |s| < q {
      assert s[|s| - 1] == css[lead + |s| - 1];
      assert css[Lo(r)..q][|s| - 1] == css[q - 1];
    }
  }

  /** A deletion leaves only blanks of what lay before the rule, exactly when the prelude touches its brace. */
  lemma DeletionIsClean(css: string, p: nat, q: nat, r: Span)
    requires p <= q < |css| && r.start == q + 1 && r.prelude == Strip(css[p..q]) && (p == 0 || css[p - 1] in {'{', '}'})
    ensures 0 <= Lo(r) && p <= WalkBack(css, Lo(r)) <= q
    ensures BlankOn(css, p, WalkBack(css, Lo(r))) <==> Touches(css, r)
  {
    hide Strip, WalkBack, IsSpace, Touches;
    var s := r.prelude;
    var lead := StripAt(css, p, q);
    BracesAreNotBlank();
    WalkBackBlank(css, Lo(r), p);
    TouchesExactly(css, q, r, lead);
    if s != "" && lead + |s| < q {
      WalkBackBlank(css, Lo(r), lead + 1);
    }
  }

  lemma BracesAreNotBlank()
    ensures !IsSpace('{') && !IsSpace('}')
  {
  }

  lemma BlankSlice(css: string, lo: nat, hi: nat)
    requires lo <= hi <= |css| && BlankOn(css, lo, hi)
    ensures Blank(css[lo..hi])
  {
    hide IsSpace;
  }

  ghost predicate Deleted(a: string, b: string, cut: nat, close: nat) {
    cut <= close < |a| && b == a[..cut] + a[close + 1..]
  }

  lemma DeletedParts(a: string, b: string, p: nat, cut: nat, close: nat)
    requires Deleted(a, b, cut, close) && p <= cut
    ensures SameBefore(a, b, cut) && Parted(a, b, p, close + 1, cut) && a[p..cut] == b[p..cut]
  {
    assert a[..cut] == b[..cut];
    SameShorter(a, b, cut, p);
    SamePreludeBefore(a, b, p, cut, cut);
    assert b[cut..] == a[close + 1..];
  }

  /** No brace and no comment begins between `lo` and `hi`. */
  predicate InertOn(css: string, lo: nat, hi: nat)
    requires hi <= |css|
  {
    forall k :: lo <= k < hi ==> css[k] !in {'{', '}'} && !CommentAt(css, k)
  }

  lemma BlankIsInert(css: string, lo: nat, hi: nat)
    requires hi <= |css| && BlankOn(css, lo, hi)
    ensures InertOn(css, lo, hi)
  {
    assert !IsSpace('/') && !IsSpace('{') && !IsSpace('}');
    hide IsSpace;
  }

  lemma {:induction false} CloseInert(css: string, i: nat, cut: nat)
    requires i <= cut <= |css| && InertOn(css, i, cut)
    ensures Close(css, i, 1) == Close(css, cut, 1)
    decreases cut - i
  {
    hide CommentAt;
    if i < cut {
      CloseInert(css, i + 1, cut);
    }
  }

  lemma {:induction false} ScanInert(css: string, i: nat, from: nat, end: nat, context: string, cut: nat)
    requires from <= i <= cut <= end <= |css| && InertOn(css, i, cut)
    ensures Scan(css, i, from, 0, end, context) == Scan(css, cut, from, 0, end, context)
    decreases cut - i
  {
    hide Scan, Close, Both, BlockRules, AfterComment, CommentAt;
    if i < cut {
      ScanStep(css, i, from, 0, end, context);
      ScanInert(css, i + 1, from, end, context, cut);
    }
  }

  /** Another block opens at this level before the end of the enclosing one, or of the text outside all of them. */
  predicate Opens(css: string, i: nat, depth: int, enclosed: bool)
    requires i <= |css|
    decreases |css| - i
  {
    if i == |css| then false
    else if CommentAt(css, i) then Opens(css, AfterComment(css, i), depth, enclosed)
    else if css[i] == '{' && depth == 0 then true
    else !(enclosed && css[i] == '}' && depth == 0) && Opens(css, i + 1, DepthAfter(css[i], depth), enclosed)
  }

  lemma OpensStep(css: string, i: nat, depth: int, enclosed: bool)
    requires i < |css|
    ensures CommentAt(css, i) ==> Opens(css, i, depth, enclosed) == Opens(css, AfterComment(css, i), depth, enclosed)
    ensures !CommentAt(css, i) && css[i] == '{' && depth == 0 ==> Opens(css, i, depth, enclosed)
    ensures !CommentAt(css, i) && !(css[i] == '{' && depth == 0) && !(enclosed && css[i] == '}' && depth == 0) ==>
              Opens(css, i, depth, enclosed) == Opens(css, i + 1, DepthAfter(css[i], depth), enclosed)
  {
  }

  /** The scan has not left its block. */
  lemma InsideStep(css: string, i: nat, depth: int, end: nat)
    requires i < end < |css| && Enclosed(css, i, depth, end)
    ensures depth == 0 && !(css[i] == '}' && !CommentAt(css, i))
    ensures CommentAt(css, i) ==> AfterComment(css, i) <= end
    ensures !CommentAt(css, i) && css[i] != '{' ==> i + 1 <= end
  {
    if CommentAt(css, i) {
      EnclosedStep(css, i, depth, end);
      EnclosedWithin(css, AfterComment(css, i), depth, end);
    }
  }

  lemma {:induction false} NothingOpens(css: string, i: nat, from: nat, depth: int, end: nat, context: string)
    requires from <= i <= end <= |css| && Enclosed(css, i, depth, end) && !Opens(css, i, depth, end < |css|)
    ensures Scan(css, i, from, depth, end, context) == Some([])
    decreases |css| - i
  {
    hide Scan, Close, Both, BlockRules, AfterComment, CommentAt, Opens, Enclosed;
    if i == end {
      ScanDone(css, i, from, depth, end, context);
    } else {
      EnclosedStep(css, i, depth, end);
      ScanStep(css, i, from, depth, end, context);
      OpensStep(css, i, depth, end < |css|);
      if end < |css| {
        InsideStep(css, i, depth, end);
      }
      if CommentAt(css, i) {
        NothingOpens(css, AfterComment(css, i), from, depth, end, context);
      } else {
        NothingOpens(css, i + 1, from, DepthAfter(css[i], depth), end, context);
      }
    }
  }

  /** What is enclosed after a rule is enclosed in the text from which the rule is gone. */
  lemma EnclosedShift(a: string, i: nat, b: string, j: nat, end: nat)
    requires SameAfter(a, i, b, j) && i <= end <= |a| && Enclosed(a, i, 0, end)
    ensures end + j - i <= |b| && Enclosed(b, j, 0, end + j - i) && (end < |a| <==> end + j - i < |b|)
  {
    SameOn(a, i, b, j, 0);
    hide SameAfter;
    if end < |a| {
      CloseShift(a, i, b, j, 1);
    }
  }

  lemma {:induction false} OpensShift(a: string, i: nat, b: string, j: nat, depth: int, enclosed: bool)
    requires SameAfter(a, i, b, j)
    ensures i <= |a| && j <= |b| && Opens(b, j, depth, enclosed) == Opens(a, i, depth, enclosed)
    decreases |a| - i
  {
    hide CommentAt, AfterComment;
    SameOn(a, i, b, j, 0);
    if i < |a| {
      SameOn(a, i, b, j, 1);
      hide SameAfter;
      if CommentAt(a, i) {
        CommentShift(a, i, b, j);
        OpensShift(a, AfterComment(a, i), b, AfterComment(b, j), depth, enclosed);
      } else if !(a[i] == '{' && depth == 0) && !(enclosed && a[i] == '}' && depth == 0) {
        OpensShift(a, i + 1, b, j + 1, DepthAfter(a[i], depth), enclosed);
      }
    }
  }

  /** Taking out a rule leaves the closing brace of the block around it, whatever inert text stays behind. */
  lemma DeleteCloses(a: string, b: string, p: nat, q: nat, close: nat, cut: nat)
    requires Site(a, p, q, close) && p <= cut <= q && Deleted(a, b, cut, close)
    requires cut <= |b| && InertOn(b, p, cut)
    ensures SameBefore(a, b, cut) && SameClose(a, b, p, close + 1, cut) && a[p..cut] == b[p..cut]
  {
    hide Reaches, Close, Strip, IsAtRule, CommentAt, SameBefore, SameAfter, Deleted, InertOn;
    var e := close + 1;
    DeletedParts(a, b, p, cut, close);
    if Close(a, p, 1).Some? && Close(a, p, 1).value >= e {
      CloseInert(b, p, cut);
      SameItself(a, q + 1);
      SiteClose(a, a, p, q, close, Close(a, p, 1).value);
      CloseShift(a, e, b, cut, 1);
    }
  }

  /** Taking out a rule leaves the rest of its block alone when only blanks stay behind, or when nothing follows. */
  lemma DeleteIsLocal(a: string, b: string, p: nat, q: nat, close: nat, cut: nat, context: string)
    requires Site(a, p, q, close) && p <= cut <= q && Deleted(a, b, cut, close)
    requires cut <= |b| && InertOn(b, p, cut) && (Blank(a[p..cut]) || !Opens(a, close + 1, 0, context != ""))
    ensures Local(a, b, p, close + 1, cut, Delete, context)
  {
    hide Reaches, Close, Strip, IsAtRule, CommentAt, Enclosed, Scan, SameBefore, SameAfter, EditSpans, Blank, Deleted,
      InertOn, Opens, SameClose;
    var e := close + 1;
    DeletedParts(a, b, p, cut, close);
    DeleteCloses(a, b, p, q, close, cut);
    forall end: nat | Bounds(a, p, e, end, context) && Scan(a, p, p, 0, end, context).Some?
      ensures Scan(b, p, p, 0, end + cut - e, context)
           == Some(EditSpans(Scan(a, p, p, 0, end, context).value, p, e, cut, Delete))
    {
      if Blank(a[p..cut]) {
        DeleteScan(a, b, p, q, close, cut, end, context);
      } else {
        DeleteLast(a, b, p, q, close, cut, end, context);
      }
    }
  }

  lemma DeleteLast(a: string, b: string, p: nat, q: nat, close: nat, cut: nat, end: nat, context: string)
    requires p <= cut <= q < close < |a| && Site(a, p, q, close) && Parted(a, b, p, close + 1, cut)
    requires InertOn(b, p, cut)
    requires close < end <= |a| && Enclosed(a, p, 0, end) && Scan(a, p, p, 0, end, context).Some?
    requires !Opens(a, close + 1, 0, end < |a|)
    ensures Scan(b, p, p, 0, end + cut - close - 1, context)
         == Some(EditSpans(Scan(a, p, p, 0, end, context).value, p, close + 1, cut, Delete))
  {
    hide Site, Reaches, Close, Strip, IsAtRule, CommentAt, Enclosed, Scan, SameBefore, SameAfter, Ordered, Move,
      InertOn, Opens;
    var e := close + 1;
    SiteScan(a, p, q, close, end, context);
    SiteEnclosed(a, p, q, close, end);
    NothingOpens(a, e, e, 0, end, context);
    EnclosedShift(a, e, b, cut, end);
    OpensShift(a, e, b, cut, 0, end < |a|);
    ScanInert(b, p, p, end + cut - e, context, cut);
    NothingOpens(b, cut, p, 0, end + cut - e, context);
    EditOne(Span(Strip(a[p..q]), q + 1, close, context), [], p, e, cut, Delete);
  }

  lemma SameItself(a: string, p: nat)
    requires p <= |a|
    ensures SameBefore(a, a, p)
  {
  }

  lemma DeleteScan(a: string, b: string, p: nat, q: nat, close: nat, cut: nat, end: nat, context: string)
    requires p <= cut <= q < close < |a| && Site(a, p, q, close) && Parted(a, b, p, close + 1, cut) && Blank(b[p..cut])
    requires InertOn(b, p, cut)
    requires close < end <= |a| && Enclosed(a, p, 0, end) && Scan(a, p, p, 0, end, context).Some?
    ensures Scan(b, p, p, 0, end + cut - close - 1, context)
         == Some(EditSpans(Scan(a, p, p, 0, end, context).value, p, close + 1, cut, Delete))
  {
    hide Site, Reaches, Close, Strip, IsAtRule, CommentAt, Enclosed, Scan, SameBefore, SameAfter, EditSpans, Ordered,
      Move, Blank, InertOn;
    var e := close + 1;
    SiteScan(a, p, q, close, end, context);
    ScanInert(b, p, p, end + cut - e, context, cut);
    PreludeAfterBlanks(a, e, b, p, cut);
    ScanShift(a, e, e, b, cut, p, 0, end, end + cut - e, context);
    SiteEnclosed(a, p, q, close, end);
    ScanIsOrdered(a, e, e, 0, end, context);
    var r, rest := Span(Strip(a[p..q]), q + 1, close, context), Scan(a, e, e, 0, end, context).value;
    OrderedAfter(a, rest, e, end, p, e, cut, Delete);
    EditOne(r, rest, p, e, cut, Delete);
    assert [] + ShiftAll(rest, cut - e) == ShiftAll(rest, cut - e);
  }

  lemma PreludeAfterBlanks(a: string, e: nat, b: string, p: nat, cut: nat)
    requires e <= |a| && p <= cut <= |b| && Blank(b[p..cut])
    ensures SamePrelude(a, e, e, b, p, cut)
  {
  }

  // ----- Every rule has its site -----

  /** Where the `k`-th rule found lies, as the scan state sees it: it is the next one, or further on. */
  ghost predicate Placed(css: string, i: nat, from: nat, depth: int, end: nat, rules: seq<Span>, k: nat, p: nat)
    requires from <= i <= |css| && end <= |css| && k < |rules|
  {
    var r := rules[k];
    && 0 < r.start && from <= p < r.start <= r.end < end && (p == 0 || css[p - 1] in {'{', '}'})
    && Close(css, r.start, 1) == Some(r.end) && r.prelude == Strip(css[p..r.start - 1]) && !IsAtRule(r.prelude)
    && (forall l :: 0 <= l < k ==> rules[l].end < p)
    && if p == from then k == 0 && i < r.start && Reaches(css, i, depth, r.start - 1)
       else i <= p && Passes(css, i, from, depth, end, p, r.end + 1) && Reaches(css, p, 0, r.start - 1)
  }

  lemma {:induction false} FindSite(css: string, i: nat, from: nat, depth: int, end: nat, context: string,
                                    k: nat) returns (p: nat)
    requires from <= i <= |css| && end <= |css| && Enclosed(css, i, depth, end)
    requires (from == 0 || css[from - 1] in {'{', '}'})
    requires Scan(css, i, from, depth, end, context).Some? && k < |Scan(css, i, from, depth, end, context).value|
    ensures Placed(css, i, from, depth, end, Scan(css, i, from, depth, end, context).value, k, p)
    decreases |css| - i
  {
    hide Scan, Close, Enclosed, Strip, IsAtRule, Nests, CommentAt, AfterComment, BlockRules, Placed, Both;
    if i >= end {
      ScanDone(css, i, from, depth, end, context);
    }
    ScanStep(css, i, from, depth, end, context);
    EnclosedStep(css, i, depth, end);
    var rules := Scan(css, i, from, depth, end, context).value;
    if CommentAt(css, i) {
      p := FindSite(css, AfterComment(css, i), from, depth, end, context, k);
      PlacedComment(css, i, from, depth, end, rules, k, p);
    } else if css[i] == '{' && depth == 0 {
      p := FindInBlock(css, i, from, end, context, k);
    } else {
      p := FindSite(css, i + 1, from, DepthAfter(css[i], depth), end, context, k);
      PlacedChar(css, i, from, depth, end, rules, k, p);
    }
  }

  lemma PlacedComment(css: string, i: nat, from: nat, depth: int, end: nat, rules: seq<Span>, k: nat, p: nat)
    requires from <= i < end <= |css| && k < |rules| && CommentAt(css, i)
    requires Placed(css, AfterComment(css, i), from, depth, end, rules, k, p)
    ensures Placed(css, i, from, depth, end, rules, k, p)
  {
    hide Strip, IsAtRule, Close, CommentAt, AfterComment, Nests;
  }

  lemma PlacedChar(css: string, i: nat, from: nat, depth: int, end: nat, rules: seq<Span>, k: nat, p: nat)
    requires from <= i < end <= |css| && k < |rules| && !CommentAt(css, i) && !(css[i] == '{' && depth == 0)
    requires Placed(css, i + 1, from, DepthAfter(css[i], depth), end, rules, k, p)
    ensures Placed(css, i, from, depth, end, rules, k, p)
  {
    hide Strip, IsAtRule, Close, CommentAt, AfterComment, Nests;
  }

  lemma {:induction false} FindInBlock(css: string, i: nat, from: nat, end: nat, context: string,
                                       k: nat) returns (p: nat)
    requires from <= i < end <= |css| && Enclosed(css, i, 0, end) && (from == 0 || css[from - 1] in {'{', '}'})
    requires css[i] == '{' && Scan(css, i, from, 0, end, context).Some?
    requires k < |Scan(css, i, from, 0, end, context).value|
    ensures Placed(css, i, from, 0, end, Scan(css, i, from, 0, end, context).value, k, p)
    decreases |css| - i, 0
  {
    hide Scan, Close, Enclosed, Strip, IsAtRule, Nests, CommentAt, AfterComment, BlockRules, Placed, Ordered, Nested;
    CloseOpen(css, i);
    ScanStep(css, i, from, 0, end, context);
    EnclosedStep(css, i, 0, end);
    var close := Close(css, i + 1, 1).value;
    CloseBrace(css, i + 1);
    var block := BlockRules(css, from, i, close, context).value;
    var rest := Scan(css, close + 1, close + 1, 0, end, context).value;
    BlockEnds(css, from, i, close, context);
    if k >= |block| {
      p := FindSite(css, close + 1, close + 1, 0, end, context, k - |block|);
      PlacedAfterBlock(css, i, from, end, block, rest, k, p);
    } else {
      var prelude := Strip(css[from..i]);
      if IsAtRule(prelude) {
        NestedIs(css, from, i, close, context, k);
        p := FindSite(css, i + 1, i + 1, 0, close, Nested(context, prelude), k);
        PlacedInBlock(css, i, from, end, block, rest, k, p);
      } else {
        p := from;
        LeafIs(css, from, i, close, context);
        PlacedHere(css, i, from, end, context, rest);
      }
    }
  }

  lemma CloseBrace(css: string, i: nat)
    requires i <= |css| && Close(css, i, 1).Some?
    ensures i <= Close(css, i, 1).value < |css| && css[Close(css, i, 1).value] == '}'
  {
  }

  /** A block's rules end inside it. */
  lemma BlockEnds(css: string, from: nat, i: nat, close: nat, context: string)
    requires from <= i < close < |css| && Close(css, i + 1, 1) == Some(close)
    requires BlockRules(css, from, i, close, context).Some?
    ensures forall l :: 0 <= l < |BlockRules(css, from, i, close, context).value| ==>
              BlockRules(css, from, i, close, context).value[l].end <= close
  {
    hide Strip, IsAtRule, Nests, Scan, Close, Enclosed, Nested, Braced;
    CloseIsEnclosed(css, i, close);
    var prelude := Strip(css[from..i]);
    if IsAtRule(prelude) && Nests(prelude) {
      ScanIsOrdered(css, i + 1, i + 1, 0, close, Nested(context, prelude));
    }
  }

  lemma NestedIs(css: string, from: nat, i: nat, close: nat, context: string, k: nat)
    requires from <= i < close < |css| && Close(css, i + 1, 1) == Some(close) && IsAtRule(Strip(css[from..i]))
    requires BlockRules(css, from, i, close, context).Some? && k < |BlockRules(css, from, i, close, context).value|
    ensures Nests(Strip(css[from..i])) && Enclosed(css, i + 1, 0, close)
    ensures BlockRules(css, from, i, close, context)
         == Scan(css, i + 1, i + 1, 0, close, Nested(context, Strip(css[from..i])))
  {
    hide Strip, IsAtRule, Nests, Scan, Close, Nested;
  }

  lemma LeafIs(css: string, from: nat, i: nat, close: nat, context: string)
    requires from <= i < close < |css| && !IsAtRule(Strip(css[from..i]))
    ensures BlockRules(css, from, i, close, context) == Some([Span(Strip(css[from..i]), i + 1, close, context)])
  {
    hide Strip, IsAtRule, Nests, Scan;
  }

  lemma PlacedAfterBlock(css: string, i: nat, from: nat, end: nat, block: seq<Span>, rest: seq<Span>, k: nat, p: nat)
    requires from <= i < end <= |css| && css[i] == '{' && Close(css, i + 1, 1).Some? && |block| <= k < |block + rest|
    requires var close := Close(css, i + 1, 1).value;
             && (forall l :: 0 <= l < |block| ==> block[l].end <= close)
             && Placed(css, close + 1, close + 1, 0, end, rest, k - |block|, p)
    ensures Placed(css, i, from, 0, end, block + rest, k, p)
  {
    hide Strip, IsAtRule, Close, AfterComment, Nests;
    var close := Close(css, i + 1, 1).value;
    CloseBrace(css, i + 1);
    assert (block + rest)[k] == rest[k - |block|];
    assert Passes(css, close + 1, close + 1, 0, end, p, rest[k - |block|].end + 1);
    forall l | 0 <= l < k
      ensures (block + rest)[l].end < p
    {
      if l >= |block| {
        assert (block + rest)[l] == rest[l - |block|];
      }
    }
  }

  lemma PlacedInBlock(css: string, i: nat, from: nat, end: nat, block: seq<Span>, rest: seq<Span>, k: nat, p: nat)
    requires from <= i < end <= |css| && css[i] == '{' && Close(css, i + 1, 1).Some? && Close(css, i + 1, 1).value < end
    requires k < |block| && IsAtRule(Strip(css[from..i])) && Nests(Strip(css[from..i]))
    requires Placed(css, i + 1, i + 1, 0, Close(css, i + 1, 1).value, block, k, p)
    ensures Placed(css, i, from, 0, end, block + rest, k, p)
  {
    hide Strip, IsAtRule, Close, AfterComment, Nests;
    var close := Close(css, i + 1, 1).value;
    CloseBrace(css, i + 1);
    assert (block + rest)[k] == block[k];
    assert Passes(css, i + 1, i + 1, 0, close, p, block[k].end + 1);
    forall l | 0 <= l < k
      ensures (block + rest)[l].end < p
    {
      assert (block + rest)[l] == block[l];
    }
  }

  lemma PlacedHere(css: string, i: nat, from: nat, end: nat, context: string, rest: seq<Span>)
    requires from <= i < end <= |css| && css[i] == '{' && Close(css, i + 1, 1).Some? && Close(css, i + 1, 1).value < end
    requires !IsAtRule(Strip(css[from..i])) && (from == 0 || css[from - 1] in {'{', '}'})
    ensures Placed(css, i, from, 0, end,
                   [Span(Strip(css[from..i]), i + 1, Close(css, i + 1, 1).value, context)] + rest, 0, from)
  {
    hide Strip, IsAtRule, Close, Nests;
  }

  // ----- The rewritten text -----

  /** What the scan of a whole stylesheet finds. */
  function Rules(css: string): Option<seq<Span>> {
    Scan(css, 0, 0, 0, |css|, "")
  }

  /** Back over every blank. */
  function BlankBack(css: string, k: nat): (r: nat)
    requires k <= |css|
    ensures r <= k && BlankOn(css, r, k) && (r > 0 ==> !IsSpace(css[r - 1]))
  {
    if k > 0 && IsSpace(css[k - 1]) then BlankBack(css, k - 1) else k
  }

  predicate Cuttable(css: string, r: Span) {
    0 <= Lo(r) && 0 < r.start <= r.end < |css|
  }

  /** Where the prelude really begins; it is cut as if it touched its brace. */
  function Head(css: string, r: Span): int
    requires Cuttable(css, r)
  {
    BlankBack(css, r.start - 1) - |r.prelude|
  }

  /** Whatever of its prelude a deletion leaves behind opens no comment and holds no brace. */
  predicate Inert(css: string, r: Span)
    requires Cuttable(css, r)
  {
    var cut := WalkBack(css, Lo(r));
    var head := if Head(css, r) < 0 then 0 else Head(css, r);
    InertOn(css[..cut] + css[r.end + 1..], head, cut)
  }

  /** What an edit needs to leave the rest of the stylesheet alone: a deleted rule's prelude touches its brace, or no
      block follows it in its own. */
  predicate Fits(css: string, r: Span, edit: Edit)
    requires Cuttable(css, r)
  {
    && (edit.Delete? ==> Touches(css, r) || !Opens(css, r.end + 1, 0, r.context != ""))
    && (edit.Replace? ==> Contained(edit.body))
  }

  function EditedSpan(r: Span, edit: Edit): seq<Span> {
    match edit
    case Keep => [r]
    case Replace(body) => [Span(r.prelude, r.start, r.start + |body|, r.context)]
    case Delete => []
  }

  lemma {:induction false} EditAt(rules: seq<Span>, k: nat, p: nat, e: nat, e2: nat, edit: Edit)
    requires k < |rules| && p < e && (forall l :: 0 <= l < k ==> rules[l].end < p)
    requires forall l :: k < l < |rules| ==> e <= rules[l].start <= rules[l].end
    ensures EditSpans(rules, p, e, e2, edit)
         == rules[..k] + EditSpan(rules[k], p, e, e2, edit) + ShiftAll(rules[k + 1..], e2 - e)
  {
    hide EditSpans, EditSpan, ShiftAll;
    assert rules == rules[..k] + ([rules[k]] + rules[k + 1..]);
    EditConcat(rules[..k], [rules[k]] + rules[k + 1..], p, e, e2, edit);
    EditOne(rules[k], rules[k + 1..], p, e, e2, edit);
    EditBefore(rules[..k], p, e, e2, edit);
    EditAfter(rules[k + 1..], p, e, e2, edit);
  }

  lemma LaterRules(css: string, rules: seq<Span>, k: nat, l: nat)
    requires Ordered(css, rules, 0, |css|) && k < l < |rules|
    ensures rules[k].end + 1 <= rules[l].start <= rules[l].end
  {
    hide Close;
  }

  lemma {:induction false} OrderedSite(css: string, k: nat) returns (p: nat)
    requires Rules(css).Some? && k < |Rules(css).value|
    ensures var rules := Rules(css).value;
            && 0 < rules[k].start && rules[k].end < |css| && Site(css, p, rules[k].start - 1, rules[k].end)
            && rules[k].prelude == Strip(css[p..rules[k].start - 1])
            && Passes(css, 0, 0, 0, |css|, p, rules[k].end + 1)
            && (forall l :: 0 <= l < k ==> rules[l].end < p)
            && Ordered(css, rules, 0, |css|)
  {
    hide Scan, Close, Strip, IsAtRule, Reaches, Ordered, CommentAt;
    ScanIsOrdered(css, 0, 0, 0, |css|, "");
    p := FindSite(css, 0, 0, 0, |css|, "", k);
  }

  /** One fitting edit: the rule gets its new body or goes, and the later ones move along. */
  lemma {:induction false} OneEdit(css: string, k: nat, edit: Edit, out: string)
    requires Rules(css).Some? && k < |Rules(css).value| && !edit.Keep?
    requires var r := Rules(css).value[k];
             && Cuttable(css, r) && Fits(css, r, edit) && (edit.Delete? ==> Inert(css, r))
             && out == css[..CutStart(css, r, edit)] + Inserted(edit) + css[CutEnd(r, edit)..]
    ensures var rules := Rules(css).value;
            Rules(out) == Some(rules[..k] + EditedSpan(rules[k], edit) + ShiftAll(rules[k + 1..], |out| - |css|))
  {
    hide Scan, Close, Strip, IsAtRule, Reaches, Ordered, CommentAt, Site, Passes, WalkBack, Local, Parted, EditSpans,
      ShiftAll, Touches, Contained, SameAfter, SameBefore, Opens, Inert, Fits, LiesIn;
    var rules := Rules(css).value;
    var r := rules[k];
    var p := OrderedSite(css, k);
    var q, e := r.start - 1, r.end + 1;
    SiteBrace(css, p, q, r.end);
    var e2 := EditedEnd(css, p, r, edit, out);
    PartedLength(css, out, p, e, e2, edit, r.context);
    WholeIsEnclosed(css);
    OnlyRule(css, rules, k);
    RescanFrom(css, out, 0, 0, 0, |css|, "", p, q, e, e2, edit, r.context);
    forall l | k < l < |rules|
      ensures e <= rules[l].start <= rules[l].end
    {
      LaterRules(css, rules, k, l);
    }
    EditAt(rules, k, p, e, e2, edit);
  }

  lemma OnlyRule(css: string, rules: seq<Span>, k: nat)
    requires Ordered(css, rules, 0, |css|) && k < |rules|
    ensures LiesIn(rules, rules[k].start, rules[k].context)
  {
    hide Ordered;
    forall r | r in rules && r.start == rules[k].start
      ensures r.context == rules[k].context
    {
      var l :| 0 <= l < |rules| && rules[l] == r;
      if l < k {
        LaterRules(css, rules, l, k);
      }
      if k < l {
        LaterRules(css, rules, k, l);
      }
      StartsBeforeEnd(css, rules, l);
      StartsBeforeEnd(css, rules, k);
    }
  }

  lemma StartsBeforeEnd(css: string, rules: seq<Span>, k: nat)
    requires Ordered(css, rules, 0, |css|) && k < |rules|
    ensures rules[k].start <= rules[k].end < |css| && Cuttable(css, rules[k])
  {
    hide Close;
  }

  lemma WholeIsEnclosed(css: string)
    ensures Enclosed(css, 0, 0, |css|)
  {
  }

  lemma PartedLength(a: string, b: string, p: nat, e: nat, e2: nat, edit: Edit, context: string)
    requires Local(a, b, p, e, e2, edit, context)
    ensures Parted(a, b, p, e, e2) && |b| - e2 == |a| - e && p < e <= |a|
  {
    hide Scan, Close, EditSpans, Enclosed;
  }

  /** Before its own beginning a prelude has only blanks; after it, what stays is the same in the new text. */
  lemma StrayIsInert(css: string, p: nat, r: Span, out: string)
    requires Cuttable(css, r) && p < r.start && r.prelude == Strip(css[p..r.start - 1]) && Inert(css, r)
    requires var cut := WalkBack(css, Lo(r)); p <= cut && out == css[..cut] + css[r.end + 1..]
    ensures var cut := WalkBack(css, Lo(r)); cut <= |out| && InertOn(out, p, cut)
  {
    hide WalkBack, IsSpace, Strip, CommentAt;
    var q, cut := r.start - 1, WalkBack(css, Lo(r));
    var lead := StripAt(css, p, q);
    assert css[..cut] == out[..cut];
    var upto := if lead <= cut then lead else cut;
    assert BlankOn(out, p, upto) by {
      forall k | p <= k < upto
        ensures IsSpace(out[k])
      {
        assert out[..cut][k] == css[k];
      }
    }
    BlankIsInert(out, p, upto);
    if r.prelude != "" {
      HeadIsLead(css, q, r, lead);
    }
  }

  lemma {:induction false} BlankBackIs(css: string, k: nat, stop: nat)
    requires stop <= k <= |css| && BlankOn(css, stop, k) && (stop > 0 ==> !IsSpace(css[stop - 1]))
    ensures BlankBack(css, k) == stop
  {
    hide IsSpace;
    if k > stop {
      BlankBackIs(css, k - 1, stop);
    }
  }

  lemma HeadIsLead(css: string, q: nat, r: Span, lead: nat)
    requires Cuttable(css, r) && r.start == q + 1 && r.prelude != "" && lead + |r.prelude| <= q
    requires BlankOn(css, lead + |r.prelude|, q) && !IsSpace(css[lead + |r.prelude| - 1])
    ensures Head(css, r) == lead
  {
    hide IsSpace;
    BlankBackIs(css, q, lead + |r.prelude|);
  }

  /** A fitting edit is right as seen from its site; the result is where it ends. */
  lemma EditedEnd(css: string, p: nat, r: Span, edit: Edit, out: string) returns (e2: nat)
    requires Cuttable(css, r) && Site(css, p, r.start - 1, r.end) && r.prelude == Strip(css[p..r.start - 1])
    requires !edit.Keep? && Fits(css, r, edit) && (edit.Delete? ==> Inert(css, r))
    requires out == css[..CutStart(css, r, edit)] + Inserted(edit) + css[CutEnd(r, edit)..]
    ensures Local(css, out, p, r.end + 1, e2, edit, r.context)
    ensures EditSpan(r, p, r.end + 1, e2, edit) == EditedSpan(r, edit)
  {
    hide Scan, Close, Strip, IsAtRule, Reaches, CommentAt, WalkBack, Local, Contained, Touches, Opens, Inert, InertOn;
    var q := r.start - 1;
    match edit
    case Replace(body) =>
      e2 := q + |body| + 2;
      assert Replaced(css, out, q, r.end, body);
      ReplaceIsLocal(css, out, p, q, r.end, body, r.context);
    case Delete =>
      DeletionIsClean(css, p, q, r);
      e2 := WalkBack(css, Lo(r));
      assert css[..e2] + "" == css[..e2];
      assert Deleted(css, out, e2, r.end);
      StrayIsInert(css, p, r, out);
      if Touches(css, r) {
        BlankSlice(css, p, e2);
      }
      DeleteIsLocal(css, out, p, q, r.end, e2, r.context);
  }

  /** A rule as text: what it selects, what it says, and where. */
  datatype Leaf = Leaf(prelude: string, body: string, context: string)

  function View(css: string, r: Span): Leaf
    requires r.start <= r.end <= |css|
  {
    Leaf(r.prelude, css[r.start..r.end], r.context)
  }

  predicate InText(css: string, rules: seq<Span>) {
    forall k :: 0 <= k < |rules| ==> rules[k].start <= rules[k].end <= |css|
  }

  function Views(css: string, rules: seq<Span>): (leaves: seq<Leaf>)
    requires InText(css, rules)
    ensures |leaves| == |rules|
  {
    seq(|rules|, k requires 0 <= k < |rules| => View(css, rules[k]))
  }

  function EditView(leaf: Leaf, edit: Edit): seq<Leaf> {
    match edit
    case Keep => [leaf]
    case Replace(body) => [leaf.(body := body)]
    case Delete => []
  }

  /** The leaves from the `k`-th on, edited. */
  function EditViews(leaves: seq<Leaf>, edits: seq<Edit>, k: nat): seq<Leaf>
    requires |edits| == |leaves| && k <= |leaves|
    decreases |leaves| - k
  {
    if k == |leaves| then [] else EditView(leaves[k], edits[k]) + EditViews(leaves, edits, k + 1)
  }

  lemma OrderedInText(css: string, rules: seq<Span>)
    requires Ordered(css, rules, 0, |css|)
    ensures InText(css, rules)
  {
    hide Close;
  }

  /** The text in which the edits from the `k`-th on are done scans as the first `k` rules, where they were, and then
      the edited ones. */
  ghost predicate Rescans(css: string, rules: seq<Span>, edits: seq<Edit>, k: nat)
    requires Spliceable(css, rules, edits) && k <= |rules| && InText(css, rules)
  {
    var out := Rebuild(css, rules, edits, k, 0);
    && Rules(out).Some?
    && var found := Rules(out).value;
       && k <= |found| && found[..k] == rules[..k] && Ordered(out, found, 0, |out|) && InText(out, found)
       && Views(out, found)[k..] == EditViews(Views(css, rules), edits, k)
  }

  /** An edit fits the text in which the later ones are done. */
  ghost predicate FitsThere(css: string, rules: seq<Span>, edits: seq<Edit>, k: nat)
    requires Spliceable(css, rules, edits) && k < |rules|
  {
    var later := Rebuild(css, rules, edits, k + 1, 0);
    Cuttable(later, rules[k]) && Fits(later, rules[k], edits[k])
  }

  ghost predicate InertThere(css: string, rules: seq<Span>, edits: seq<Edit>, k: nat)
    requires Spliceable(css, rules, edits) && k < |rules|
  {
    var later := Rebuild(css, rules, edits, k + 1, 0);
    edits[k].Delete? ==> Cuttable(later, rules[k]) && Inert(later, rules[k])
  }

  /** Every edit fits. */
  ghost predicate TextFits(css: string, rules: seq<Span>, edits: seq<Edit>)
    requires Spliceable(css, rules, edits)
  {
    forall k :: 0 <= k < |rules| ==> FitsThere(css, rules, edits, k)
  }

  /** No deletion leaves text that opens a comment or holds a brace. */
  ghost predicate StraysInert(css: string, rules: seq<Span>, edits: seq<Edit>)
    requires Spliceable(css, rules, edits)
  {
    forall k :: 0 <= k < |rules| ==> InertThere(css, rules, edits, k)
  }

  lemma {:induction false} RescansAll(css: string, rules: seq<Span>, edits: seq<Edit>, k: nat)
    requires Rules(css) == Some(rules) && Spliceable(css, rules, edits) && k <= |rules| && Ordered(css, rules, 0, |css|)
    requires InText(css, rules) && TextFits(css, rules, edits) && StraysInert(css, rules, edits)
    ensures Rescans(css, rules, edits, k)
    decreases |rules| - k
  {
    hide Ordered, Rules, FitsThere, InertThere, Rescans, Spliceable, InText;
    if k == |rules| {
      RescansNone(css, rules, edits);
    } else {
      RescansAll(css, rules, edits, k + 1);
      RescansStep(css, rules, edits, k);
    }
  }

  lemma RescansNone(css: string, rules: seq<Span>, edits: seq<Edit>)
    requires Rules(css) == Some(rules) && Spliceable(css, rules, edits) && Ordered(css, rules, 0, |css|)
    requires InText(css, rules)
    ensures Rescans(css, rules, edits, |rules|)
  {
    hide Ordered, Rules, Rebuild;
    RebuildNone(css, rules, edits);
    assert rules[..|rules|] == rules;
  }

  lemma {:induction false} RescansStep(css: string, rules: seq<Span>, edits: seq<Edit>, k: nat)
    requires Spliceable(css, rules, edits) && k < |rules| && Ordered(css, rules, 0, |css|) && InText(css, rules)
    requires Rescans(css, rules, edits, k + 1) && FitsThere(css, rules, edits, k) && InertThere(css, rules, edits, k)
    ensures Rescans(css, rules, edits, k)
  {
    hide Ordered, Rules, Rebuild, Views, EditViews, CutStart, Inserted, Fits, Inert;
    var later := Rebuild(css, rules, edits, k + 1, 0);
    var found := Rules(later).value;
    EditStep(css, rules, edits, k, later);
    assert found[k] == found[..k + 1][k] == rules[k];
    assert found[..k] == found[..k + 1][..k] && rules[..k] == rules[..k + 1][..k];
    if edits[k].Keep? {
      KeepStep(css, rules, edits, k);
      KeptView(css, rules, edits, k, later, found);
    } else {
      var out := Rebuild(css, rules, edits, k, 0);
      EditMovesAlong(css, rules[k], edits[k], later);
      OneEdit(later, k, edits[k], out);
      var next := found[..k] + EditedSpan(rules[k], edits[k]) + ShiftAll(found[k + 1..], |out| - |later|);
      ScanIsOrderedRules(out);
      OrderedInText(out, next);
      ViewAt(css, rules, k);
      EditedViews(Views(css, rules)[k], Views(css, rules), edits, k, later, found, out, next);
      assert next[..k] == found[..k];
    }
  }

  lemma ScanIsOrderedRules(css: string)
    requires Rules(css).Some?
    ensures Ordered(css, Rules(css).value, 0, |css|)
  {
    hide Scan;
    ScanIsOrdered(css, 0, 0, 0, |css|, "");
  }

  lemma SameView(a: string, b: string, r: Span, p: nat)
    requires r.start <= r.end < p && p <= |a| && p <= |b| && a[..p] == b[..p]
    ensures View(a, r) == View(b, r)
  {
    SamePreludeBefore(a, b, r.start, r.end, p);
  }

  lemma KeptView(css: string, rules: seq<Span>, edits: seq<Edit>, k: nat, later: string, found: seq<Span>)
    requires InText(css, rules) && InText(later, found) && k < |rules| == |edits| && k < |found| && found[k] == rules[k]
    requires edits[k].Keep? && rules[k].end < |later| && rules[k].end < |css|
    requires later[..rules[k].end + 1] == css[..rules[k].end + 1]
    requires Views(later, found)[k + 1..] == EditViews(Views(css, rules), edits, k + 1)
    ensures Views(later, found)[k..] == EditViews(Views(css, rules), edits, k)
  {
    SameView(css, later, rules[k], rules[k].end + 1);
    var views := Views(later, found);
    assert views[k..] == [views[k]] + views[k + 1..];
  }

  /** The later edits leave this one's cut alone. */
  lemma EditMovesAlong(css: string, r: Span, edit: Edit, later: string)
    requires 0 <= Lo(r) && r.start <= r.end < |css| && r.end < |later| && later[..r.end + 1] == css[..r.end + 1]
    ensures CutStart(later, r, edit) == CutStart(css, r, edit)
  {
    WalkBackPrefix(css, later, Lo(r), r.end + 1);
  }

  lemma ShiftedView(a: string, b: string, r: Span, e: nat, e2: nat)
    requires e <= r.start <= r.end <= |a| && e2 <= |b| && a[e..] == b[e2..]
    ensures var s := Shift(r, e2 - e); s.start <= s.end <= |b| && View(b, s) == View(a, r)
  {
    var s := Shift(r, e2 - e);
    assert |a| - e == |b| - e2;
    assert a[r.start..r.end] == a[e..][r.start - e..r.end - e];
    assert b[s.start..s.end] == b[e2..][r.start - e..r.end - e];
  }

  /** The new text after an edit is the old one after it. */
  lemma EditTail(later: string, r: Span, edit: Edit, cut: nat, out: string)
    requires !edit.Keep? && r.start <= r.end < |later| && cut <= |later| && CutEnd(r, edit) <= |later|
    requires out == later[..cut] + Inserted(edit) + later[CutEnd(r, edit)..]
    ensures r.end + 1 + |out| - |later| >= 0 && out[r.end + 1 + |out| - |later|..] == later[r.end + 1..]
  {
    var hi := CutEnd(r, edit);
    var head := later[..cut] + Inserted(edit);
    assert |out| - |later| == |head| - hi;
    assert out[|head|..] == later[hi..];
    assert later[r.end + 1..] == later[hi..][r.end + 1 - hi..];
    assert out[|head| + r.end + 1 - hi..] == out[|head|..][r.end + 1 - hi..];
  }

  lemma LaterViews(later: string, found: seq<Span>, k: nat, out: string, next: seq<Span>, m: nat, e: nat, e2: nat)
    requires InText(later, found) && k < |found| && InText(out, next) && Ordered(later, found, 0, |later|)
    requires e == found[k].end + 1 <= |later| && e2 <= |out| && later[e..] == out[e2..]
    requires m <= |next| && next[m..] == ShiftAll(found[k + 1..], e2 - e)
    ensures Views(out, next)[m..] == Views(later, found)[k + 1..]
  {
    hide Ordered;
    var rest, rest' := Views(later, found)[k + 1..], Views(out, next)[m..];
    forall l | 0 <= l < |rest|
      ensures rest'[l] == rest[l]
    {
      LaterRules(later, found, k, k + 1 + l);
      assert next[m..][l] == Shift(found[k + 1 + l], e2 - e);
      ShiftedView(later, out, found[k + 1 + l], e, e2);
    }
  }

  lemma EditedView(later: string, r: Span, edit: Edit, out: string, context: Leaf)
    requires !edit.Keep? && 0 <= Lo(r) && r.start <= r.end < |later| && CutEnd(r, edit) <= |later|
    requires out == later[..CutStart(later, r, edit)] + Inserted(edit) + later[CutEnd(r, edit)..]
    requires context.prelude == r.prelude && context.context == r.context
    ensures InText(out, EditedSpan(r, edit)) && Views(out, EditedSpan(r, edit)) == EditView(context, edit)
  {
    hide WalkBack;
    if edit.Replace? {
      assert out[r.start..r.start + |edit.body|] == edit.body;
    }
  }

  lemma ViewsOf(css: string, rules: seq<Span>, lo: nat, hi: nat, mid: seq<Span>)
    requires InText(css, rules) && lo <= hi <= |rules| && rules[lo..hi] == mid
    ensures InText(css, mid) && Views(css, rules)[lo..] == Views(css, mid) + Views(css, rules)[hi..]
  {
    forall k | 0 <= k < |mid|
      ensures mid[k] == rules[lo + k]
    {
    }
  }

  lemma CutsWithin(css: string, r: Span, edit: Edit)
    requires 0 <= Lo(r) && r.start <= |css|
    ensures CutStart(css, r, edit) <= |css|
  {
  }

  /** The rules after the edited one read as they did. */
  lemma TailViews(later: string, found: seq<Span>, k: nat, edit: Edit, out: string, next: seq<Span>)
    requires InText(later, found) && k < |found| && !edit.Keep? && Ordered(later, found, 0, |later|)
    requires var r := found[k];
             && 0 <= Lo(r) && r.start <= r.end < |later| && CutEnd(r, edit) <= |later|
             && out == later[..CutStart(later, r, edit)] + Inserted(edit) + later[CutEnd(r, edit)..]
    requires next == found[..k] + EditedSpan(found[k], edit) + ShiftAll(found[k + 1..], |out| - |later|)
    requires InText(out, next)
    ensures var mid := EditedSpan(found[k], edit);
            next[k..k + |mid|] == mid && Views(out, next)[k + |mid|..] == Views(later, found)[k + 1..]
  {
    hide Ordered, WalkBack, ShiftAll, CutStart, CutEnd, Inserted, EditedSpan, InText, Views;
    var r := found[k];
    CutsWithin(later, r, edit);
    EditTail(later, r, edit, CutStart(later, r, edit), out);
    var mid := EditedSpan(r, edit);
    NextParts(found[..k], mid, ShiftAll(found[k + 1..], |out| - |later|));
    LaterViews(later, found, k, out, next, k + |mid|, r.end + 1, r.end + 1 + |out| - |later|);
  }

  lemma EditedViews(leaf: Leaf, leaves: seq<Leaf>, edits: seq<Edit>, k: nat, later: string, found: seq<Span>,
                    out: string, next: seq<Span>)
    requires InText(later, found) && k < |leaves| == |edits| && k < |found| && !edits[k].Keep?
    requires Ordered(later, found, 0, |later|)
    requires leaf == leaves[k] && leaf.prelude == found[k].prelude && leaf.context == found[k].context
    requires var r, edit := found[k], edits[k];
             && 0 <= Lo(r) && r.start <= r.end < |later| && CutEnd(r, edit) <= |later|
             && out == later[..CutStart(later, r, edit)] + Inserted(edit) + later[CutEnd(r, edit)..]
             && next == found[..k] + EditedSpan(r, edit) + ShiftAll(found[k + 1..], |out| - |later|)
    requires InText(out, next) && Views(later, found)[k + 1..] == EditViews(leaves, edits, k + 1)
    ensures Views(out, next)[k..] == EditViews(leaves, edits, k)
  {
    hide Ordered, WalkBack, ShiftAll, CutStart, CutEnd, Inserted, EditedSpan, InText, Views, EditViews, EditView, Lo;
    var mid := EditedSpan(found[k], edits[k]);
    TailViews(later, found, k, edits[k], out, next);
    EditedView(later, found[k], edits[k], out, leaf);
    ViewsOf(out, next, k, k + |mid|, mid);
    EditViewsStep(leaves, edits, k);
  }

  lemma EditViewsStep(leaves: seq<Leaf>, edits: seq<Edit>, k: nat)
    requires k < |leaves| == |edits|
    ensures EditViews(leaves, edits, k) == EditView(leaves[k], edits[k]) + EditViews(leaves, edits, k + 1)
  {
  }

  lemma NextParts(a: seq<Span>, mid: seq<Span>, tail: seq<Span>)
    ensures var next := a + mid + tail;
            next[|a|..|a| + |mid|] == mid && next[|a| + |mid|..] == tail
  {
  }

  lemma ViewAt(css: string, rules: seq<Span>, k: nat)
    requires InText(css, rules) && k < |rules|
    ensures Views(css, rules)[k].prelude == rules[k].prelude && Views(css, rules)[k].context == rules[k].context
  {
  }

  /** Scanning the rewritten text finds, in order, exactly the rules that were not deleted, under the same preludes and
      at-rules, each with its new body or its old one. */
  lemma RewrittenTextRescans(css: string, rules: seq<Span>, edits: seq<Edit>)
    requires Rules(css) == Some(rules) && Spliceable(css, rules, edits)
    requires TextFits(css, rules, edits) && StraysInert(css, rules, edits)
    ensures InText(css, rules)
    ensures var out := Rebuild(css, rules, edits, 0, 0);
            && Rules(out).Some? && InText(out, Rules(out).value)
            && Views(out, Rules(out).value) == EditViews(Views(css, rules), edits, 0)
  {
    hide Scan, TextFits, StraysInert, Ordered, Rebuild, Spliceable;
    ScanIsOrderedRules(css);
    OrderedInText(css, rules);
    RescansAll(css, rules, edits, 0);
  }
}
