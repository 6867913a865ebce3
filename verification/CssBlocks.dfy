/** The blocks of a stylesheet, read off the text character by character: which rules there are and which at-rules
    enclose each of them, and that the scanner finds exactly those. */
module CssBlocks {
  import opened CssText
  import opened PythonText
  import opened Wrappers
  import C = CssCascade
  import F = CssFile
  import R = CssRescan

  // ----- The text, character by character -----

  datatype Part = Text | Opening | Comment | Closing

  /** What stands at a position: text, or a comment with the second characters of its two marks; and how many more
      braces have been opened than closed before it. */
  datatype Place = Place(part: Part, level: int)

  predicate Two(css: string, p: nat, c: char, d: char) {
    p + 1 < |css| && css[p] == c && css[p + 1] == d
  }

  function Following(css: string, p: nat, at: Place): Place
    requires p < |css|
  {
    match at.part
    case Text =>
      if Two(css, p, '/', '*') then at.(part := Opening)
      else if css[p] == '{' then at.(level := at.level + 1)
      else if css[p] == '}' then at.(level := at.level - 1)
      else at
    case Opening => at.(part := Comment)
    case Comment => if Two(css, p, '*', '/') then at.(part := Closing) else at
    case Closing => at.(part := Text)
  }

  function PlaceAt(css: string, p: nat): Place
    requires p <= |css|
  {
    if p == 0 then Place(Text, 0) else Following(css, p - 1, PlaceAt(css, p - 1))
  }

  function Level(css: string, p: nat): int
    requires p <= |css|
  {
    PlaceAt(css, p).level
  }

  /** A brace that opens a block. One that only makes up for a stray `}` opens none. */
  predicate Opens(css: string, p: nat) {
    p < |css| && css[p] == '{' && PlaceAt(css, p).part.Text? && Level(css, p) >= 0
  }

  predicate Shuts(css: string, p: nat) {
    p < |css| && css[p] == '}' && PlaceAt(css, p).part.Text? && Level(css, p) > 0
  }

  /** The block opened at `b` is still open at `p`. */
  predicate Encloses(css: string, b: nat, p: nat): (open: bool)
    requires p <= |css|
    ensures open ==> b < p
  {
    b < p && Opens(css, b) && forall q :: b < q <= p ==> Level(css, q) > Level(css, b)
  }

  /** The block opened at `b` is closed at `close`. */
  predicate Block(css: string, b: nat, close: nat) {
    close < |css| && Encloses(css, b, close) && Level(css, close + 1) == Level(css, b)
  }

  /** Just after the last brace before `p` that opens or closes a block. */
  function PreludeStart(css: string, p: nat): (k: nat)
    requires p <= |css|
    ensures k <= p
  {
    if p == 0 || Opens(css, p - 1) || Shuts(css, p - 1) then p else PreludeStart(css, p - 1)
  }

  function PreludeAt(css: string, b: nat): string
    requires b <= |css|
  {
    Strip(css[PreludeStart(css, b)..b])
  }

  // ----- Rules -----

  /** The word, in any case, and then nothing or a blank. */
  predicate Begins(prelude: string, word: string) {
    && |word| <= |prelude| && Lower(prelude[..|word|]) == word
    && (|word| == |prelude| || IsSpace(prelude[|word|]))
  }

  /** The at-rules whose blocks hold rules. */
  predicate Conditional(prelude: string) {
    || Begins(prelude, "@media") || Begins(prelude, "@supports")
    || Begins(prelude, "@layer") || Begins(prelude, "@container")
  }

  predicate AtRule(prelude: string) {
    prelude != "" && prelude[0] == '@'
  }

  /** A block that is no at-rule, with only conditional at-rules around it. */
  predicate Leaf(css: string, b: nat) {
    && Opens(css, b) && !AtRule(PreludeAt(css, b))
    && forall a | 0 <= a < b :: Encloses(css, a, b) ==> Conditional(PreludeAt(css, a))
  }

  /** The blocks around `b`, outermost first. */
  ghost predicate Around(css: string, b: nat, blocks: seq<nat>)
    requires b <= |css|
  {
    && (forall k, l :: 0 <= k < l < |blocks| ==> blocks[k] < blocks[l])
    && (forall k :: 0 <= k < |blocks| ==> Encloses(css, blocks[k], b))
    && forall a :: Encloses(css, a, b) ==> a in blocks
  }

  function Preludes(css: string, blocks: seq<nat>): seq<string>
    requires forall k :: 0 <= k < |blocks| ==> blocks[k] <= |css|
  {
    seq(|blocks|, k requires 0 <= k < |blocks| => PreludeAt(css, blocks[k]))
  }

  /** Each prelude after two bars. */
  function Barred(preludes: seq<string>): string {
    if preludes == [] then "" else Barred(preludes[..|preludes| - 1]) + "||" + preludes[|preludes| - 1]
  }

  /** The rule whose block opens at `b`. */
  ghost predicate RuleAt(css: string, b: nat, r: Span) {
    && Leaf(css, b) && r.prelude == PreludeAt(css, b)
    && r.start == b + 1 && Block(css, b, r.end)
    && exists blocks: seq<nat> :: Around(css, b, blocks) && r.context == Barred(Preludes(css, blocks))
  }

  // ----- Where the steps of the scan lead -----

  /** Nothing opens or closes a block between two positions. */
  ghost predicate Quiet(css: string, i: nat, j: nat) {
    && i <= j <= |css|
    && forall q :: i <= q < j ==> !Opens(css, q) && !Shuts(css, q)
  }

  lemma {:induction false} CommentPlaces(css: string, i: nat, q: nat)
    requires CommentAt(css, i) && PlaceAt(css, i).part.Text? && i < q <= AfterComment(css, i)
    ensures Level(css, q) == Level(css, i)
    ensures var close := CommentClose(css, i + 2);
            PlaceAt(css, q).part == if q == i + 1 then Opening else if q <= close then Comment
                                    else if q == close + 1 then Closing else Text
  {
    if q == i + 1 {
    } else {
      CommentPlaces(css, i, q - 1);
      CloseIsFirst(css, i + 2, q - 1);
    }
  }

  lemma {:induction false} CloseIsFirst(css: string, from: nat, q: nat)
    requires from <= |css|
    ensures from <= q < CommentClose(css, from) ==> !Two(css, q, '*', '/')
    decreases |css| - from
  {
    if from < q < CommentClose(css, from) {
      CloseIsFirst(css, from + 1, q);
    }
  }

  /** Over a comment nothing happens. */
  lemma CommentIsQuiet(css: string, i: nat)
    requires CommentAt(css, i) && PlaceAt(css, i).part.Text?
    ensures var j := AfterComment(css, i);
            && Quiet(css, i, j) && Level(css, j) == Level(css, i) && (j == |css| || PlaceAt(css, j).part.Text?)
            && forall q :: i <= q <= j ==> Level(css, q) == Level(css, i)
  {
    var j := AfterComment(css, i);
    forall q | i < q <= j
      ensures Level(css, q) == Level(css, i) && (q < j ==> !PlaceAt(css, q).part.Text?)
      ensures q == j < |css| ==> PlaceAt(css, q).part.Text?
    {
      CommentPlaces(css, i, q);
    }
  }

  /** The brace that `Close` finds is the first at which the level falls so far. */
  lemma {:induction false} CloseLevels(css: string, i: nat, depth: nat)
    requires i <= |css| && depth > 0 && (i == |css| || PlaceAt(css, i).part.Text?)
    ensures match Close(css, i, depth)
            case None => forall q :: i <= q <= |css| ==> Level(css, q) > Level(css, i) - depth
            case Some(j) =>
              && PlaceAt(css, j).part.Text? && Level(css, j + 1) == Level(css, i) - depth
              && forall q :: i <= q <= j ==> Level(css, q) > Level(css, i) - depth
    decreases |css| - i
  {
    hide AfterComment, CommentClose, PlaceAt, Level, Quiet;
    if i < |css| {
      if CommentAt(css, i) {
        CommentIsQuiet(css, i);
        CloseLevels(css, AfterComment(css, i), depth);
      } else {
        hide CommentAt;
        TextStep(css, i);
        if css[i] == '{' {
          CloseLevels(css, i + 1, depth + 1);
        } else if css[i] == '}' {
          if depth > 1 {
            CloseLevels(css, i + 1, depth - 1);
          }
        } else {
          CloseLevels(css, i + 1, depth);
        }
      }
    }
  }

  /** One character outside comments. */
  lemma TextStep(css: string, i: nat)
    requires i < |css| && PlaceAt(css, i).part.Text? && !CommentAt(css, i)
    ensures PlaceAt(css, i + 1).part.Text?
    ensures Level(css, i + 1) == Level(css, i) + if css[i] == '{' then 1 else if css[i] == '}' then -1 else 0
  {
  }

  /** A brace that opens a block and the one found for it. */
  lemma BlockCloses(css: string, b: nat)
    requires Opens(css, b)
    ensures match Close(css, b + 1, 1)
            case None => Level(css, |css|) > Level(css, b)
            case Some(close) => Block(css, b, close) && Shuts(css, close) && PlaceAt(css, close + 1).part.Text?
  {
    hide Close;
    CloseLevels(css, b + 1, 1);
  }

  // ----- The blocks that are open -----

  function Stack(css: string, p: nat): (s: seq<nat>)
    requires p <= |css|
    ensures forall k :: 0 <= k < |s| ==> s[k] < p
  {
    if p == 0 then []
    else
      var before := Stack(css, p - 1);
      if Opens(css, p - 1) then before + [p - 1]
      else if Shuts(css, p - 1) && before != [] then before[..|before| - 1]
      else before
  }

  lemma {:induction false} StackHeight(css: string, p: nat)
    requires p <= |css|
    ensures |Stack(css, p)| == if Level(css, p) > 0 then Level(css, p) else 0
  {
    if p > 0 {
      StackHeight(css, p - 1);
    }
  }

  lemma {:induction false} StackHolds(css: string, p: nat)
    requires p <= |css|
    ensures var s := Stack(css, p);
            forall k :: 0 <= k < |s| ==> Encloses(css, s[k], p) && Level(css, s[k]) == k
  {
    StackHeight(css, p);
    if p > 0 {
      StackHolds(css, p - 1);
      StackHeight(css, p - 1);
    }
  }

  lemma {:induction false} EnclosingOnStack(css: string, a: nat, p: nat)
    requires p <= |css| && Encloses(css, a, p)
    ensures 0 <= Level(css, a) < |Stack(css, p)| && Stack(css, p)[Level(css, a)] == a
  {
    StackHeight(css, p);
    StackHeight(css, p - 1);
    if a < p - 1 {
      EnclosingOnStack(css, a, p - 1);
    }
  }

  lemma {:induction false} StackIsAround(css: string, p: nat)
    requires p <= |css|
    ensures Around(css, p, Stack(css, p))
  {
    hide Level, Opens, Stack;
    var s := Stack(css, p);
    StackHolds(css, p);
    forall a | Encloses(css, a, p)
      ensures a in s
    {
      EnclosingOnStack(css, a, p);
      assert s[Level(css, a)] == a;
    }
    forall k, l | 0 <= k < l < |s|
      ensures s[k] < s[l]
    {
      assert Level(css, s[k]) == k && Level(css, s[l]) == l;
    }
  }

  lemma {:induction false} SortedSame(a: seq<nat>, b: seq<nat>)
    requires forall k, l :: 0 <= k < l < |a| ==> a[k] < a[l]
    requires forall k, l :: 0 <= k < l < |b| ==> b[k] < b[l]
    requires forall x :: x in a <==> x in b
    ensures a == b
  {
    assert (a != [] ==> a[0] in b) && (b != [] ==> b[0] in a);
    if a != [] {
      assert a[|a| - 1] in b && b[|b| - 1] in a;
      var n, m := |a| - 1, |b| - 1;
      assert a[n] == b[m];
      forall x
        ensures x in a[..n] <==> x in b[..m]
      {
        assert x in a[..n] <==> x in a && x != a[n];
        assert x in b[..m] <==> x in b && x != b[m];
      }
      SortedSame(a[..n], b[..m]);
      assert a == a[..n] + [a[n]] && b == b[..m] + [b[m]];
    }
  }

  lemma AroundIsStack(css: string, p: nat, blocks: seq<nat>)
    requires p <= |css| && Around(css, p, blocks)
    ensures blocks == Stack(css, p)
  {
    StackIsAround(css, p);
    SortedSame(blocks, Stack(css, p));
  }

  // ----- What the scan finds -----

  /** What `RuleAt` says, with the blocks around it read off the stack. */
  ghost predicate Stacked(css: string, b: nat, r: Span) {
    && Leaf(css, b) && r.prelude == PreludeAt(css, b)
    && r.start == b + 1 && Block(css, b, r.end)
    && r.context == ContextAt(css, b)
  }

  function ContextAt(css: string, p: nat): string
    requires p <= |css|
  {
    Barred(Preludes(css, Stack(css, p)))
  }

  /** All blocks open at `p` are conditional at-rules. */
  ghost predicate AllConditional(css: string, p: nat)
    requires p <= |css|
  {
    forall a :: Encloses(css, a, p) ==> Conditional(PreludeAt(css, a))
  }

  ghost predicate FoundIn(css: string, rules: seq<Span>, i: nat, end: nat) {
    forall r :: r in rules <==> exists b :: i <= b < end && Stacked(css, b, r)
  }

  lemma {:induction false} QuietKeeps(css: string, i: nat, j: nat)
    requires Quiet(css, i, j)
    ensures Stack(css, j) == Stack(css, i) && PreludeStart(css, j) == PreludeStart(css, i)
  {
    hide Opens, Shuts;
    if i < j {
      assert Quiet(css, i, j - 1);
      QuietKeeps(css, i, j - 1);
    }
  }

  lemma QuietHoldsNone(css: string, i: nat, j: nat, end: nat, rules: seq<Span>)
    requires Quiet(css, i, j) && i <= end <= |css| && FoundIn(css, rules, j, end)
    ensures FoundIn(css, rules, i, end)
  {
    hide Block, Level, PreludeAt, ContextAt, Encloses, Shuts;
    forall r
      ensures r in rules <==> exists b :: i <= b < end && Stacked(css, b, r)
    {
      if b :| i <= b < end && Stacked(css, b, r) {
        assert b >= j;
      }
    }
  }

  /** The text around a block's braces. */
  lemma {:induction false} BlockFrame(css: string, b: nat, close: nat)
    requires Opens(css, b) && Close(css, b + 1, 1) == Some(close)
    ensures Block(css, b, close)
    ensures PlaceAt(css, b + 1) == Place(Text, Level(css, b) + 1) && PreludeStart(css, b + 1) == b + 1
    ensures Stack(css, b + 1) == Stack(css, b) + [b]
    ensures PlaceAt(css, close + 1) == Place(Text, Level(css, b)) && PreludeStart(css, close + 1) == close + 1
    ensures Stack(css, close + 1) == Stack(css, b)
  {
    BlockCloses(css, b);
    StackKept(css, b, close);
    StackHeight(css, close);
    StackHeight(css, b);
  }

  /** While a block is open, the stack stands on it. */
  lemma {:induction false} StackKept(css: string, b: nat, p: nat)
    requires p <= |css| && Encloses(css, b, p)
    ensures var n := |Stack(css, b)|; |Stack(css, p)| > n && Stack(css, p)[..n + 1] == Stack(css, b) + [b]
  {
    StackHeight(css, b);
    StackHeight(css, p);
    if b + 1 < p {
      StackKept(css, b, p - 1);
      StackHeight(css, p - 1);
    }
  }

  lemma BarredSnoc(preludes: seq<string>, prelude: string)
    ensures Barred(preludes + [prelude]) == Barred(preludes) + "||" + prelude
  {
    assert (preludes + [prelude])[..|preludes|] == preludes;
  }

  lemma NestedContext(css: string, b: nat)
    requires Opens(css, b)
    ensures ContextAt(css, b + 1) == Nested(ContextAt(css, b), PreludeAt(css, b))
  {
    var s := Stack(css, b);
    assert Stack(css, b + 1) == s + [b];
    hide PreludeAt, Opens, Stack;
    assert Preludes(css, s + [b]) == Preludes(css, s) + [PreludeAt(css, b)];
    BarredSnoc(Preludes(css, s), PreludeAt(css, b));
  }

  // ----- The four names -----

  lemma {:induction false} FirstWordIs(s: string, word: string)
    requires forall k :: 0 <= k < |word| ==> !IsSpace(word[k])
    ensures FirstWord(s) == word <==> Begins(s, word)
  {
    if s != "" && word != "" && !IsSpace(s[0]) {
      FirstWordIs(s[1..], word[1..]);
      hide IsSpace;
      assert word == [word[0]] + word[1..];
      if Begins(s, word) {
        assert Lower(s[..|word|])[0] == word[0];
        assert Lower(s[1..][..|word| - 1]) == Lower(s[..|word|])[1..];
      }
      if LowerChar(s[0]) == word[0] && Begins(s[1..], word[1..]) {
        assert Lower(s[..|word|]) == [LowerChar(s[0])] + Lower(s[1..][..|word| - 1]);
      }
    } else if s != "" && word != "" {
      assert IsSpace(LowerChar(s[0]));
      assert |word| <= |s| ==> Lower(s[..|word|])[0] == LowerChar(s[0]);
    }
  }

  lemma NestsIsConditional(prelude: string)
    ensures Nests(prelude) <==> Conditional(prelude)
    ensures Conditional(prelude) ==> AtRule(prelude)
  {
    hide Begins, FirstWord;
    FirstWordIs(prelude, "@media");
    FirstWordIs(prelude, "@supports");
    FirstWordIs(prelude, "@layer");
    FirstWordIs(prelude, "@container");
    if Conditional(prelude) {
      FirstIsAt(prelude);
    }
  }

  lemma FirstIsAt(prelude: string)
    requires Conditional(prelude)
    ensures AtRule(prelude)
  {
    var n := if Begins(prelude, "@media") then 6 else if Begins(prelude, "@supports") then 9
             else if Begins(prelude, "@layer") then 6 else 10;
    assert |prelude| >= n && Lower(prelude[..n])[0] == '@';
  }

  // ----- The scan finds the rules -----

  /** Where the scan stands: at the top with the level as its depth, or in a block, at its own level. */
  ghost predicate Standing(css: string, i: nat, from: nat, depth: int, end: nat) {
    && from <= i <= |css| && end <= |css| && depth <= 0 && (end == |css| ==> Level(css, i) == depth)
    && (i < end ==>
          && PlaceAt(css, i).part.Text? && from == PreludeStart(css, i)
          && (end < |css| ==> depth == 0 && Level(css, i) > 0 && Close(css, i, 1) == Some(end)))
  }

  /** One character that is no brace, or a brace that opens and closes no block. */
  lemma StandsAfterOne(css: string, i: nat, from: nat, depth: int, end: nat)
    requires Standing(css, i, from, depth, end) && i < end && !CommentAt(css, i) && !(css[i] == '{' && depth == 0)
    ensures Quiet(css, i, i + 1) && Standing(css, i + 1, from, DepthAfter(css[i], depth), end)
  {
  }

  lemma StandsAfterComment(css: string, i: nat, from: nat, depth: int, end: nat)
    requires Standing(css, i, from, depth, end) && i < end && CommentAt(css, i)
    ensures var j := AfterComment(css, i);
            Quiet(css, i, j) && Standing(css, j, from, depth, end)
  {
    hide AfterComment, Opens, Shuts;
    CommentIsQuiet(css, i);
    QuietKeeps(css, i, AfterComment(css, i));
  }

  lemma StandsAtBlock(css: string, i: nat, from: nat, end: nat)
    requires Standing(css, i, from, 0, end) && i < end && !CommentAt(css, i) && css[i] == '{'
    ensures Opens(css, i)
    ensures Close(css, i + 1, 1).Some? ==>
              var close := Close(css, i + 1, 1).value;
              && close < end && Standing(css, i + 1, i + 1, 0, close) && Standing(css, close + 1, close + 1, 0, end)
    ensures Close(css, i + 1, 1).None? ==> end == |css|
  {
    CloseTwice(css, i + 1, 1);
    hide Close;
    if Close(css, i + 1, 1).Some? {
      BlockFrame(css, i, Close(css, i + 1, 1).value);
    }
  }

  lemma FoundConcat(css: string, a: seq<Span>, b: seq<Span>, i: nat, m: nat, end: nat)
    requires i <= m <= end && FoundIn(css, a, i, m) && FoundIn(css, b, m, end)
    ensures FoundIn(css, a + b, i, end)
  {
    hide Stacked;
    forall r
      ensures r in a + b <==> exists p :: i <= p < end && Stacked(css, p, r)
    {
      assert r in a + b <==> r in a || r in b;
      if p :| i <= p < end && Stacked(css, p, r) {
        assert p < m || m <= p;
      }
    }
  }

  /** No rule but the block itself, when it is not a conditional at-rule. */
  lemma LeafFound(css: string, i: nat, close: nat)
    requires Opens(css, i) && Block(css, i, close) && AllConditional(css, i) && !AtRule(PreludeAt(css, i))
    ensures FoundIn(css, [Span(PreludeAt(css, i), i + 1, close, ContextAt(css, i))], i, close + 1)
  {
    hide Level, PreludeAt, ContextAt, Shuts;
    NestsIsConditional(PreludeAt(css, i));
    var leaf := Span(PreludeAt(css, i), i + 1, close, ContextAt(css, i));
    assert Stacked(css, i, leaf);
    forall r, b | i <= b < close + 1 && Stacked(css, b, r)
      ensures r == leaf
    {
      NoLeafWithin(css, i, close, b);
      OneClose(css, i, close, r.end);
    }
  }

  lemma OneClose(css: string, i: nat, a: nat, b: nat)
    requires Block(css, i, a) && Block(css, i, b)
    ensures a == b
  {
    hide Opens;
  }

  lemma NoLeafWithin(css: string, i: nat, close: nat, b: nat)
    requires Opens(css, i) && Block(css, i, close) && !Conditional(PreludeAt(css, i)) && i <= b <= close
    ensures Leaf(css, b) ==> b == i
  {
    hide PreludeAt, Conditional;
    if i < b {
      assert Encloses(css, i, b);
    }
  }

  lemma NothingFound(css: string, i: nat, close: nat)
    requires Opens(css, i) && Block(css, i, close)
    requires AtRule(PreludeAt(css, i)) && !Conditional(PreludeAt(css, i))
    ensures FoundIn(css, [], i, close + 1)
  {
    hide PreludeAt, Conditional, ContextAt, AtRule;
    forall r, b | i <= b < close + 1
      ensures !Stacked(css, b, r)
    {
      NoLeafWithin(css, i, close, b);
    }
  }

  lemma InnerFound(css: string, i: nat, close: nat, inner: seq<Span>)
    requires Opens(css, i) && AtRule(PreludeAt(css, i)) && close < |css| && css[close] == '}'
    requires i < close && FoundIn(css, inner, i + 1, close)
    ensures FoundIn(css, inner, i, close + 1)
  {
    hide PreludeAt, Conditional, ContextAt, AtRule, Level, Block, Encloses;
    forall r
      ensures r in inner <==> exists b :: i <= b < close + 1 && Stacked(css, b, r)
    {
      if b :| i <= b < close + 1 && Stacked(css, b, r) {
        assert i < b < close;
      }
    }
  }

  lemma EnclosedToo(css: string, i: nat)
    requires Opens(css, i) && AllConditional(css, i) && Conditional(PreludeAt(css, i))
    ensures AllConditional(css, i + 1)
  {
    hide PreludeAt, Conditional;
    forall a | Encloses(css, a, i + 1)
      ensures Conditional(PreludeAt(css, a))
    {
      if a != i {
        assert Encloses(css, a, i);
      }
    }
  }

  lemma {:induction false} SameStackSameAround(css: string, i: nat, j: nat)
    requires i <= |css| && j <= |css| && Stack(css, i) == Stack(css, j) && AllConditional(css, i)
    ensures AllConditional(css, j) && ContextAt(css, j) == ContextAt(css, i)
  {
    hide Encloses, Conditional, PreludeAt, Stack;
    StackIsAround(css, i);
    StackIsAround(css, j);
  }

  /** From wherever it stands, the scan finds the rules up to its end, and no others. */
  lemma {:induction false} ScanFinds(css: string, i: nat, from: nat, depth: int, end: nat, context: string)
    requires Standing(css, i, from, depth, end) && Scan(css, i, from, depth, end, context).Some?
    requires i < end ==> AllConditional(css, i) && context == ContextAt(css, i)
    ensures FoundIn(css, Scan(css, i, from, depth, end, context).value, i, end)
    decreases |css| - i, 1
  {
    hide Strip, IsAtRule, Nests, Close, AfterComment, Nested, Scan, CommentAt, AllConditional, ContextAt, Opens, Shuts,
      Standing, FoundIn, PreludeStart, Stack, Conditional, AtRule, PreludeAt;
    if i < end {
      StandsIn(css, i, from, depth, end);
      ScanStep(css, i, from, depth, end, context);
      if CommentAt(css, i) {
        var j := AfterComment(css, i);
        StandsAfterComment(css, i, from, depth, end);
        QuietKeeps(css, i, j);
        SameStackSameAround(css, i, j);
        ScanFinds(css, j, from, depth, end, context);
        QuietHoldsNone(css, i, j, end, Scan(css, j, from, depth, end, context).value);
      } else if css[i] == '{' && depth == 0 {
        StandsAtBlock(css, i, from, end);
        var close := Close(css, i + 1, 1).value;
        BlockFrame(css, i, close);
        SameStackSameAround(css, i, close + 1);
        ScanFinds(css, close + 1, close + 1, 0, end, context);
        BlockFinds(css, from, i, close, context);
        FoundConcat(css, BlockRules(css, from, i, close, context).value,
                    Scan(css, close + 1, close + 1, 0, end, context).value, i, close + 1, end);
      } else {
        StandsAfterOne(css, i, from, depth, end);
        QuietKeeps(css, i, i + 1);
        SameStackSameAround(css, i, i + 1);
        ScanFinds(css, i + 1, from, DepthAfter(css[i], depth), end, context);
        QuietHoldsNone(css, i, i + 1, end, Scan(css, i, from, depth, end, context).value);
      }
    } else {
      NothingThere(css, i, from, depth, end, context);
    }
  }

  lemma StandsIn(css: string, i: nat, from: nat, depth: int, end: nat)
    requires Standing(css, i, from, depth, end) && i < end
    ensures from <= i < end <= |css| && from == PreludeStart(css, i)
  {
  }

  lemma NothingThere(css: string, i: nat, from: nat, depth: int, end: nat, context: string)
    requires Standing(css, i, from, depth, end) && end <= i
    ensures Scan(css, i, from, depth, end, context) == Some([]) && FoundIn(css, [], i, end)
  {
  }

  lemma {:induction false} BlockFinds(css: string, from: nat, i: nat, close: nat, context: string)
    requires Opens(css, i) && Close(css, i + 1, 1) == Some(close) && Block(css, i, close)
    requires from == PreludeStart(css, i) && Standing(css, i + 1, i + 1, 0, close)
    requires AllConditional(css, i) && context == ContextAt(css, i)
    requires BlockRules(css, from, i, close, context).Some?
    ensures FoundIn(css, BlockRules(css, from, i, close, context).value, i, close + 1)
    decreases |css| - i, 0
  {
    hide Strip, Nests, Close, Nested, Scan, AllConditional, ContextAt, Opens, Standing, FoundIn, PreludeStart,
      Conditional, Block;
    var prelude := PreludeAt(css, i);
    NestsIsConditional(prelude);
    if !AtRule(prelude) {
      LeafFound(css, i, close);
    } else if Nests(prelude) {
      EnclosedToo(css, i);
      NestedContext(css, i);
      ScanFinds(css, i + 1, i + 1, 0, close, Nested(context, prelude));
      InnerFound(css, i, close, Scan(css, i + 1, i + 1, 0, close, Nested(context, prelude)).value);
    } else {
      NothingFound(css, i, close);
    }
  }

  /** The scan fails exactly when a block at the top is never closed. */
  lemma {:induction false} ScanAccepts(css: string, i: nat, from: nat, depth: int, end: nat, context: string)
    requires Standing(css, i, from, depth, end)
    ensures Scan(css, i, from, depth, end, context).Some? <==> (end == |css| ==> Level(css, |css|) <= 0)
    decreases |css| - i
  {
    hide Strip, IsAtRule, Nests, Close, AfterComment, Nested, Scan, CommentAt, Opens, Shuts, PreludeStart, Stack,
      PlaceAt;
    if i >= end {
      NothingThere(css, i, from, depth, end, context);
    } else {
      ScanStep(css, i, from, depth, end, context);
      if CommentAt(css, i) {
        StandsAfterComment(css, i, from, depth, end);
        ScanAccepts(css, AfterComment(css, i), from, depth, end, context);
      } else if css[i] == '{' && depth == 0 {
        StandsAtBlock(css, i, from, end);
        BlockCloses(css, i);
        if Close(css, i + 1, 1).Some? {
          var close, prelude := Close(css, i + 1, 1).value, Strip(css[from..i]);
          ScanAccepts(css, close + 1, close + 1, 0, end, context);
          ScanAccepts(css, i + 1, i + 1, 0, close, Nested(context, prelude));
        }
      } else {
        StandsAfterOne(css, i, from, depth, end);
        ScanAccepts(css, i + 1, from, DepthAfter(css[i], depth), end, context);
      }
    }
  }

  lemma StackedIsRule(css: string, b: nat, r: Span)
    ensures Stacked(css, b, r) <==> RuleAt(css, b, r)
  {
    hide Leaf, Block, PreludeAt, Encloses, Stack;
    if Stacked(css, b, r) {
      AcrossLeaf(css, b);
      StackIsAround(css, b);
      assert Around(css, b, Stack(css, b)) && r.context == Barred(Preludes(css, Stack(css, b)));
    }
    if RuleAt(css, b, r) {
      AcrossLeaf(css, b);
      var blocks: seq<nat> :| Around(css, b, blocks) && r.context == Barred(Preludes(css, blocks));
      AroundIsStack(css, b, blocks);
    }
  }

  lemma AcrossLeaf(css: string, b: nat)
    requires Leaf(css, b)
    ensures b < |css|
  {
  }

  /** The scan accepts a stylesheet exactly when no block is left open, and finds exactly its rules: every block that is
      no at-rule with only conditional at-rules around it, in the order of the text, each with its stripped prelude, the
      brace that closes it, and the preludes around it, outermost first, each after two bars. */
  lemma RulesExactly(css: string)
    ensures R.Rules(css).Some? <==> Level(css, |css|) <= 0
    ensures R.Rules(css).Some? ==>
              var rules := R.Rules(css).value;
              && (forall r :: r in rules <==> exists b :: RuleAt(css, b, r))
              && forall k, l :: 0 <= k < l < |rules| ==> rules[k].end < rules[l].start
  {
    hide Scan, Stacked, RuleAt, Ordered, Level;
    assert Standing(css, 0, 0, 0, |css|) by {
      StandsAtStart(css);
    }
    ScanAccepts(css, 0, 0, 0, |css|, "");
    if R.Rules(css).Some? {
      var rules := R.Rules(css).value;
      NothingAround(css);
      ScanFinds(css, 0, 0, 0, |css|, "");
      forall r
        ensures r in rules <==> exists b :: RuleAt(css, b, r)
      {
        if b :| RuleAt(css, b, r) {
          StackedIsRule(css, b, r);
          RuleInText(css, b, r);
        }
        if r in rules {
          var b :| 0 <= b < |css| && Stacked(css, b, r);
          StackedIsRule(css, b, r);
        }
      }
      R.ScanIsOrderedRules(css);
      InOrder(css, rules);
    }
  }

  lemma StandsAtStart(css: string)
    ensures Standing(css, 0, 0, 0, |css|)
  {
  }

  lemma NothingAround(css: string)
    ensures AllConditional(css, 0) && ContextAt(css, 0) == ""
  {
  }

  lemma RuleInText(css: string, b: nat, r: Span)
    requires RuleAt(css, b, r)
    ensures b < |css|
  {
  }

  lemma InOrder(css: string, rules: seq<Span>)
    requires Ordered(css, rules, 0, |css|)
    ensures forall k, l :: 0 <= k < l < |rules| ==> rules[k].end < rules[l].start
  {
    hide Braced;
  }

  // ----- At-rules and groups -----

  /** Two bars before an at-rule's name. */
  predicate BarsAt(s: string, k: nat) {
    k + 2 < |s| && s[k] == '|' && s[k + 1] == '|' && s[k + 2] == '@'
  }

  predicate Unbarred(s: string) {
    forall k :: 0 <= k < |s| ==> !BarsAt(s, k)
  }

  function FirstBars(s: string, from: nat): (n: nat)
    requires from <= |s|
    ensures from <= n <= |s| && (n < |s| ==> BarsAt(s, n)) && forall k :: from <= k < n ==> !BarsAt(s, k)
    decreases |s| - from
  {
    if from == |s| || BarsAt(s, from) then from else FirstBars(s, from + 1)
  }

  /** The pieces of a prelude between such bars. */
  function Cut(s: string): (pieces: seq<string>)
    ensures pieces != []
    decreases |s|
  {
    var n := FirstBars(s, 0);
    if n == |s| then [s] else [s[..n]] + Cut(s[n + 2..])
  }

  function CutAll(preludes: seq<string>): seq<string> {
    if preludes == [] then [] else CutAll(preludes[..|preludes| - 1]) + Cut(preludes[|preludes| - 1])
  }

  lemma {:induction false} BarredConcat(a: seq<string>, b: seq<string>)
    ensures Barred(a + b) == Barred(a) + Barred(b)
  {
    if b == [] {
      assert a + b == a;
    } else {
      var n := |b| - 1;
      BarredConcat(a, b[..n]);
      assert a + b == (a + b[..n]) + [b[n]] && b == b[..n] + [b[n]];
      BarredSnoc(a + b[..n], b[n]);
      BarredSnoc(b[..n], b[n]);
    }
  }

  lemma BarredOne(s: string)
    ensures Barred([s]) == "||" + s
  {
    BarredSnoc([], s);
    assert [] + [s] == [s];
  }

  lemma {:induction false} BarredCut(s: string)
    ensures Barred(Cut(s)) == "||" + s
    decreases |s|
  {
    hide Barred;
    var n := FirstBars(s, 0);
    if n == |s| {
      BarredOne(s);
    } else {
      BarredCut(s[n + 2..]);
      BarredConcat([s[..n]], Cut(s[n + 2..]));
      BarredOne(s[..n]);
      assert s == s[..n] + "||" + s[n + 2..];
    }
  }

  lemma {:induction false} BarredCutAll(preludes: seq<string>)
    ensures Barred(CutAll(preludes)) == Barred(preludes)
  {
    if preludes != [] {
      var n := |preludes| - 1;
      BarredCutAll(preludes[..n]);
      BarredCut(preludes[n]);
      BarredConcat(CutAll(preludes[..n]), Cut(preludes[n]));
    }
  }

  ghost predicate AllPieces(pieces: seq<string>) {
    forall k :: 0 <= k < |pieces| ==> AtRule(pieces[k]) && Unbarred(pieces[k])
  }

  lemma {:induction false} CutIsPieces(s: string)
    requires AtRule(s)
    ensures AllPieces(Cut(s)) && (Unbarred(s) ==> Cut(s) == [s])
    decreases |s|
  {
    var n := FirstBars(s, 0);
    if n < |s| {
      CutIsPieces(s[n + 2..]);
      assert AtRule(s[..n]) && Unbarred(s[..n]) by {
        forall k | 0 <= k < n
          ensures !BarsAt(s[..n], k)
        {
          assert !BarsAt(s, k);
        }
      }
    }
  }

  lemma {:induction false} CutAllIsPieces(preludes: seq<string>)
    requires forall k :: 0 <= k < |preludes| ==> AtRule(preludes[k])
    ensures AllPieces(CutAll(preludes)) && (AllPieces(preludes) ==> CutAll(preludes) == preludes)
  {
    hide AtRule, Unbarred, Cut;
    if preludes != [] {
      var n := |preludes| - 1;
      CutAllIsPieces(preludes[..n]);
      CutIsPieces(preludes[n]);
      assert preludes[..n] + [preludes[n]] == preludes;
    }
  }

  lemma {:induction false} PiecesBarredOnce(a: seq<string>, b: seq<string>)
    requires AllPieces(a) && AllPieces(b) && Barred(a) == Barred(b)
    ensures a == b
  {
    if a != [] && b != [] {
      var n, m := |a| - 1, |b| - 1;
      LastBars(Barred(a[..n]), a[n], Barred(b[..m]), b[m]);
      PiecesBarredOnce(a[..n], b[..m]);
      assert a == a[..n] + [a[n]] && b == b[..m] + [b[m]];
    }
  }

  lemma LastBars(x: string, p: string, y: string, q: string)
    requires AtRule(p) && AtRule(q) && Unbarred(p) && Unbarred(q) && x + "||" + p == y + "||" + q
    ensures x == y && p == q
  {
    hide Unbarred;
    var s := x + "||" + p;
    if |y| > |x| {
      NoLaterBars(x, p, |y|);
    } else if |x| > |y| {
      NoLaterBars(y, q, |x|);
    }
    assert BarsAt(x + "||" + p, |x|) && BarsAt(y + "||" + q, |y|);
    assert |x| == |y|;
    assert s[..|x|] == x && s[..|y|] == y && s[|x| + 2..] == p && s[|y| + 2..] == q;
  }

  lemma NoLaterBars(x: string, p: string, k: nat)
    requires AtRule(p) && Unbarred(p) && k > |x|
    ensures !BarsAt(x + "||" + p, k)
  {
    var s := x + "||" + p;
    if k + 2 < |s| && k >= |x| + 2 {
      assert !BarsAt(p, k - |x| - 2);
    }
  }

  /** Two lists of at-rules are one context if and only if they have the same pieces between bars. Lists without two
      bars before an at-rule's name in them are one context only when they are the same list. */
  lemma ContextsExactly(a: seq<string>, b: seq<string>)
    requires forall k :: 0 <= k < |a| ==> AtRule(a[k])
    requires forall k :: 0 <= k < |b| ==> AtRule(b[k])
    ensures Barred(a) == Barred(b) <==> CutAll(a) == CutAll(b)
    ensures AllPieces(a) && AllPieces(b) ==> (Barred(a) == Barred(b) <==> a == b)
  {
    hide AtRule, AllPieces, Cut, CutAll, Barred;
    BarredCutAll(a);
    BarredCutAll(b);
    CutAllIsPieces(a);
    CutAllIsPieces(b);
    if Barred(a) == Barred(b) {
      PiecesBarredOnce(CutAll(a), CutAll(b));
    }
  }

  /** A block inside a block, and one block with two bars in its prelude. */
  lemma BarredExample()
    ensures Barred(["@media a", "@media b"]) == Barred(["@media a||@media b"])
  {
    BarredOne("@media a");
    BarredSnoc(["@media a"], "@media b");
    BarredOne("@media a||@media b");
    assert ["@media a"] + ["@media b"] == ["@media a", "@media b"];
  }

  /** Two rules of a stylesheet that the script takes for one group stand under at-rules with the same pieces: under the
      same at-rules, unless a prelude has two bars before an at-rule's name in it. */
  lemma GroupsUnderOneContext(norm: string -> string, css: string, k: nat, l: nat, b: nat, b': nat,
                              around: seq<nat>, around': seq<nat>)
    requires F.Accepted(css) && k < |R.Rules(css).value| && l < |R.Rules(css).value|
    requires RuleAt(css, b, R.Rules(css).value[k]) && Around(css, b, around)
    requires RuleAt(css, b', R.Rules(css).value[l]) && Around(css, b', around')
    ensures var sheet := F.SheetOf(norm, css, R.Rules(css).value);
            var r, r' := R.Rules(css).value[k], R.Rules(css).value[l];
            var p, p' := Preludes(css, around), Preludes(css, around');
            && (sheet[k].group == sheet[l].group <==>
                CutAll(p) == CutAll(p') && norm(r.prelude) == norm(r'.prelude))
            && (AllPieces(p) && AllPieces(p') && sheet[k].group == sheet[l].group ==> p == p')
  {
    hide R.Rules, Cut, CutAll, Barred, AllPieces, Block, PreludeAt, Encloses, F.DeclsFrom, Conditional;
    var p, p' := Preludes(css, around), Preludes(css, around');
    ContextOfRule(css, b, R.Rules(css).value[k], around);
    ContextOfRule(css, b', R.Rules(css).value[l], around');
    ContextsExactly(p, p');
  }

  lemma ContextOfRule(css: string, b: nat, r: Span, around: seq<nat>)
    requires RuleAt(css, b, r) && Around(css, b, around)
    ensures r.context == Barred(Preludes(css, around))
    ensures forall k :: 0 <= k < |around| ==>
              Conditional(PreludeAt(css, around[k])) && AtRule(PreludeAt(css, around[k]))
  {
    hide Block, PreludeAt, Encloses, Conditional, Barred, AtRule;
    var blocks: seq<nat> :| Around(css, b, blocks) && r.context == Barred(Preludes(css, blocks));
    AroundIsStack(css, b, blocks);
    AroundIsStack(css, b, around);
    forall k | 0 <= k < |around|
      ensures Conditional(PreludeAt(css, around[k])) && AtRule(PreludeAt(css, around[k]))
    {
      NestsIsConditional(PreludeAt(css, around[k]));
    }
  }
}
