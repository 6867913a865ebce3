/** Stylesheets on which the run does not keep its promise, through the text it writes. */
module CssExamples {
  import opened PythonText
  import opened CssText
  import opened CssRescan
  import opened CssFile
  import opened CssReading
  import opened CssPromise
  import opened Wrappers
  import C = CssCascade
  import M = CssMeaning
  import S = CssShown
  import N = CssSelector
  import X = CssExact

  // ----- One rule, and two -----

  function RuleText(prelude: string, body: string): string {
    prelude + "{" + body + "}"
  }

  /** A text that the scan takes for a selector when a brace follows. */
  predicate Prelude(prelude: string) {
    Reaches(prelude + "{", 0, 0, |prelude|) && !IsAtRule(Strip(prelude))
  }

  lemma QuietPrelude(prelude: string)
    requires forall k :: 0 <= k < |prelude| ==> prelude[k] !in {'{', '}', '/'}
    ensures Reaches(prelude + "{", 0, 0, |prelude|)
  {
    ReachesPlain(prelude + "{", 0, |prelude|);
  }

  function SpanAt(prelude: string, body: string, at: nat): Span {
    Span(Strip(prelude), at + |prelude| + 1, at + |prelude| + 1 + |body|, "")
  }

  lemma {:induction false} ReachesPlain(css: string, i: nat, q: nat)
    requires i <= q < |css| && css[q] == '{' && forall k :: i <= k < q ==> css[k] !in {'{', '}', '/'}
    ensures Reaches(css, i, 0, q)
    decreases q - i
  {
    if i < q {
      ReachesPlain(css, i + 1, q);
    }
  }

  lemma TailParts(tail: string, prelude: string, body: string, rest: string)
    requires tail == RuleText(prelude, body) + rest
    ensures var q, end := |prelude|, |prelude| + |body| + 1;
            && |tail| == end + 1 + |rest| && tail[q] == '{' && tail[end] == '}'
            && (forall k :: 0 <= k < q ==> tail[k] == prelude[k])
            && (forall k :: q < k < end ==> tail[k] == body[k - q - 1])
            && (forall k :: end < k < |tail| ==> tail[k] == rest[k - end - 1])
  {
  }

  lemma SliceIs(css: string, x: nat, y: nat, t: string)
    requires x + |t| == y <= |css| && forall k :: x <= k < y ==> css[k] == t[k - x]
    ensures css[x..y] == t
  {
  }

  /** The rule's text stands at `at`, its brace at `q`, its end at `end`. */
  ghost predicate Stands(css: string, at: nat, q: nat, end: nat, prelude: string, body: string, rest: string) {
    && at <= q < end < |css| && css[at..q] == prelude && css[q] == '{' && css[q + 1..] == body + "}" + rest
    && css[q + 1..end] == body && css[end] == '}' && css[end + 1..] == rest
  }

  lemma RuleStands(css: string, at: nat, q: nat, end: nat, prelude: string, body: string, rest: string)
    requires at <= |css| && css[at..] == RuleText(prelude, body) + rest && q == at + |prelude| && end == q + |body| + 1
    ensures Stands(css, at, q, end, prelude, body, rest)
  {
    var tail := css[at..];
    TailParts(tail, prelude, body, rest);
    hide RuleText;
    assert forall k :: at <= k < |css| ==> css[k] == tail[k - at];
    SliceIs(css, at, q, prelude);
    SliceIs(css, q + 1, end, body);
    SliceIs(css, end + 1, |css|, rest);
    assert css[q + 1..] == css[q + 1..end] + [css[end]] + css[end + 1..];
  }

  /** Where a rule's text stands, its rule is found. */
  lemma RuleSite(css: string, at: nat, q: nat, end: nat, prelude: string, body: string, rest: string)
    requires Stands(css, at, q, end, prelude, body, rest) && end == q + |body| + 1 && Prelude(prelude)
    requires Contained(body) && q == at + |prelude|
    requires at == 0 || css[at - 1] == '}'
    ensures Site(css, at, q, end)
  {
    hide Strip, IsAtRule, Contained, Reaches, Close;
    var head, alone := css[..q + 1], prelude + "{";
    assert head[at..] == css[at..q] + [css[q]] == alone == alone[0..];
    X.ReachesShift(alone, 0, head, at, 0, |prelude|);
    assert head[..q + 1] == css[..q + 1];
    ReachesPrefix(head, css, at, 0, q);
    ContainedCloses(css, q + 1, body, rest);
  }

  lemma OneRule(prelude: string, body: string)
    requires Prelude(prelude) && Contained(body)
    ensures var css := RuleText(prelude, body);
            && Rules(css) == Some([SpanAt(prelude, body, 0)]) && InText(css, [SpanAt(prelude, body, 0)])
            && Views(css, [SpanAt(prelude, body, 0)]) == [Leaf(Strip(prelude), body, "")]
  {
    hide Site, Scan, Strip, Contained, IsAtRule;
    var css := RuleText(prelude, body);
    assert css[0..] == css + "";
    RuleStands(css, 0, |prelude|, |prelude| + |body| + 1, prelude, body, "");
    RuleSite(css, 0, |prelude|, |prelude| + |body| + 1, prelude, body, "");
    SiteScan(css, 0, |prelude|, |prelude| + |body| + 1, |css|, "");
    ScanDone(css, |css|, |css|, 0, |css|, "");
    assert [SpanAt(prelude, body, 0)] + [] == [SpanAt(prelude, body, 0)];
  }

  function TwoText(p: string, b: string, p2: string, b2: string): string {
    RuleText(p, b) + RuleText(p2, b2)
  }

  function TwoSpans(p: string, b: string, p2: string, b2: string): seq<Span> {
    [SpanAt(p, b, 0), SpanAt(p2, b2, |p| + |b| + 2)]
  }

  lemma TwoStand(p: string, b: string, p2: string, b2: string)
    ensures var css, n := TwoText(p, b, p2, b2), |p| + |b| + 2;
            && |css| == n + |p2| + |b2| + 2 && Stands(css, 0, |p|, n - 1, p, b, RuleText(p2, b2))
            && Stands(css, n, n + |p2|, n + |p2| + |b2| + 1, p2, b2, "")
  {
    hide Stands;
    var css, n := TwoText(p, b, p2, b2), |p| + |b| + 2;
    assert css[0..] == css;
    RuleStands(css, 0, |p|, n - 1, p, b, RuleText(p2, b2));
    assert css[n..] == RuleText(p2, b2) + "";
    RuleStands(css, n, n + |p2|, n + |p2| + |b2| + 1, p2, b2, "");
  }

  lemma BothOne(x: Span, rest: seq<Span>)
    ensures Both(Some([x]), Some(rest)) == Some([x] + rest) && [x] + [] == [x]
  {
  }

  lemma TwoFound(css: string, p: string, b: string, p2: string, b2: string)
    requires |css| == |p| + |b| + |p2| + |b2| + 4
    requires var n := |p| + |b| + 2;
             && Site(css, 0, |p|, n - 1) && Site(css, n, n + |p2|, n + |p2| + |b2| + 1)
             && css[0..|p|] == p && css[n..n + |p2|] == p2
    ensures Rules(css) == Some(TwoSpans(p, b, p2, b2))
  {
    hide Site, Scan, Strip, Both;
    var rules, n := TwoSpans(p, b, p2, b2), |p| + |b| + 2;
    SiteScan(css, 0, |p|, n - 1, |css|, "");
    SiteScan(css, n, n + |p2|, n + |p2| + |b2| + 1, |css|, "");
    ScanDone(css, |css|, |css|, 0, |css|, "");
    BothOne(rules[1], []);
    BothOne(rules[0], [rules[1]]);
    assert [rules[0]] + [rules[1]] == rules;
  }

  lemma TwoRules(p: string, b: string, p2: string, b2: string)
    requires Prelude(p) && Contained(b) && Prelude(p2) && Contained(b2)
    ensures var css, rules := TwoText(p, b, p2, b2), TwoSpans(p, b, p2, b2);
            && Rules(css) == Some(rules) && InText(css, rules)
            && Views(css, rules) == [Leaf(Strip(p), b, ""), Leaf(Strip(p2), b2, "")]
  {
    hide Site, Rules, Strip, Contained, IsAtRule, Prelude, TwoText, RuleText;
    var css, n := TwoText(p, b, p2, b2), |p| + |b| + 2;
    TwoStand(p, b, p2, b2);
    RuleSite(css, 0, |p|, n - 1, p, b, RuleText(p2, b2));
    RuleSite(css, n, n + |p2|, n + |p2| + |b2| + 1, p2, b2, "");
    TwoFound(css, p, b, p2, b2);
  }

  // ----- What becomes of two rules with one selector -----

  function TwoSheet(norm: string -> string, p: string, b: string, p2: string, b2: string): C.Sheet {
    [LeafRule(norm, Leaf(Strip(p), b, ""), |p| + 1), LeafRule(norm, Leaf(Strip(p2), b2, ""), |p| + |b| + |p2| + 3)]
  }

  lemma TwoEdits(norm: string -> string, p: string, b: string, p2: string, b2: string)
    requires Prelude(p) && Contained(b) && Prelude(p2) && Contained(b2)
    ensures var css, sheet := TwoText(p, b, p2, b2), TwoSheet(norm, p, b, p2, b2);
            && Accepted(css) && SheetOf(norm, css, Rules(css).value) == sheet
            && Edits(norm, css) == [EditFor(sheet, 0), Keep]
  {
    hide Rules, Strip, LeafRule, Contained, Prelude;
    var css, sheet := TwoText(p, b, p2, b2), TwoSheet(norm, p, b, p2, b2);
    var rules := TwoSpans(p, b, p2, b2);
    TwoRules(p, b, p2, b2);
    assert forall k :: 0 <= k < 2 ==> View(css, rules[k]) == Views(css, rules)[k];
    assert SheetOf(norm, css, rules) == sheet;
    LastIsKept(sheet);
  }

  lemma LastIsKept(sheet: C.Sheet)
    requires |sheet| == 2
    ensures EditFor(sheet, 1) == Keep
  {
    hide JoinTexts;
    M.NothingDead(sheet, 1, sheet[1].decls);
  }

  /** The text written when the first rule is removed, or replaced. */
  lemma TwoOutput(norm: string -> string, p: string, b: string, p2: string, b2: string)
    requires Prelude(p) && Contained(b) && Prelude(p2) && Contained(b2) && Strip(p) <= p
    ensures Accepted(TwoText(p, b, p2, b2))
    ensures var css, sheet := TwoText(p, b, p2, b2), TwoSheet(norm, p, b, p2, b2);
            && (EditFor(sheet, 0).Delete? ==>
                  Output(norm, css) == p[..WalkBack(p, |p| - |Strip(p)|)] + RuleText(p2, b2))
            && (EditFor(sheet, 0).Replace? ==>
                  Output(norm, css) == RuleText(p, EditFor(sheet, 0).body) + RuleText(p2, b2))
  {
    hide Rules, Strip, Contained, Prelude, EditFor, SheetOf, WalkBack, TwoSheet;
    var css, sheet, rules := TwoText(p, b, p2, b2), TwoSheet(norm, p, b, p2, b2), TwoSpans(p, b, p2, b2);
    TwoRules(p, b, p2, b2);
    TwoEdits(norm, p, b, p2, b2);
    EditsSplice(norm, css);
    match EditFor(sheet, 0)
    case Delete => TwoDeleted(p, b, p2, b2);
    case Replace(body) => TwoReplaced(p, b, p2, b2, body);
    case Keep =>
  }

  lemma TwoDeleted(p: string, b: string, p2: string, b2: string)
    requires Strip(p) <= p && Spliceable(TwoText(p, b, p2, b2), TwoSpans(p, b, p2, b2), [Delete, Keep])
    ensures Rebuild(TwoText(p, b, p2, b2), TwoSpans(p, b, p2, b2), [Delete, Keep], 0, 0)
         == p[..WalkBack(p, |p| - |Strip(p)|)] + RuleText(p2, b2)
  {
    hide Strip, WalkBack, RuleText;
    var css, rules, edits := TwoText(p, b, p2, b2), TwoSpans(p, b, p2, b2), [Delete, Keep];
    var lo, n := |p| - |Strip(p)|, |p| + |b| + 2;
    TwoParts(p, b, p2, b2);
    assert Lo(rules[0]) == lo && CutEnd(rules[0], Delete) == n;
    WalkBackPrefix(css, p, lo, |p|);
    var cut := WalkBack(p, lo);
    assert css[..cut] == css[..|p|][..cut] == p[..cut];
    assert Rebuild(css, rules, edits, 1, n) == css[n..];
  }

  lemma TwoReplaced(p: string, b: string, p2: string, b2: string, body: string)
    requires Strip(p) <= p && Spliceable(TwoText(p, b, p2, b2), TwoSpans(p, b, p2, b2), [Replace(body), Keep])
    ensures Rebuild(TwoText(p, b, p2, b2), TwoSpans(p, b, p2, b2), [Replace(body), Keep], 0, 0)
         == RuleText(p, body) + RuleText(p2, b2)
  {
    hide Strip, TwoText;
    var css, rules, edits := TwoText(p, b, p2, b2), TwoSpans(p, b, p2, b2), [Replace(body), Keep];
    var n := |p| + |b| + 2;
    TwoParts(p, b, p2, b2);
    assert CutStart(css, rules[0], Replace(body)) == |p| + 1 && CutEnd(rules[0], Replace(body)) == n - 1;
    assert Rebuild(css, rules, edits, 1, n - 1) == css[n - 1..] == "}" + RuleText(p2, b2);
  }

  lemma TwoParts(p: string, b: string, p2: string, b2: string)
    ensures var css, n := TwoText(p, b, p2, b2), |p| + |b| + 2;
            && n <= |css| && css[..|p|] == p && css[..|p| + 1] == p + "{"
            && css[n - 1..] == "}" + RuleText(p2, b2) && css[n..] == RuleText(p2, b2)
  {
    var css := TwoText(p, b, p2, b2);
    assert css == p + "{" + b + "}" + RuleText(p2, b2);
  }

  // ----- Short declarations -----

  /** A short text with its colon at `n`, without blanks or separators. */
  predicate Word(t: string, n: nat) {
    && 0 < n < |t| < 10 && t[n] == ':' && t[0] != '/'
    && (forall k :: 0 <= k < n ==> t[k] != ':')
    && (forall k :: 0 <= k < |t| ==> !IsSpace(t[k]) && !IsSeparator(t[k]))
  }

  lemma {:induction false} ContainsFits(s: string, needle: string)
    requires Contains(s, needle)
    ensures |needle| <= |s|
  {
    if !(needle <= s) {
      ContainsFits(s[1..], needle);
    }
  }

  lemma {:induction false} FindIs(t: string, n: nat)
    requires n < |t| && t[n] == ':' && forall k :: 0 <= k < n ==> t[k] != ':'
    ensures Find(t, ':') == n
  {
    if n > 0 {
      FindIs(t[1..], n - 1);
    }
  }

  lemma NoBlanksAround(t: string)
    requires forall k :: 0 <= k < |t| ==> !IsSpace(t[k])
    ensures Strip(t) == t
  {
    hide IsSpace;
  }

  lemma WordIsText(t: string, n: nat, at: nat)
    requires Word(t, n)
    ensures IsText(t) && MakeDecl(t, at) == C.Decl(Lower(t[..n]), t, false, at)
  {
    hide IsSpace, Strip, Contains, IsSeparator, Lower;
    FindIs(t, n);
    NoBlanksAround(t);
    NoBlanksAround(t[..n]);
    assert |Lower(t)| < |"!important"|;
    if Contains(Lower(t), "!important") {
      ContainsFits(Lower(t), "!important");
    }
    assert t[n] in t;
    LowerFirst(t[..n]);
    assert "/*"[0] == '/';
  }

  lemma LowerFirst(s: string)
    requires s != "" && s[0] != '/'
    ensures |Lower(s)| == |s| && Lower(s)[0] != '/'
  {
  }

  lemma WordAlone(t: string, n: nat, base: nat)
    requires Word(t, n)
    ensures DeclsFrom(t, 0, base) == [C.Decl(Lower(t[..n]), t, false, base)]
  {
    hide Word, DeclsFrom, MakeDecl, IsText;
    WordIsText(t, n, base);
    assert t[0..|t|] == t;
    FirstDecl(t, 0, t, base);
    NoDecls(t, base);
  }

  lemma DeadFirst(sheet: C.Sheet, prop: string)
    requires |sheet| == 2 && sheet[0].group == sheet[1].group
    requires C.HasNormal(sheet[0].decls, prop) && C.Declares(sheet[1].decls, prop) && C.EndsNormal(sheet[1].decls, prop)
    ensures C.Dead(sheet, 0, prop)
  {
    hide C.HasNormal, C.EndsNormal, C.Declares;
    assert C.Closes(sheet, 1, prop);
  }

  /** When the second rule says the one thing the first does, the first goes. */
  lemma FirstGoes(sheet: C.Sheet, d: C.Decl, d2: C.Decl)
    requires |sheet| == 2 && sheet[0].group == sheet[1].group && sheet[0].decls == [d] && sheet[1].decls == [d2]
    requires d.prop == d2.prop && !d.important && !d2.important
    ensures EditFor(sheet, 0) == Delete
  {
    assert [d2][..0] == [] && [d][..0] == [];
    DeadFirst(sheet, d.prop);
    hide C.Dead;
  }

  lemma {:induction false} ClosePlain(css: string, i: nat, close: nat)
    requires i <= close < |css| && css[close] == '}' && forall k :: i <= k < close ==> css[k] !in {'{', '}', '/'}
    ensures Close(css, i, 1) == Some(close)
    decreases close - i
  {
    if i < close {
      ClosePlain(css, i + 1, close);
    }
  }

  lemma PlainIsContained(body: string)
    requires forall k :: 0 <= k < |body| ==> body[k] !in {'{', '}', '/'}
    ensures Contained(body)
  {
    ClosePlain(body + "}", 0, |body|);
  }

  lemma ClassA()
    ensures Prelude(".a") && Prelude(".a ") && Strip(".a") == ".a" == Strip(".a ") && ".a" <= ".a "
    ensures WalkBack(".a", 0) == 0 && WalkBack(".a ", 1) == 1
  {
    QuietPrelude(".a");
    QuietPrelude(".a ");
    assert ".a "[..2] == ".a";
    assert IsSpace(' ') && !IsSpace('.') && !IsSpace('a');
  }

  predicate PlainWord(t: string, n: nat) {
    Word(t, n) && forall k :: 0 <= k < |t| ==> t[k] !in {'{', '}', '/'}
  }

  /** Two rules of one selector that say one thing: the first goes. */
  lemma RepeatedOutput(norm: string -> string, p: string, t: string, p2: string, t2: string, n: nat)
    requires Prelude(p) && Prelude(p2) && norm(Strip(p)) == norm(Strip(p2)) && Strip(p) <= p
    requires PlainWord(t, n) && PlainWord(t2, n) && Lower(t[..n]) == Lower(t2[..n])
    ensures var css := TwoText(p, t, p2, t2);
            && Accepted(css) && Edits(norm, css) == [Delete, Keep]
            && Output(norm, css) == p[..WalkBack(p, |p| - |Strip(p)|)] + RuleText(p2, t2)
  {
    hide Strip, Prelude, Word, WalkBack, DeclsFrom, Rules, IsSpace, Lower, Contained, RuleText, TwoText, Output, Edits,
      EditFor;
    PlainIsContained(t);
    PlainIsContained(t2);
    WordAlone(t, n, |p| + 1);
    WordAlone(t2, n, |p| + |t| + |p2| + 3);
    var sheet := TwoSheet(norm, p, t, p2, t2);
    FirstGoes(sheet, sheet[0].decls[0], sheet[1].decls[0]);
    TwoEdits(norm, p, t, p2, t2);
    TwoOutput(norm, p, t, p2, t2);
  }

  // ----- What a browser reads -----

  predicate QuietChar(c: char) {
    c !in {'\\', '"', '\'', '(', ')', '[', ']', '/', '{', '}'}
  }

  predicate QuietWord(t: string, n: nat) {
    Word(t, n) && forall k :: 0 <= k < |t| ==> QuietChar(t[k])
  }

  lemma {:induction false} QuietIsClean(t: string, i: nat)
    requires i <= |t| && forall k :: i <= k < |t| ==> QuietChar(t[k])
    ensures Cleaned(t, i, []) == Some(t[i..])
    decreases |t| - i
  {
    if i < |t| {
      QuietIsClean(t, i + 1);
      assert t[i..] == [t[i]] + t[i + 1..];
    }
  }

  function WordDecl(t: string, n: nat): C.Decl
    requires n < |t|
  {
    C.Decl(PropOf(t[..n]), t[n + 1..], false, 0)
  }

  lemma WordText(t: string, n: nat)
    requires Word(t, n)
    ensures ReadText(Strip(t)) == [WordDecl(t, n)]
  {
    hide IsSpace, Strip, IsSeparator, Lower;
    FindIs(t, n);
    NoBlanksAround(t);
    NoBlanksAround(t[..n]);
    NoBlanksAround(t[n + 1..]);
  }

  lemma {:induction false} QuietEnds(t: string, i: nat)
    requires i <= |t| && forall k :: i <= k < |t| ==> QuietChar(t[k]) && t[k] != ';'
    ensures Ends(t, i, []) == End(|t|, [])
    decreases |t| - i
  {
    if i < |t| {
      QuietEnds(t, i + 1);
    }
  }

  lemma WordEnds(t: string, n: nat)
    requires QuietWord(t, n)
    ensures Ends(t, 0, []) == End(|t|, []) && ReadPiece(t) == [WordDecl(t, n)] && t != "" && Flat(t)
  {
    QuietEnds(t, 0);
    QuietIsClean(t, 0);
    WordText(t, n);
    assert t[0..] == t;
    hide Cleaned, ReadText, Strip, Word, WordDecl, Ends;
  }

  lemma WordReads(t: string, n: nat)
    requires QuietWord(t, n)
    ensures Plain(t) && ReadPieces(t, 0) == [WordDecl(t, n)]
  {
    hide QuietWord, WordDecl, ReadPieces, Closed, Flat, Ends, ReadPiece;
    WordEnds(t, n);
    OnePiece(t);
  }

  /** The element that matches one group. */
  function Only(group: C.Group): M.Element {
    map[group := M.Weight(0, 0)]
  }

  lemma OneSays(w: Browser, p: string, b: string)
    requires Prelude(p) && Contained(b)
    ensures Accepted(RuleText(p, b))
    ensures forall e, prop :: Sees(w, RuleText(p, b), e, prop) == S.Computed(e, prop, Says(w, Leaf(Strip(p), b, "")))
  {
    hide Rules, Strip, Contained, Says, Prelude;
    OneRule(p, b);
    SaysOne(w, Leaf(Strip(p), b, ""));
  }

  lemma TwoSay(w: Browser, p: string, b: string, p2: string, b2: string)
    requires Prelude(p) && Contained(b) && Prelude(p2) && Contained(b2) && Plain(b)
    ensures var css := TwoText(p, b, p2, b2);
            && Accepted(css)
            && forall e, prop :: Sees(w, css, e, prop) ==
                                 S.Computed(e, prop, Says(w, Leaf(Strip(p), b, "")) + Says(w, Leaf(Strip(p2), b2, "")))
  {
    hide Rules, Strip, Contained, Says, Prelude, Gapes;
    TwoRules(p, b, p2, b2);
    ClosedIsShut(b, 0);
    var x, y := Leaf(Strip(p), b, ""), Leaf(Strip(p2), b2, "");
    assert [x, y] == [x] + [y];
    SaysConcat(w, [x], [y]);
    SaysOne(w, x);
    SaysOne(w, y);
  }

  lemma WordSays(w: Browser, p: string, t: string, n: nat)
    requires QuietWord(t, n)
    ensures Says(w, Leaf(Strip(p), t, "")) == [M.Item(0, w.home("", Strip(p)), WordDecl(t, n))]
  {
    hide QuietWord, WordDecl, Strip, Plain, ReadPieces;
    WordReads(t, n);
  }

  /** Which of two declarations of one group wins. */
  lemma WinOfTwo(e: M.Element, prop: string, group: C.Group, d: C.Decl, d2: C.Decl)
    requires group in e && !d.important && !d2.important
    ensures var x, y := M.Item(0, group, d), M.Item(0, group, d2);
            M.Win(e, prop, [x, y]) == if d2.prop == prop then Some(y) else if d.prop == prop then Some(x) else None
    ensures M.Win(e, prop, [M.Item(0, group, d)]) == if d.prop == prop then Some(M.Item(0, group, d)) else None
  {
    var x, y := M.Item(0, group, d), M.Item(0, group, d2);
    assert [x, y][1..] == [y] && [y][1..] == [] && [x][1..] == [];
  }

  lemma QuietIsPlain(t: string, n: nat)
    requires QuietWord(t, n)
    ensures PlainWord(t, n)
  {
    hide Word;
  }

  // ----- A selector that does not touch its brace -----

  /** The first of two rules goes, and leaves the dot of its selector to the second: the declaration that was to survive
      is lost to the elements that matched, together with the dead one. */
  lemma StrayTextExample(w: Browser, norm: string -> string)
    requires w.home("", "..a") != w.home("", ".a")
    ensures var css, out := ".a {x:1}.a{x:2}", "..a{x:2}";
            && Accepted(css) && Output(norm, css) == out && Rules(out) == Some([Span("..a", 4, 7, "")]) && Accepted(out)
            && var e := Only(w.home("", ".a"));
               Sees(w, css, e, "x") == Some(C.Decl("x", "2", false, 0)) && Sees(w, out, e, "x") == None
  {
    ClassA();
    StrayText();
    hide Rules, Strip, QuietWord, Prelude, Output, Accepted, Plain, ReadPieces, RuleText, TwoText, WalkBack, Contained;
    QuietIsPlain("x:1", 1);
    QuietIsPlain("x:2", 1);
    RepeatedOutput(norm, ".a ", "x:1", ".a", "x:2", 1);
    StrayRule();
    PlainIsContained("x:1");
    PlainIsContained("x:2");
    WordReads("x:1", 1);
    TwoSay(w, ".a ", "x:1", ".a", "x:2");
    OneSays(w, "..a", "x:2");
    WordSays(w, ".a ", "x:1", 1);
    WordSays(w, ".a", "x:2", 1);
    WordSays(w, "..a", "x:2", 1);
    StraySeen(w);
  }

  lemma StrayText()
    ensures QuietWord("x:1", 1) && QuietWord("x:2", 1) && Lower("x:1"[..1]) == Lower("x:2"[..1])
    ensures ".a {x:1}.a{x:2}" == TwoText(".a ", "x:1", ".a", "x:2")
    ensures ".a "[..1] + RuleText(".a", "x:2") == "..a{x:2}" == RuleText("..a", "x:2")
  {
    assert "x:1"[..1] == "x:2"[..1];
  }

  lemma StraySeen(w: Browser)
    requires w.home("", "..a") != w.home("", ".a")
    ensures var g, e := w.home("", ".a"), Only(w.home("", ".a"));
            && S.Computed(e, "x", [M.Item(0, g, WordDecl("x:1", 1))] + [M.Item(0, g, WordDecl("x:2", 1))])
               == Some(C.Decl("x", "2", false, 0))
            && S.Computed(e, "x", [M.Item(0, w.home("", "..a"), WordDecl("x:2", 1))]) == None
  {
    var g, e := w.home("", ".a"), Only(w.home("", ".a"));
    assert "x:2"[..1] == "x" && "x:2"[2..] == "2" && Lower("x") == "x";
    WinOfTwo(e, "x", g, WordDecl("x:1", 1), WordDecl("x:2", 1));
    var x, y := M.Item(0, g, WordDecl("x:1", 1)), M.Item(0, g, WordDecl("x:2", 1));
    assert [x] + [y] == [x, y];
  }

  lemma StrayRule()
    ensures Strip("..a") == "..a" && Prelude("..a") && Rules("..a{x:2}") == Some([Span("..a", 4, 7, "")])
  {
    PlainIsContained("x:2");
    assert Strip("..a") == "..a" by {
      assert !IsSpace('.') && !IsSpace('a');
    }
    assert "..a{x:2}" == RuleText("..a", "x:2");
    QuietPrelude("..a");
    OneRule("..a", "x:2");
  }

  // ----- Custom properties that differ in case -----

  /** The script takes `--A` and `--a` for one property; to a browser they are two, and one is lost. */
  lemma CustomPropertyExample(w: Browser, norm: string -> string)
    ensures var css, out := ".a{--A:1}.a{--a:2}", ".a{--a:2}";
            && Accepted(css) && Output(norm, css) == out && Accepted(out)
            && var e := Only(w.home("", ".a"));
               Sees(w, css, e, "--A") == Some(C.Decl("--A", "1", false, 0)) && Sees(w, out, e, "--A") == None
  {
    ClassA();
    CustomText();
    hide Rules, Strip, QuietWord, Prelude, Output, Accepted, Plain, ReadPieces, RuleText, TwoText, WalkBack, Contained;
    QuietIsPlain("--A:1", 3);
    QuietIsPlain("--a:2", 3);
    RepeatedOutput(norm, ".a", "--A:1", ".a", "--a:2", 3);
    PlainIsContained("--A:1");
    PlainIsContained("--a:2");
    WordReads("--A:1", 3);
    TwoSay(w, ".a", "--A:1", ".a", "--a:2");
    OneSays(w, ".a", "--a:2");
    WordSays(w, ".a", "--A:1", 3);
    WordSays(w, ".a", "--a:2", 3);
    CustomSeen(w.home("", ".a"));
  }

  lemma CustomText()
    ensures QuietWord("--A:1", 3) && QuietWord("--a:2", 3) && Lower("--A:1"[..3]) == Lower("--a:2"[..3])
    ensures ".a{--A:1}.a{--a:2}" == TwoText(".a", "--A:1", ".a", "--a:2")
    ensures ".a"[..0] + RuleText(".a", "--a:2") == ".a{--a:2}" == RuleText(".a", "--a:2")
  {
    CustomSheet();
    CustomLower();
    hide TwoText, RuleText, Lower;
  }

  lemma CustomLower()
    ensures Lower("--A:1"[..3]) == Lower("--a:2"[..3])
  {
    assert "--A:1"[..3] == "--A" && "--a:2"[..3] == "--a";
    assert Lower("--A") == "--a" == Lower("--a");
  }

  lemma CustomSheet()
    ensures ".a{--A:1}.a{--a:2}" == TwoText(".a", "--A:1", ".a", "--a:2")
    ensures ".a"[..0] + RuleText(".a", "--a:2") == ".a{--a:2}" == RuleText(".a", "--a:2")
  {
  }

  lemma CustomSeen(g: C.Group)
    ensures S.Computed(Only(g), "--A", [M.Item(0, g, WordDecl("--A:1", 3))] + [M.Item(0, g, WordDecl("--a:2", 3))])
         == Some(C.Decl("--A", "1", false, 0))
    ensures S.Computed(Only(g), "--A", [M.Item(0, g, WordDecl("--a:2", 3))]) == None
  {
    var x, y := M.Item(0, g, WordDecl("--A:1", 3)), M.Item(0, g, WordDecl("--a:2", 3));
    assert "--A:1"[..3] == "--A" && "--A:1"[4..] == "1" && "--a:2"[..3] == "--a";
    assert "--A"[2] != "--a"[2];
    WinOfTwo(Only(g), "--A", g, x.decl, y.decl);
    WinOfTwo(Only(g), "--A", g, y.decl, y.decl);
    assert [x] + [y] == [x, y];
  }

  // ----- A declaration behind a comment -----

  const NOTED := "/**/b:1;c:1"

  lemma NotedText()
    ensures |NOTED| == 11 && NOTED[0..7] == "/**/b:1" && NOTED[7] == ';' && NOTED[8..11] == "c:1"
    ensures forall k :: 0 <= k < 7 ==> !IsSeparator(NOTED[k])
    ensures Word("c:1", 1) && QuietWord("c:1", 1) && Lower("c:1"[..1]) == "c"
  {
    assert "c:1"[..1] == "c";
  }

  lemma SemicolonSeparates()
    ensures IsSeparator(';')
  {
  }

  lemma DeclsAt(body: string, i: nat, j: nat, base: nat)
    requires i < |body| && Run(body, i) == j
    ensures DeclsFrom(body, i, base) == DeclAt(body, i, j, base) + DeclsFrom(body, Next(body, j), base)
  {
    hide DeclAt, Run;
  }

  lemma NoDeclAt(body: string, i: nat, j: nat, base: nat)
    requires i <= j <= |body| && !IsDecl(Strip(body[i..j]))
    ensures DeclAt(body, i, j, base) == []
  {
    hide IsDecl, Strip;
  }

  /** A piece that is no declaration to the script, and then one that is. */
  lemma SkipsFirst(body: string, i: nat, j: nat, t: string, n: nat, base: nat)
    requires i <= j && j + 1 + |t| == |body| && body[j] == ';' && forall k :: i <= k < j ==> !IsSeparator(body[k])
    requires !IsDecl(Strip(body[i..j])) && body[j + 1..|body|] == t && Word(t, n)
    ensures DeclsFrom(body, i, base) == [C.Decl(Lower(t[..n]), t, false, base + j + 1)]
  {
    hide Word, IsText, MakeDecl, IsDecl, Strip, IsSeparator, Lower, DeclsFrom, DeclAt, Run;
    SemicolonSeparates();
    WordIsText(t, n, base + j + 1);
    RunIs(body, i, j);
    DeclsAt(body, i, j, base);
    NoDeclAt(body, i, j, base);
    FirstDecl(body, j + 1, t, base);
    NoDecls(body, base);
  }

  lemma NotedCloses()
    ensures Contained(NOTED)
  {
    var text := NOTED + "}";
    assert CommentAt(text, 0) && AfterComment(text, 0) == 4;
    ClosePlain(text, 4, 11);
  }

  /** What the script makes of a body with a comment before its first declaration: it overlooks that one. */
  lemma NotedDecls(base: nat)
    ensures Contained(NOTED) && DeclsFrom(NOTED, 0, base) == [C.Decl("c", "c:1", false, base + 8)]
  {
    hide Contained, DeclsFrom, Word, QuietWord, IsDecl, Strip, IsSeparator, Lower;
    NotedCloses();
    NotedText();
    NotedIsSkipped();
    SkipsFirst(NOTED, 0, 7, "c:1", 1, base);
  }

  lemma NotedIsSkipped()
    ensures Strip("/**/b:1") == "/**/b:1" && !IsDecl("/**/b:1")
  {
    var text := "/**/b:1";
    NotedProp();
    NoBlanksAround(text);
    FindIs(text, 5);
    hide Strip, Find, Lower, Contains;
    NoBlanksAround("/**/b");
  }

  lemma NotedProp()
    ensures "/**/b:1"[..5] == "/**/b" && "/*" <= Lower("/**/b")
    ensures forall k :: 0 <= k < 7 ==> !IsSpace("/**/b:1"[k])
    ensures forall k :: 0 <= k < 5 ==> !IsSpace("/**/b"[k])
  {
    var prop := Lower("/**/b");
    assert prop[0] == '/' && prop[1] == '*';
  }

  /** A piece that leaves nothing open, and then a short declaration. */
  lemma ReadsBoth(t: string, t2: string, n: nat)
    requires t != "" && Ends(t, 0, []) == End(|t|, []) && Flat(t) && QuietWord(t2, n)
    ensures Plain(t + (";" + t2)) && ReadPieces(t + (";" + t2), 0) == ReadPiece(t) + [WordDecl(t2, n)]
  {
    hide QuietWord, WordDecl, ReadPieces, Closed, Ends, ReadPiece;
    WordReads(t2, n);
    FirstPiece(t, t2);
  }

  lemma NotedReads()
    ensures Plain(NOTED) && ReadPieces(NOTED, 0) == [WordDecl("b:1", 1), WordDecl("c:1", 1)]
  {
    hide Cleaned, QuietWord, Word, WordDecl, ReadPiece, ReadPieces, Plain, IsSeparator, Flat, Ends;
    NotedText();
    NotedPiece();
    NotedParts();
    ReadsBoth("/**/b:1", "c:1", 1);
    assert [WordDecl("b:1", 1)] + [WordDecl("c:1", 1)] == [WordDecl("b:1", 1), WordDecl("c:1", 1)];
  }

  lemma NotedParts()
    ensures NOTED == "/**/b:1" + (";" + "c:1") && Flat("/**/b:1")
  {
  }

  lemma CommentThen(piece: string, k: nat, t: string)
    requires CommentAt(piece, 0) && CommentClose(piece, 2) + 2 == k <= |piece| && piece[k..] == t
    requires forall j :: 0 <= j < |t| ==> QuietChar(t[j]) && t[j] != ';'
    ensures Cleaned(piece, 0, []) == Some(t) && Ends(piece, 0, []) == End(|piece|, [])
  {
    forall j | k <= j < |piece|
      ensures QuietChar(piece[j]) && piece[j] != ';'
    {
      assert piece[j] == t[j - k];
    }
    hide QuietChar, CommentClose;
    QuietIsClean(piece, k);
    QuietEnds(piece, k);
  }

  lemma NotedPiece()
    ensures Ends("/**/b:1", 0, []) == End(7, []) && ReadPiece("/**/b:1") == [WordDecl("b:1", 1)]
  {
    var text := "/**/b:1";
    assert CommentAt(text, 0) && CommentClose(text, 2) == 2 && text[4..] == "b:1" && QuietWord("b:1", 1);
    hide Cleaned, ReadText, Strip, WordDecl, Word, Ends;
    CommentThen(text, 4, "b:1");
    WordText("b:1", 1);
  }

  /** The script overlooks a declaration with a comment before it, finds everything else in the rule dead, and removes
      the rule with the declaration it overlooked. */
  lemma CommentExample(w: Browser, norm: string -> string)
    ensures var css, out := ".a{/**/b:1;c:1}.a{c:2}", ".a{c:2}";
            && Accepted(css) && Output(norm, css) == out && Accepted(out)
            && var e := Only(w.home("", ".a"));
               Sees(w, css, e, "b") == Some(C.Decl("b", "1", false, 0)) && Sees(w, out, e, "b") == None
  {
    ClassA();
    CommentText();
    NotedDecls(3);
    NotedReads();
    hide Rules, Strip, QuietWord, Prelude, Output, Accepted, DeclsFrom, Contained, Plain, ReadPieces, WalkBack;
    QuietIsPlain("c:2", 1);
    PlainIsContained("c:2");
    WordAlone("c:2", 1, 18);
    var sheet := TwoSheet(norm, ".a", NOTED, ".a", "c:2");
    FirstGoes(sheet, sheet[0].decls[0], sheet[1].decls[0]);
    TwoEdits(norm, ".a", NOTED, ".a", "c:2");
    TwoOutput(norm, ".a", NOTED, ".a", "c:2");
    TwoSay(w, ".a", NOTED, ".a", "c:2");
    OneSays(w, ".a", "c:2");
    WordSays(w, ".a", "c:2", 1);
    CommentSeen(w.home("", ".a"));
  }

  lemma CommentText()
    ensures QuietWord("c:2", 1) && "c:2"[..1] == "c" && Lower("c") == "c"
    ensures ".a{/**/b:1;c:1}.a{c:2}" == TwoText(".a", NOTED, ".a", "c:2")
    ensures ".a"[..0] + RuleText(".a", "c:2") == ".a{c:2}" == RuleText(".a", "c:2")
  {
  }

  lemma CommentSeen(g: C.Group)
    ensures var b, c := M.Item(0, g, WordDecl("b:1", 1)), M.Item(0, g, WordDecl("c:1", 1));
            var c2 := M.Item(0, g, WordDecl("c:2", 1));
            && S.Computed(Only(g), "b", M.RuleItems(0, g, [b.decl, c.decl]) + [c2]) == Some(C.Decl("b", "1", false, 0))
            && S.Computed(Only(g), "b", [c2]) == None
  {
    var b, c := M.Item(0, g, WordDecl("b:1", 1)), M.Item(0, g, WordDecl("c:1", 1));
    var c2 := M.Item(0, g, WordDecl("c:2", 1));
    assert "b:1"[..1] == "b" && "b:1"[2..] == "1" && "c:1"[..1] == "c" && "c:2"[..1] == "c" && Lower("b") == "b";
    assert Lower("c") == "c";
    assert M.RuleItems(0, g, [b.decl, c.decl]) + [c2] == [b, c, c2];
    assert [b, c, c2][1..] == [c, c2];
    WinOfTwo(Only(g), "b", g, c.decl, c2.decl);
    WinOfTwo(Only(g), "b", g, c2.decl, c2.decl);
  }

  // ----- A semicolon in brackets -----

  const BRACKETED := "b:u(d;e);c:1"

  lemma BracketedText()
    ensures |BRACKETED| == 12 && BRACKETED[0..5] == "b:u(d" && BRACKETED[5] == ';' && BRACKETED[6..8] == "e)"
    ensures BRACKETED[8] == ';'
    ensures BRACKETED[9..12] == "c:1" && forall k :: 6 <= k < 8 ==> !IsSeparator(BRACKETED[k])
    ensures Word("b:u(d", 1) && Word("c:1", 1) && Lower("b:u(d"[..1]) == "b" && Lower("c:1"[..1]) == "c"
    ensures !IsDecl(Strip("e)"))
  {
    assert "b:u(d"[..1] == "b" && "c:1"[..1] == "c";
    assert Strip("e)") == "e)" by {
      assert !IsSpace('e') && !IsSpace(')');
    }
  }

  lemma BracketedCloses()
    ensures Contained(BRACKETED)
  {
    PlainIsContained(BRACKETED);
  }

  lemma BracketedDecls(base: nat)
    ensures Contained(BRACKETED)
    ensures DeclsFrom(BRACKETED, 0, base) == [C.Decl("b", "b:u(d", false, base), C.Decl("c", "c:1", false, base + 9)]
  {
    hide Contained, DeclsFrom, Word, IsDecl, Strip, IsSeparator, Lower, IsText, MakeDecl, BRACKETED;
    BracketedText();
    BracketedCloses();
    WordIsText("b:u(d", 1, base);
    FirstDecl(BRACKETED, 0, "b:u(d", base);
    SkipsFirst(BRACKETED, 6, 8, "c:1", 1, base);
  }

  lemma BracketedValue()
    ensures Ends("b:u(d;e)", 0, []) == End(8, []) && ReadPiece("b:u(d;e)") == [WordDecl("b:u(d;e)", 1)]
    ensures Flat("b:u(d;e)") && BRACKETED == "b:u(d;e)" + (";" + "c:1") && QuietWord("c:1", 1)
  {
    hide Cleaned, Ends, ReadText, WordDecl, Strip;
    BracketedClean();
    BracketedWord();
    BracketedParts();
  }

  lemma BracketedParts()
    ensures Flat("b:u(d;e)") && BRACKETED == "b:u(d;e)" + (";" + "c:1") && QuietWord("c:1", 1)
    ensures "b:u(d;e)"[0..] == "b:u(d;e)"
  {
  }

  lemma BracketedClean()
    ensures Cleaned("b:u(d;e)", 0, []) == Some("b:u(d;e)") && Ends("b:u(d;e)", 0, []) == End(8, [])
  {
    hide Cleaned, Ends, Opened, Stuck;
    var t := "b:u(d;e)";
    TextEnds(t, []);
    Bracketing();
    CleanStep(t, 7, [')'], []);
    CleanStep(t, 6, [')'], [')']);
    CleanStep(t, 5, [')'], [')']);
    CleanStep(t, 4, [')'], [')']);
    CleanStep(t, 3, [], [')']);
    CleanStep(t, 2, [], []);
    CleanStep(t, 1, [], []);
    CleanStep(t, 0, [], []);
    assert t[0..] == t;
  }

  /** How the characters of the example open and close. */
  lemma Bracketing()
    ensures Opened(')', [')']) == [] && !Stuck(')', [')']) && Opened('(', []) == [')'] && !Stuck('(', [])
    ensures forall c :: c in {'b', ':', 'u', 'd', ';', 'e'} ==>
              Opened(c, []) == [] && Opened(c, [')']) == [')'] && !Stuck(c, []) && !Stuck(c, [')'])
  {
    assert [')'][..0] == [] && [] + [')'] == [')'];
  }

  lemma TextEnds(t: string, open: seq<char>)
    ensures Ends(t, |t|, open) == End(|t|, open) && t[|t|..] == ""
    ensures Cleaned(t, |t|, open) == if open == [] then Some("") else None
  {
  }

  /** One character that neither escapes nor opens a comment nor ends anything. */
  lemma CleanStep(t: string, i: nat, open: seq<char>, next: seq<char>)
    requires i < |t| && t[i] != '\\' && t[i] != '/' && (t[i] == ';' ==> open != []) && !Stuck(t[i], open)
    requires Opened(t[i], open) == next
    ensures Cleaned(t, i + 1, next) == Some(t[i + 1..]) ==> Cleaned(t, i, open) == Some(t[i..])
    ensures Cleaned(t, i + 1, next) == None ==> Cleaned(t, i, open) == None
    ensures Ends(t, i, open) == Ends(t, i + 1, next)
  {
    assert t[i..] == [t[i]] + t[i + 1..];
  }

  lemma BracketedValueText()
    ensures "b:u(d;e)"[..1] == "b" && "b:u(d;e)"[2..] == "u(d;e)"
  {
  }

  lemma BracketedWord()
    ensures ReadText(Strip("b:u(d;e)")) == [WordDecl("b:u(d;e)", 1)]
  {
    var t := "b:u(d;e)";
    NoBlanksAround(t);
    FindIs(t, 1);
    BracketedValueText();
    NoBlanksAround("b");
    NoBlanksAround("u(d;e)");
    hide Strip, Find, Lower;
  }

  lemma BracketedReads()
    ensures Plain(BRACKETED) && ReadPieces(BRACKETED, 0) == [WordDecl("b:u(d;e)", 1), WordDecl("c:1", 1)]
    ensures BRACKETED != "" && Ends(BRACKETED, 0, []) == End(8, []) && BRACKETED[0..8] == "b:u(d;e)"
  {
    hide QuietWord, WordDecl, ReadPiece, ReadPieces, Plain, Flat, Ends;
    BracketedValue();
    ReadsBoth("b:u(d;e)", "c:1", 1);
    BracketedFirst();
    assert [WordDecl("b:u(d;e)", 1)] + [WordDecl("c:1", 1)] == [WordDecl("b:u(d;e)", 1), WordDecl("c:1", 1)];
  }

  lemma BracketedFirst()
    ensures BRACKETED != "" && Ends(BRACKETED, 0, []) == End(8, []) && BRACKETED[0..8] == "b:u(d;e)"
  {
    var t := "b:u(d;e)";
    BracketedClean();
    assert BRACKETED[..8] == t == t[..8] && BRACKETED[8] == ';';
    hide Ends;
    EndsWithin(t, BRACKETED, 0, []);
  }

  lemma OpenBracket()
    ensures Flat("b:u(d") && Swallows("b:u(d") && ReadPieces("b:u(d", 0) == []
  {
    hide Cleaned, Ends, Opened, Stuck;
    var t := "b:u(d";
    TextEnds(t, [')']);
    Bracketing();
    CleanStep(t, 4, [')'], [')']);
    CleanStep(t, 3, [], [')']);
    CleanStep(t, 2, [], []);
    CleanStep(t, 1, [], []);
    CleanStep(t, 0, [], []);
    assert t[0..5] == t;
  }

  /** Two rules, of which the first leaves a bracket open. */
  lemma OpenSays(w: Browser, p: string, b: string, p2: string, b2: string)
    requires Prelude(p) && Contained(b) && Prelude(p2) && Contained(b2) && Swallows(b)
    ensures var css := TwoText(p, b, p2, b2);
            && Accepted(css)
            && forall e, prop :: Sees(w, css, e, prop) == S.Computed(e, prop, Says(w, Leaf(Strip(p), b, "")))
  {
    hide Rules, Strip, Contained, Says, Prelude, Swallows;
    TwoRules(p, b, p2, b2);
    var x, y := Leaf(Strip(p), b, ""), Leaf(Strip(p2), b2, "");
    assert Says(w, x) + [] == Says(w, x);
  }

  /** A semicolon inside brackets ends a declaration for the script, not for a browser. When the script rewrites the
      rule, the rest of the value is gone, and the bracket stays open: the declaration is lost, and every one after
      it. */
  lemma BracketExample(w: Browser, norm: string -> string)
    ensures var css, out := ".a{b:u(d;e);c:1}.a{c:2}", ".a{b:u(d}.a{c:2}";
            && Accepted(css) && Output(norm, css) == out && Accepted(out) && !AllMended(norm, css)
            && var e := Only(w.home("", ".a"));
               && Sees(w, css, e, "b") == Some(C.Decl("b", "u(d;e)", false, 0)) && Sees(w, out, e, "b") == None
               && Sees(w, css, e, "c") == Some(C.Decl("c", "2", false, 0)) && Sees(w, out, e, "c") == None
  {
    hide Rules, Strip, QuietWord, Prelude, Output, DeclsFrom, Contained, WalkBack, Plain, Accepted, RuleText, TwoText,
      TwoSpans, AllMended, BRACKETED, ReadPieces, Swallows, EditFor, Ends, Flat;
    ClassA();
    BracketTexts();
    BracketedDecls(3);
    BracketedReads();
    OpenBracket();
    QuietIsPlain("c:2", 1);
    PlainIsContained("c:2");
    PlainIsContained("b:u(d");
    WordAlone("c:2", 1, 19);
    var sheet := TwoSheet(norm, ".a", BRACKETED, ".a", "c:2");
    FirstShrinks(sheet, sheet[0].decls[0], sheet[0].decls[1], sheet[1].decls[0]);
    TwoOutput(norm, ".a", BRACKETED, ".a", "c:2");
    BracketedIsTorn(norm, sheet);
    TearsFirst(norm, ".a", BRACKETED, ".a", "c:2");
    TwoSay(w, ".a", BRACKETED, ".a", "c:2");
    OpenSays(w, ".a", "b:u(d", ".a", "c:2");
    WordSays(w, ".a", "c:2", 1);
    BracketSeen(w.home("", ".a"));
  }

  lemma BracketTexts()
    ensures ".a{b:u(d;e);c:1}.a{c:2}" == TwoText(".a", BRACKETED, ".a", "c:2")
    ensures ".a{b:u(d}.a{c:2}" == RuleText(".a", "b:u(d") + RuleText(".a", "c:2") == TwoText(".a", "b:u(d", ".a", "c:2")
    ensures QuietWord("c:2", 1) && Lower("c:2"[..1]) == "c" && |BRACKETED| == 12
  {
    assert "c:2"[..1] == "c";
  }

  lemma BracketSeen(g: C.Group)
    ensures var b, c, c2 := WordDecl("b:u(d;e)", 1), WordDecl("c:1", 1), M.Item(0, g, WordDecl("c:2", 1));
            var all := M.RuleItems(0, g, [b, c]) + [c2];
            && S.Computed(Only(g), "b", all) == Some(C.Decl("b", "u(d;e)", false, 0))
            && S.Computed(Only(g), "c", all) == Some(C.Decl("c", "2", false, 0))
            && S.Computed(Only(g), "b", M.RuleItems(0, g, [])) == None
            && None == S.Computed(Only(g), "c", M.RuleItems(0, g, []))
  {
    var b, c := M.Item(0, g, WordDecl("b:u(d;e)", 1)), M.Item(0, g, WordDecl("c:1", 1));
    var c2 := M.Item(0, g, WordDecl("c:2", 1));
    BracketWords();
    assert M.RuleItems(0, g, [b.decl, c.decl]) + [c2] == [b, c, c2];
    assert [b, c, c2][1..] == [c, c2];
    WinOfTwo(Only(g), "b", g, c.decl, c2.decl);
    WinOfTwo(Only(g), "c", g, c.decl, c2.decl);
  }

  lemma BracketWords()
    ensures WordDecl("b:u(d;e)", 1) == C.Decl("b", "u(d;e)", false, 0) && WordDecl("c:1", 1).prop == "c"
    ensures WordDecl("c:2", 1) == C.Decl("c", "2", false, 0)
  {
    assert "b:u(d;e)"[..1] == "b" && "b:u(d;e)"[2..] == "u(d;e)" && "c:1"[..1] == "c" && "c:2"[..1] == "c";
    assert "c:2"[2..] == "2" && Lower("b") == "b" && Lower("c") == "c";
  }

  /** Of the first declaration the script keeps the part before the semicolon. */
  lemma BracketedIsTorn(norm: string -> string, sheet: C.Sheet)
    requires sheet == TwoSheet(norm, ".a", BRACKETED, ".a", "c:2") && !C.Dead(sheet, 0, "b")
    ensures Torn(sheet, 0, "b:u(d;e)")
  {
    hide DeclsFrom, C.Dead, Strip, Lower;
    TornDecls();
    var kept := KeptOf(sheet, 0, "b:u(d;e)");
    var d := C.Decl("b", "b:u(d", false, 0);
    assert [d][..0] == [];
    assert kept == [d];
    NoBlanks();
  }

  lemma NoBlanks()
    ensures Strip("b:u(d;e)") == "b:u(d;e)" != "b:u(d"
  {
    NoBlanksAround("b:u(d;e)");
    assert |"b:u(d;e)"| != |"b:u(d"|;
  }

  lemma TornText()
    ensures var t := "b:u(d;e)";
            && t[0..5] == "b:u(d" && t[5] == ';' && t[6..8] == "e)" && !IsSeparator(t[6]) && !IsSeparator(t[7])
  {
  }

  lemma TornDecls()
    ensures DeclsFrom("b:u(d;e)", 0, 0) == [C.Decl("b", "b:u(d", false, 0)]
  {
    hide Word, IsDecl, Strip, IsSeparator, Lower, IsText, MakeDecl, Run, BRACKETED, DeclsFrom, DeclAt;
    var t := "b:u(d;e)";
    BracketedText();
    TornText();
    RunIs(t, 6, 8);
    WordIsText("b:u(d", 1, 0);
    FirstDecl(t, 0, "b:u(d", 0);
    DeclsAt(t, 6, 8, 0);
    NoDeclAt(t, 6, 8, 0);
    NoDecls(t, 0);
  }

  lemma TearsFirst(norm: string -> string, p: string, b: string, p2: string, b2: string)
    requires Prelude(p) && Contained(b) && Prelude(p2) && Contained(b2) && b != "" && Ends(b, 0, []).End?
    requires EditFor(TwoSheet(norm, p, b, p2, b2), 0).Replace?
    requires Torn(TwoSheet(norm, p, b, p2, b2), 0, b[0..Ends(b, 0, []).at])
    ensures Accepted(TwoText(p, b, p2, b2)) && !AllMended(norm, TwoText(p, b, p2, b2))
  {
    hide Rules, Strip, Prelude, Contained, Plain, EditFor, TwoText, TwoSheet, Edits, Torn, Ends, Swallows;
    var css := TwoText(p, b, p2, b2);
    TwoEdits(norm, p, b, p2, b2);
    TwoRules(p, b, p2, b2);
    var rules := Rules(css).value;
    assert View(css, rules[0]) == Views(css, rules)[0];
  }

  /** When the second rule says one of the two things the first does, the first keeps the other. */
  lemma FirstShrinks(sheet: C.Sheet, d: C.Decl, d2: C.Decl, d3: C.Decl)
    requires |sheet| == 2 && sheet[0].group == sheet[1].group && sheet[0].decls == [d, d2] && sheet[1].decls == [d3]
    requires d.prop != d2.prop && d2.prop == d3.prop && !d2.important && !d3.important
    ensures EditFor(sheet, 0) == Replace(d.text) && !C.Dead(sheet, 0, d.prop)
  {
    assert [d3][..0] == [] && [d, d2][..1] == [d] && [d][..0] == [];
    DeadFirst(sheet, d2.prop);
    assert !C.Dead(sheet, 0, d.prop) by {
      assert !C.Declares(sheet[1].decls, d.prop);
    }
    hide C.Dead;
    assert M.KeptDecls(sheet, 0, [d]) == [d];
  }

  // ----- Two selectors taken for one -----

  /** The first rule goes although the second does not select every `c`. */
  lemma SelectorExample(w: Browser)
    requires w.home("", "x:is(a,b),c") != w.home("", "x:is(a,c,b)")
    ensures var css, out := "x:is(a,b),c{p:1}x:is(a,c,b){p:2}", "x:is(a,c,b){p:2}";
            && Accepted(css) && Output(N.Normalize, css) == out && Accepted(out)
            && var e := Only(w.home("", "x:is(a,b),c"));
               Sees(w, css, e, "p") == Some(C.Decl("p", "1", false, 0)) && Sees(w, out, e, "p") == None
  {
    var a, b := "x:is(a,b),c", "x:is(a,c,b)";
    SelectorText();
    N.BracketedCommaExample();
    hide Rules, Strip, QuietWord, Prelude, Output, Accepted, RuleText, TwoText, N.Normalize, WalkBack, Plain,
      ReadPieces, Contained;
    QuietIsPlain("p:1", 1);
    QuietIsPlain("p:2", 1);
    RepeatedOutput(N.Normalize, a, "p:1", b, "p:2", 1);
    PlainIsContained("p:1");
    PlainIsContained("p:2");
    WordReads("p:1", 1);
    TwoSay(w, a, "p:1", b, "p:2");
    OneSays(w, b, "p:2");
    WordSays(w, a, "p:1", 1);
    WordSays(w, b, "p:2", 1);
    SelectorSeen(w.home("", a), w.home("", b));
  }

  lemma SelectorText()
    ensures var a, b := "x:is(a,b),c", "x:is(a,c,b)";
            && Prelude(a) && Prelude(b) && Strip(a) == a && Strip(b) == b && WalkBack(a, 0) == 0
            && "x:is(a,b),c{p:1}x:is(a,c,b){p:2}" == TwoText(a, "p:1", b, "p:2")
            && a[..0] + RuleText(b, "p:2") == "x:is(a,c,b){p:2}" == RuleText(b, "p:2")
    ensures QuietWord("p:1", 1) && QuietWord("p:2", 1) && Lower("p:1"[..1]) == Lower("p:2"[..1])
  {
    SelectorStrips();
    SelectorSheet();
    QuietPrelude("x:is(a,b),c");
    QuietPrelude("x:is(a,c,b)");
    hide Strip, TwoText, RuleText;
    assert "p:1"[..1] == "p:2"[..1];
  }

  lemma SelectorStrips()
    ensures Strip("x:is(a,b),c") == "x:is(a,b),c" && Strip("x:is(a,c,b)") == "x:is(a,c,b)"
  {
    NoBlanksAround("x:is(a,b),c");
    NoBlanksAround("x:is(a,c,b)");
  }

  lemma SelectorSheet()
    ensures var a, b := "x:is(a,b),c", "x:is(a,c,b)";
            && "x:is(a,b),c{p:1}x:is(a,c,b){p:2}" == TwoText(a, "p:1", b, "p:2")
            && a[..0] + RuleText(b, "p:2") == "x:is(a,c,b){p:2}" == RuleText(b, "p:2")
  {
  }

  lemma SelectorSeen(g: C.Group, g2: C.Group)
    requires g != g2
    ensures S.Computed(Only(g), "p", [M.Item(0, g, WordDecl("p:1", 1))] + [M.Item(0, g2, WordDecl("p:2", 1))])
         == Some(C.Decl("p", "1", false, 0))
    ensures S.Computed(Only(g), "p", [M.Item(0, g2, WordDecl("p:2", 1))]) == None
  {
    var x, y := M.Item(0, g, WordDecl("p:1", 1)), M.Item(0, g2, WordDecl("p:2", 1));
    assert "p:1"[..1] == "p" && "p:1"[2..] == "1" && Lower("p") == "p";
    assert [x] + [y] == [x, y] && [x, y][1..] == [y] && [y][1..] == [];
  }

  // ----- Importance with a blank in it -----

  const MARKED := "b:1! important"

  lemma {:induction false} NeverBegins(s: string, needle: string)
    requires needle != "" && forall k :: 0 <= k < |s| && s[k] == needle[0] ==> !(needle <= s[k..])
    ensures !Contains(s, needle)
  {
    if s != "" {
      forall k | 0 <= k < |s[1..]| && s[1..][k] == needle[0]
        ensures !(needle <= s[1..][k..])
      {
        assert s[1..][k] == s[k + 1] && s[1..][k..] == s[k + 1..];
      }
      NeverBegins(s[1..], needle);
      assert s[0..] == s;
    }
  }

  lemma MarkedText()
    ensures |MARKED| == 14 && MARKED[1] == ':' && MARKED[0] != ':' && MARKED[..1] == "b"
    ensures MARKED[2..] == "1! important"
    ensures Lower(MARKED) == MARKED && (forall k :: 0 <= k < 14 ==> !IsSeparator(MARKED[k]) && QuietChar(MARKED[k]))
    ensures !IsSpace(MARKED[0]) && !IsSpace(MARKED[13]) && !IsSpace('b') && Lower("b") == "b"
    ensures forall k :: 0 <= k < 14 && MARKED[k] == '!' ==> k == 3
  {
  }

  lemma MarkedIsNormal()
    ensures !Contains(MARKED, "!important")
  {
    MarkedText();
    assert MARKED[3..][1] == ' ' && "!important"[1] == 'i' && "!important"[0] == '!';
    NeverBegins(MARKED, "!important");
  }

  lemma StripNothing(s: string)
    requires s != "" && !IsSpace(s[0]) && !IsSpace(s[|s| - 1])
    ensures Strip(s) == s
  {
  }

  /** To the script the declaration is a normal one. */
  lemma MarkedDecls(base: nat)
    ensures Contained(MARKED) && DeclsFrom(MARKED, 0, base) == [C.Decl("b", MARKED, false, base)]
  {
    hide Strip, Find, Contains, Lower, IsSeparator, QuietChar, IsSpace, DeclsFrom, Contained, MARKED;
    MarkedText();
    MarkedIsNormal();
    StripNothing(MARKED);
    StripNothing("b");
    FindIs(MARKED, 1);
    MarkedCloses();
    assert MARKED[1] in MARKED && !("/*" <= "b");
    assert MARKED[0..0 + 14] == MARKED;
    FirstDecl(MARKED, 0, MARKED, base);
    NoDecls(MARKED, base);
  }

  lemma MarkedCloses()
    ensures Contained(MARKED)
  {
    PlainIsContained(MARKED);
  }

  lemma MarkedValue()
    ensures Strip("1! important") == "1! important" && EndsImportant("1! important") && Bare("1! important") == "1"
  {
    var value := "1! important";
    assert !IsSpace('1') && !IsSpace('t') && !IsSpace('!') && IsSpace(' ');
    StripNothing(value);
    assert value[3..] == "important" && Lower("important") == "important";
    assert value[..3] == "1! " && "1! "[..2] == "1!";
    StripNothing("1!");
    assert Strip("1! ") == "1!";
    assert "1!"[..1] == "1";
    StripNothing("1");
  }

  /** To a browser it is important. */
  lemma MarkedReads()
    ensures Plain(MARKED) && ReadPieces(MARKED, 0) == [C.Decl("b", "1", true, 0)]
  {
    hide Strip, Find, Lower, IsSpace, MARKED, EndsImportant, Bare, Cleaned, Ends, ReadPieces, Closed;
    MarkedText();
    StripNothing(MARKED);
    StripNothing("b");
    FindIs(MARKED, 1);
    MarkedValue();
    QuietIsClean(MARKED, 0);
    QuietEnds(MARKED, 0);
    assert MARKED[0..] == MARKED;
    assert !("--" <= "b");
    OnePiece(MARKED);
  }

  /** CSS allows a blank between the mark and its word. The script then takes an important declaration for a normal one,
      and removes it for a normal one that could never have won. */
  lemma ImportanceExample(w: Browser, norm: string -> string)
    ensures var css, out := ".a{b:1! important}.a{b:2}", ".a{b:2}";
            && Accepted(css) && Output(norm, css) == out && Accepted(out)
            && var e := Only(w.home("", ".a"));
               && Sees(w, css, e, "b") == Some(C.Decl("b", "1", true, 0))
               && Sees(w, out, e, "b") == Some(C.Decl("b", "2", false, 0))
  {
    hide Rules, Strip, QuietWord, Prelude, Output, Accepted, DeclsFrom, Contained, Plain, ReadPieces, WalkBack,
      RuleText, TwoText, MARKED, Edits, EditFor;
    ClassA();
    ImportanceText();
    MarkedDecls(3);
    MarkedReads();
    QuietIsPlain("b:2", 1);
    PlainIsContained("b:2");
    WordAlone("b:2", 1, 21);
    var sheet := TwoSheet(norm, ".a", MARKED, ".a", "b:2");
    FirstGoes(sheet, sheet[0].decls[0], sheet[1].decls[0]);
    TwoEdits(norm, ".a", MARKED, ".a", "b:2");
    TwoOutput(norm, ".a", MARKED, ".a", "b:2");
    TwoSay(w, ".a", MARKED, ".a", "b:2");
    OneSays(w, ".a", "b:2");
    WordSays(w, ".a", "b:2", 1);
    ImportanceSeen(w.home("", ".a"));
  }

  lemma ImportanceWord()
    ensures QuietWord("b:2", 1) && Lower("b:2"[..1]) == "b"
  {
    assert "b:2"[..1] == "b";
  }

  lemma ImportanceText()
    ensures QuietWord("b:2", 1) && Lower("b:2"[..1]) == "b" && |MARKED| == 14
    ensures ".a{b:1! important}.a{b:2}" == TwoText(".a", MARKED, ".a", "b:2")
    ensures ".a"[..0] + RuleText(".a", "b:2") == ".a{b:2}" == RuleText(".a", "b:2")
  {
    ImportanceWord();
    hide QuietWord, Lower;
  }

  lemma ImportanceSeen(g: C.Group)
    ensures var d := C.Decl("b", "1", true, 0);
            && S.Computed(Only(g), "b", M.RuleItems(0, g, [d]) + [M.Item(0, g, WordDecl("b:2", 1))]) == Some(d)
            && S.Computed(Only(g), "b", [M.Item(0, g, WordDecl("b:2", 1))]) == Some(C.Decl("b", "2", false, 0))
  {
    var x, y := M.Item(0, g, C.Decl("b", "1", true, 0)), M.Item(0, g, WordDecl("b:2", 1));
    assert "b:2"[..1] == "b" && "b:2"[2..] == "2" && Lower("b") == "b";
    assert M.RuleItems(0, g, [x.decl]) + [y] == [x, y];
    assert [x, y][1..] == [y] && [y][1..] == [];
  }

  // ----- Remains that open a comment -----

  /** A prelude that begins with a closed comment. */
  lemma CommentedPrelude(p: string, k: nat)
    requires CommentAt(p + "{", 0) && AfterComment(p + "{", 0) == k <= |p|
    requires forall j :: k <= j < |p| ==> p[j] !in {'{', '}', '/'}
    ensures Reaches(p + "{", 0, 0, |p|)
  {
    ReachesPlain(p + "{", k, |p|);
  }

  const TWICE_BLANK := "/*c*/a,b  "
  const REVERSED := "b,/*c*/a"
  const REMAINS := "/*b,/*c*/a"

  lemma RemainsPreludes()
    ensures Prelude(TWICE_BLANK) && Prelude(REVERSED) && Prelude(REMAINS)
    ensures Strip(TWICE_BLANK) == "/*c*/a,b" <= TWICE_BLANK && Strip(REVERSED) == REVERSED && Strip(REMAINS) == REMAINS
  {
    RemainsStrips();
    hide Strip;
    CommentsClose();
    CommentedPrelude(TWICE_BLANK, 5);
    CommentedPrelude(REMAINS, 9);
    ReversedPrelude();
  }

  lemma CommentsClose()
    ensures CommentAt(TWICE_BLANK + "{", 0) && AfterComment(TWICE_BLANK + "{", 0) == 5
    ensures CommentAt(REMAINS + "{", 0) && AfterComment(REMAINS + "{", 0) == 9
  {
    var a, b := TWICE_BLANK + "{", REMAINS + "{";
    assert CommentClose(a, 3) == 3;
    assert CommentClose(b, 7) == 7;
    assert CommentClose(b, 6) == 7;
    assert CommentClose(b, 5) == 7;
    assert CommentClose(b, 4) == 7;
    assert CommentClose(b, 3) == 7;
  }

  lemma ReversedPrelude()
    ensures Reaches(REVERSED + "{", 0, 0, 8)
  {
    var t := REVERSED + "{";
    assert CommentClose(t, 5) == 5;
    assert CommentAt(t, 2) && AfterComment(t, 2) == 7;
    ReachesPlain(t, 7, 8);
  }

  lemma RemainsStrips()
    ensures Strip(TWICE_BLANK) == "/*c*/a,b" <= TWICE_BLANK && Strip(REVERSED) == REVERSED && Strip(REMAINS) == REMAINS
    ensures WalkBack(TWICE_BLANK, 2) == 2
  {
    NoBlanksAround(REVERSED);
    NoBlanksAround(REMAINS);
    NoBlanksAround("/*c*/a,b");
    assert TWICE_BLANK[..9] == "/*c*/a,b " && "/*c*/a,b "[..8] == "/*c*/a,b" && TWICE_BLANK[..8] == "/*c*/a,b";
    assert IsSpace(' ') && !IsSpace('/');
  }

  /** Two blanks before the brace leave the two characters that open the comment at the head of the selector. The
      comment then runs to the next end of one, and takes the first part of the next selector with it. */
  lemma CommentRemainsExample(w: Browser)
    requires w.home("", REMAINS) != w.home("", REVERSED)
    ensures var css, out := "/*c*/a,b  {x:1}b,/*c*/a{x:2}", "/*b,/*c*/a{x:2}";
            && Accepted(css) && Output(N.Normalize, css) == out && Accepted(out)
            && var e := Only(w.home("", REVERSED));
               Sees(w, css, e, "x") == Some(C.Decl("x", "2", false, 0)) && Sees(w, out, e, "x") == None
  {
    hide Rules, Strip, QuietWord, Prelude, Output, Accepted, RuleText, TwoText, N.Normalize, WalkBack, Plain,
      ReadPieces, Contained, REMAINS, REVERSED, TWICE_BLANK;
    RemainsPreludes();
    RemainsStrips();
    RemainsText();
    StrayText();
    N.ReorderedExample();
    QuietIsPlain("x:1", 1);
    QuietIsPlain("x:2", 1);
    RepeatedOutput(N.Normalize, TWICE_BLANK, "x:1", REVERSED, "x:2", 1);
    PlainIsContained("x:1");
    PlainIsContained("x:2");
    WordReads("x:1", 1);
    TwoSay(w, TWICE_BLANK, "x:1", REVERSED, "x:2");
    OneSays(w, REMAINS, "x:2");
    WordSays(w, TWICE_BLANK, "x:1", 1);
    WordSays(w, REVERSED, "x:2", 1);
    WordSays(w, REMAINS, "x:2", 1);
    RemainsSeen(w.home("", "/*c*/a,b"), w.home("", REVERSED), w.home("", REMAINS));
  }

  lemma RemainsText()
    ensures "/*c*/a,b  {x:1}b,/*c*/a{x:2}" == TwoText(TWICE_BLANK, "x:1", REVERSED, "x:2")
    ensures |TWICE_BLANK| == 10 && |"/*c*/a,b"| == 8 && REVERSED == "b,/*c*/a"
    ensures TWICE_BLANK[..2] + RuleText(REVERSED, "x:2") == "/*b,/*c*/a{x:2}" == RuleText(REMAINS, "x:2")
  {
  }

  lemma RemainsSeen(g: C.Group, g2: C.Group, g3: C.Group)
    requires g3 != g2
    ensures S.Computed(Only(g2), "x", [M.Item(0, g, WordDecl("x:1", 1))] + [M.Item(0, g2, WordDecl("x:2", 1))])
         == Some(C.Decl("x", "2", false, 0))
    ensures S.Computed(Only(g2), "x", [M.Item(0, g3, WordDecl("x:2", 1))]) == None
  {
    var x, y := M.Item(0, g, WordDecl("x:1", 1)), M.Item(0, g2, WordDecl("x:2", 1));
    assert "x:1"[..1] == "x" && "x:2"[..1] == "x" && "x:2"[2..] == "2" && Lower("x") == "x";
    assert [x] + [y] == [x, y] && [x, y][1..] == [y] && [y][1..] == [];
    assert M.Win(Only(g2), "x", [y]) == Some(y);
    assert M.Win(Only(g2), "x", [x, y]) == Some(y);
  }
}
