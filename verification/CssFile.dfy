/** The whole run on a stylesheet's text: declarations parsed from rule bodies, the edits chosen, and what the
    rewritten file says when it is read again. */
module CssFile {
  import opened PythonText
  import opened CssText
  import opened CssRescan
  import opened Wrappers
  import C = CssCascade
  import M = CssMeaning
  import S = CssShown
  import X = CssExact

  // ----- Declarations -----

  predicate IsSeparator(c: char) {
    c in {';', '{', '}'}
  }

  /** The end of the run without separators that starts at `i`. */
  function Run(body: string, i: nat): (j: nat)
    requires i <= |body|
    ensures i <= j <= |body| && (j < |body| ==> IsSeparator(body[j]))
    ensures forall k :: i <= k < j ==> !IsSeparator(body[k])
    decreases |body| - i
  {
    if i == |body| || IsSeparator(body[i]) then i else Run(body, i + 1)
  }

  function Prop(text: string): string {
    Lower(Strip(text[..Find(text, ':')]))
  }

  /** Neither blank, nor without a colon, nor without a property, nor led by a comment. */
  predicate IsDecl(text: string) {
    text != "" && ':' in text && Prop(text) != "" && !("/*" <= Prop(text))
  }

  function MakeDecl(text: string, at: nat): C.Decl {
    C.Decl(Prop(text), text, Contains(Lower(text), "!important"), at)
  }

  /** The declaration in the run from `i` to `j`, if it is one; a run that ends at a brace is none. */
  function DeclAt(body: string, i: nat, j: nat, base: nat): seq<C.Decl>
    requires i <= j <= |body|
  {
    var text := Strip(body[i..j]);
    if IsDecl(text) && (j == |body| || body[j] == ';') then [MakeDecl(text, base + i)] else []
  }

  function Next(body: string, j: nat): nat {
    if j >= |body| then |body| else j + 1
  }

  /** The declarations of a body from `i` on; `base` is where the body starts. */
  function DeclsFrom(body: string, i: nat, base: nat): seq<C.Decl>
    requires i <= |body|
    decreases |body| - i
  {
    if i == |body| then []
    else
      var j := Run(body, i);
      DeclAt(body, i, j, base) + DeclsFrom(body, Next(body, j), base)
  }

  /** `parse_decls`. */
  method ParseDecls(body: string, base: nat) returns (decls: seq<C.Decl>)
    ensures decls == DeclsFrom(body, 0, base)
  {
    hide Strip, Prop, Contains, Run, DeclsFrom;
    decls := [];
    var i := 0;
    NoDecls(body, base);
    while i < |body|
      invariant 0 <= i <= |body| && decls + DeclsFrom(body, i, base) == DeclsFrom(body, 0, base)
      decreases |body| - i
    {
      var j := Run(body, i);
      DeclsStep(decls, body, i, base);
      var text := Strip(body[i..j]);
      if text != "" && (j == |body| || body[j] == ';') && ':' in text {
        var prop := Prop(text);
        if prop != "" && !("/*" <= prop) {
          decls := decls + [C.Decl(prop, text, Contains(Lower(text), "!important"), base + i)];
        }
      }
      i := Next(body, j);
    }
  }

  lemma DeclsStep(before: seq<C.Decl>, body: string, i: nat, base: nat)
    requires i < |body|
    ensures var j := Run(body, i);
            && before + DeclsFrom(body, i, base)
               == (before + DeclAt(body, i, j, base)) + DeclsFrom(body, Next(body, j), base)
            && before + [] == before
  {
    hide DeclAt;
  }

  // ----- Printing and parsing again -----

  /** What a declaration's text is: stripped, without separators, and a declaration. */
  predicate IsText(text: string) {
    text == Strip(text) && IsDecl(text) && forall k :: 0 <= k < |text| ==> !IsSeparator(text[k])
  }

  predicate WellMade(d: C.Decl) {
    IsText(d.text) && d == MakeDecl(d.text, d.at)
  }

  lemma StripKeepsOut(s: string)
    requires forall k :: 0 <= k < |s| ==> !IsSeparator(s[k])
    ensures forall k :: 0 <= k < |Strip(s)| ==> !IsSeparator(Strip(s)[k])
  {
    hide Strip, IsSeparator;
    forall k | 0 <= k < |Strip(s)|
      ensures !IsSeparator(Strip(s)[k])
    {
      StripWithin(s, Strip(s)[k]);
    }
  }

  lemma {:induction false} ParsedIsWellMade(body: string, i: nat, base: nat)
    requires i <= |body|
    ensures forall k :: 0 <= k < |DeclsFrom(body, i, base)| ==> WellMade(DeclsFrom(body, i, base)[k])
    decreases |body| - i
  {
    hide Strip, IsDecl, Contains, Run, Prop, IsSeparator, Lower;
    if i < |body| {
      var j := Run(body, i);
      StripTwice(body[i..j]);
      StripKeepsOut(body[i..j]);
      ParsedIsWellMade(body, Next(body, j), base);
    }
  }

  /** `';'.join(kept)`. */
  function JoinTexts(decls: seq<C.Decl>): string {
    if decls == [] then ""
    else if |decls| == 1 then decls[0].text
    else decls[0].text + (";" + JoinTexts(decls[1..]))
  }

  function Erase(d: C.Decl): C.Decl {
    d.(at := 0)
  }

  function EraseAll(decls: seq<C.Decl>): (out: seq<C.Decl>)
    ensures |out| == |decls|
  {
    seq(|decls|, k requires 0 <= k < |decls| => Erase(decls[k]))
  }

  lemma {:induction false} RunIs(body: string, i: nat, j: nat)
    requires i <= j <= |body| && (j < |body| ==> IsSeparator(body[j]))
    requires forall k :: i <= k < j ==> !IsSeparator(body[k])
    ensures Run(body, i) == j
    decreases j - i
  {
    hide IsSeparator;
    if i < j {
      RunIs(body, i + 1, j);
    }
  }

  /** A body that starts with a declaration's text and then ends or has a semicolon. */
  lemma FirstDecl(body: string, i: nat, text: string, base: nat)
    requires i + |text| <= |body| && IsText(text) && body[i..i + |text|] == text
    requires i + |text| < |body| ==> body[i + |text|] == ';'
    ensures DeclsFrom(body, i, base) == [MakeDecl(text, base + i)] + DeclsFrom(body, Next(body, i + |text|), base)
  {
    hide Strip, IsDecl, Contains, Run, Prop;
    assert text != "" by {
      TextIsNotEmpty(text);
    }
    forall k | i <= k < i + |text|
      ensures !IsSeparator(body[k])
    {
      assert body[i..i + |text|][k - i] == body[k];
    }
    RunIs(body, i, i + |text|);
  }

  lemma TextIsNotEmpty(text: string)
    requires IsText(text)
    ensures text != ""
  {
  }

  lemma EraseFirst(d: C.Decl, rest: seq<C.Decl>)
    ensures EraseAll([d] + rest) == [Erase(d)] + EraseAll(rest)
  {
    hide Erase;
  }

  /** Joined texts begin with the first, and go on with the others joined. */
  lemma JoinStarts(decls: seq<C.Decl>, body: string, i: nat)
    requires i <= |body| && decls != [] && body[i..] == JoinTexts(decls)
    ensures var text := decls[0].text;
            && i + |text| <= |body| && body[i..i + |text|] == text && (i + |text| < |body| ==> body[i + |text|] == ';')
            && body[Next(body, i + |text|)..] == JoinTexts(decls[1..])
  {
    var text := decls[0].text;
    var rest := if |decls| == 1 then "" else ";" + JoinTexts(decls[1..]);
    hide JoinTexts;
    assert body[i..] == text + rest by {
      JoinStep(decls);
    }
    assert body[i..i + |text|] == body[i..][..|text|];
    assert body[i + |text|..] == body[i..][|text|..] == rest;
    if rest == "" {
      JoinNothing(decls);
    } else {
      assert body[i + |text|] == body[i + |text|..][0];
      assert body[i + |text| + 1..] == body[i + |text|..][1..];
    }
  }

  lemma JoinStep(decls: seq<C.Decl>)
    requires decls != []
    ensures JoinTexts(decls) == decls[0].text + if |decls| == 1 then "" else ";" + JoinTexts(decls[1..])
  {
    assert decls[0].text + "" == decls[0].text;
  }

  lemma JoinEmpty()
    ensures JoinTexts([]) == ""
  {
  }

  lemma JoinNothing(decls: seq<C.Decl>)
    requires |decls| == 1
    ensures JoinTexts(decls[1..]) == ""
  {
  }

  /** Parsing the joined texts gives the declarations back. */
  lemma {:induction false} JoinParses(decls: seq<C.Decl>, body: string, i: nat, base: nat)
    requires i <= |body| && body[i..] == JoinTexts(decls) && forall k :: 0 <= k < |decls| ==> WellMade(decls[k])
    ensures EraseAll(DeclsFrom(body, i, base)) == EraseAll(decls)
    decreases |decls|
  {
    hide Strip, IsDecl, Contains, Prop, IsText, DeclsFrom, EraseAll, Lower, JoinTexts;
    if decls == [] {
      JoinEmpty();
      NoDecls(body, base);
    } else {
      var text := decls[0].text;
      JoinStarts(decls, body, i);
      FirstDecl(body, i, text, base);
      assert decls == [decls[0]] + decls[1..];
      EraseFirst(decls[0], decls[1..]);
      var next := Next(body, i + |text|);
      JoinParses(decls[1..], body, next, base);
      EraseFirst(MakeDecl(text, base + i), DeclsFrom(body, next, base));
    }
  }

  lemma NoDecls(body: string, base: nat)
    ensures DeclsFrom(body, |body|, base) == []
  {
  }

  lemma {:induction false} BaseIsErased(body: string, i: nat, base: nat, base2: nat)
    requires i <= |body|
    ensures EraseAll(DeclsFrom(body, i, base)) == EraseAll(DeclsFrom(body, i, base2))
    decreases |body| - i
  {
    hide Strip, IsDecl, Contains, Prop, Lower, Run;
    if i < |body| {
      var j := Run(body, i);
      BaseIsErased(body, Next(body, j), base, base2);
      EraseConcat(DeclAt(body, i, j, base), DeclsFrom(body, Next(body, j), base));
      EraseConcat(DeclAt(body, i, j, base2), DeclsFrom(body, Next(body, j), base2));
    }
  }

  lemma EraseConcat(a: seq<C.Decl>, b: seq<C.Decl>)
    ensures EraseAll(a + b) == EraseAll(a) + EraseAll(b)
  {
    hide Erase;
  }

  // ----- Sheets -----

  /** The rule that a leaf is; `norm` is the normalisation of selectors. */
  function LeafRule(norm: string -> string, leaf: Leaf, base: nat): C.Rule {
    C.Rule(C.Group(leaf.context, norm(leaf.prelude)), DeclsFrom(leaf.body, 0, base))
  }

  function SheetOf(norm: string -> string, css: string, rules: seq<Span>): (sheet: C.Sheet)
    requires InText(css, rules)
    ensures |sheet| == |rules|
  {
    seq(|rules|, k requires 0 <= k < |rules| => LeafRule(norm, View(css, rules[k]), rules[k].start))
  }

  function EraseRule(rule: C.Rule): C.Rule {
    C.Rule(rule.group, EraseAll(rule.decls))
  }

  /** The sheet without offsets. */
  function Erased(sheet: C.Sheet): (out: C.Sheet)
    ensures |out| == |sheet|
  {
    seq(|sheet|, k requires 0 <= k < |sheet| => EraseRule(sheet[k]))
  }

  function LeafRules(norm: string -> string, leaves: seq<Leaf>): (out: C.Sheet)
    ensures |out| == |leaves|
  {
    seq(|leaves|, k requires 0 <= k < |leaves| => EraseRule(LeafRule(norm, leaves[k], 0)))
  }

  /** Without offsets, a sheet is read off its leaves. */
  lemma ErasedIsLeafRules(norm: string -> string, css: string, rules: seq<Span>)
    requires InText(css, rules)
    ensures Erased(SheetOf(norm, css, rules)) == LeafRules(norm, Views(css, rules))
  {
    hide DeclsFrom, EraseAll;
    forall k | 0 <= k < |rules|
      ensures Erased(SheetOf(norm, css, rules))[k] == LeafRules(norm, Views(css, rules))[k]
    {
      BaseIsErased(View(css, rules[k]).body, 0, rules[k].start, 0);
    }
  }

  // ----- The edits -----

  /** What `main` does to rule `i`: nothing unless something in it is dead, then the texts kept, or removal. */
  function EditFor(sheet: C.Sheet, i: nat): Edit
    requires i < |sheet|
  {
    var kept := M.KeptDecls(sheet, i, sheet[i].decls);
    if |kept| == |sheet[i].decls| then Keep else if kept == [] then Delete else Replace(JoinTexts(kept))
  }

  function EditsFor(sheet: C.Sheet): (edits: seq<Edit>)
    ensures |edits| == |sheet|
  {
    seq(|sheet|, i requires 0 <= i < |sheet| => EditFor(sheet, i))
  }

  lemma {:induction false} KeptIsSame(sheet: C.Sheet, i: nat, decls: seq<C.Decl>)
    ensures |M.KeptDecls(sheet, i, decls)| == |decls| ==> M.KeptDecls(sheet, i, decls) == decls
    ensures forall d :: d in M.KeptDecls(sheet, i, decls) ==> d in decls
  {
    hide C.Dead;
    if decls != [] {
      KeptIsSame(sheet, i, decls[..|decls| - 1]);
      assert decls == decls[..|decls| - 1] + [decls[|decls| - 1]];
    }
  }

  lemma KeptIsWellMade(sheet: C.Sheet, i: nat, decls: seq<C.Decl>)
    requires forall k :: 0 <= k < |decls| ==> WellMade(decls[k])
    ensures forall k :: 0 <= k < |M.KeptDecls(sheet, i, decls)| ==> WellMade(M.KeptDecls(sheet, i, decls)[k])
  {
    hide WellMade, M.KeptDecls;
    KeptIsSame(sheet, i, decls);
    forall k | 0 <= k < |M.KeptDecls(sheet, i, decls)|
      ensures WellMade(M.KeptDecls(sheet, i, decls)[k])
    {
      assert M.KeptDecls(sheet, i, decls)[k] in decls;
    }
  }

  /** What rule `i` becomes. */
  function RuleAfter(sheet: C.Sheet, i: nat): seq<C.Rule>
    requires i < |sheet|
  {
    if M.Survives(sheet, i) then [C.Rule(sheet[i].group, M.KeptDecls(sheet, i, sheet[i].decls))] else []
  }

  /** One rule: reading its edited text gives what it becomes. */
  lemma EditReadsBack(norm: string -> string, sheet: C.Sheet, i: nat, leaf: Leaf, base: nat)
    requires i < |sheet| && sheet[i] == LeafRule(norm, leaf, base)
    ensures LeafRules(norm, EditView(leaf, EditFor(sheet, i))) == Erased(RuleAfter(sheet, i))
  {
    var decls := sheet[i].decls;
    ParsedIsWellMade(leaf.body, 0, base);
    KeptIsWellMade(sheet, i, decls);
    KeptIsSame(sheet, i, decls);
    BaseIsErased(leaf.body, 0, base, 0);
    hide DeclsFrom, EraseAll, WellMade, M.KeptDecls, JoinTexts;
    var kept := M.KeptDecls(sheet, i, decls);
    if EditFor(sheet, i).Replace? {
      var body := JoinTexts(kept);
      assert body[0..] == body;
      JoinParses(kept, body, 0, 0);
    }
  }

  /** What the rules from the `k`-th on become. */
  function RulesAfter(sheet: C.Sheet, k: nat): C.Sheet
    requires k <= |sheet|
    decreases |sheet| - k
  {
    if k == |sheet| then [] else RuleAfter(sheet, k) + RulesAfter(sheet, k + 1)
  }

  lemma LeafRulesConcat(norm: string -> string, a: seq<Leaf>, b: seq<Leaf>)
    ensures LeafRules(norm, a + b) == LeafRules(norm, a) + LeafRules(norm, b)
  {
    hide EraseRule, LeafRule;
  }

  lemma ErasedConcat(a: C.Sheet, b: C.Sheet)
    ensures Erased(a + b) == Erased(a) + Erased(b)
  {
    hide EraseRule;
  }

  lemma {:induction false} EditsReadBack(norm: string -> string, css: string, rules: seq<Span>, k: nat)
    requires InText(css, rules) && k <= |rules|
    ensures var sheet := SheetOf(norm, css, rules);
            LeafRules(norm, EditViews(Views(css, rules), EditsFor(sheet), k)) == Erased(RulesAfter(sheet, k))
    decreases |rules| - k
  {
    hide LeafRule, EraseRule, EditFor, RuleAfter, EditView, View, LeafRules, Erased;
    var sheet, leaves := SheetOf(norm, css, rules), Views(css, rules);
    var edits := EditsFor(sheet);
    if k == |rules| {
      NoLeafRules(norm);
    } else {
      EditsReadBack(norm, css, rules, k + 1);
      EditReadsBack(norm, sheet, k, leaves[k], rules[k].start);
      LeafRulesConcat(norm, EditView(leaves[k], edits[k]), EditViews(leaves, edits, k + 1));
      ErasedConcat(RuleAfter(sheet, k), RulesAfter(sheet, k + 1));
    }
  }

  lemma NoLeafRules(norm: string -> string)
    ensures LeafRules(norm, []) == [] && Erased([]) == []
  {
  }

  /** Building the survivors front to back or back to front is the same. */
  lemma {:induction false} DedupeIsRulesAfter(sheet: C.Sheet, n: nat)
    requires n <= |sheet|
    ensures M.Rewritten(sheet, M.Survivors(sheet, n)) + RulesAfter(sheet, n) == RulesAfter(sheet, 0)
  {
    hide RuleAfter, M.Rewritten, M.Survives;
    RewrittenStep(sheet, n);
    if n > 0 {
      DedupeIsRulesAfter(sheet, n - 1);
    }
  }

  lemma RewrittenStep(sheet: C.Sheet, n: nat)
    requires n <= |sheet|
    ensures n == 0 ==> M.Rewritten(sheet, M.Survivors(sheet, n)) == []
    ensures n > 0 ==> M.Rewritten(sheet, M.Survivors(sheet, n))
                      == M.Rewritten(sheet, M.Survivors(sheet, n - 1)) + RuleAfter(sheet, n - 1)
  {
    hide M.Survives, M.KeptDecls;
  }

  // ----- The whole file -----

  /** The scan does not stop at unbalanced braces. */
  predicate Accepted(css: string) {
    Rules(css).Some? && InText(css, Rules(css).value)
  }

  lemma AcceptedIsBalanced(css: string)
    ensures Accepted(css) <==> Rules(css).Some?
  {
    hide Rules;
    if Rules(css).Some? {
      ScanIsOrderedRules(css);
      OrderedInText(css, Rules(css).value);
    }
  }

  /** The edits `main` makes. */
  function Edits(norm: string -> string, css: string): (edits: seq<Edit>)
    requires Accepted(css)
    ensures |edits| == |Rules(css).value|
  {
    EditsFor(SheetOf(norm, css, Rules(css).value))
  }

  lemma EditsSplice(norm: string -> string, css: string)
    requires Accepted(css)
    ensures Spliceable(css, Rules(css).value, Edits(norm, css))
  {
    hide Scan, Ordered, EditsFor, SheetOf;
    ScanIsSpliceable(css, Edits(norm, css));
  }

  /** The text that `main` writes. */
  function Output(norm: string -> string, css: string): string
    requires Accepted(css)
  {
    EditsSplice(norm, css);
    Rebuild(css, Rules(css).value, Edits(norm, css), 0, 0)
  }

  /** Every edit fits: no new body opens a comment that it does not close, and every removed rule's prelude touches its
      brace or is the last in its block. */
  ghost predicate Fitting(norm: string -> string, css: string)
    requires Accepted(css)
  {
    EditsSplice(norm, css);
    TextFits(css, Rules(css).value, Edits(norm, css))
  }

  /** What a removal leaves of a prelude neither opens a comment nor holds a brace. */
  ghost predicate Tidy(norm: string -> string, css: string)
    requires Accepted(css)
  {
    EditsSplice(norm, css);
    StraysInert(css, Rules(css).value, Edits(norm, css))
  }

  /** The rules that the rewritten text should have, in their places. */
  function Due(norm: string -> string, css: string): seq<Span>
    requires Accepted(css)
  {
    EditsSplice(norm, css);
    X.Expected(css, Rules(css).value, Edits(norm, css), 0)
  }

  /** The rewritten file has every rule that was not removed in its place, and no other, if and only if the edits fit;
      and then reading it gives the sheet with its dead declarations removed, and no other change. */
  lemma FileReadsAsDeduped(norm: string -> string, css: string)
    requires Accepted(css) && Tidy(norm, css)
    ensures Rules(Output(norm, css)) == Some(Due(norm, css)) <==> Fitting(norm, css)
    ensures var out, sheet := Output(norm, css), SheetOf(norm, css, Rules(css).value);
            Fitting(norm, css) ==>
              && Accepted(out)
              && Views(out, Rules(out).value) == EditViews(Views(css, Rules(css).value), Edits(norm, css), 0)
              && Erased(SheetOf(norm, out, Rules(out).value)) == Erased(M.Dedupe(sheet))
  {
    hide Rules, Rebuild, Edits, X.Expected, TextFits, StraysInert, InText, Views, EditViews, SheetOf, Erased, M.Dedupe;
    EditsSplice(norm, css);
    X.RescanExactly(css, Rules(css).value, Edits(norm, css));
    if Fitting(norm, css) {
      FittingFileReads(norm, css);
    }
  }

  lemma FittingFileReads(norm: string -> string, css: string)
    requires Accepted(css) && Fitting(norm, css) && Tidy(norm, css)
    ensures var out, sheet := Output(norm, css), SheetOf(norm, css, Rules(css).value);
            && Accepted(out)
            && Views(out, Rules(out).value) == EditViews(Views(css, Rules(css).value), Edits(norm, css), 0)
            && Erased(SheetOf(norm, out, Rules(out).value)) == Erased(M.Dedupe(sheet))
  {
    hide Rules, Rebuild, TextFits, StraysInert, EditFor, Views, EditViews, SheetOf, InText, LeafRules, Erased,
      M.Survivors, M.Rewritten, RulesAfter;
    var rules := Rules(css).value;
    var sheet := SheetOf(norm, css, rules);
    var edits := EditsFor(sheet);
    EditsSplice(norm, css);
    RewrittenTextRescans(css, rules, edits);
    var out := Output(norm, css);
    ErasedIsLeafRules(norm, out, Rules(out).value);
    EditsReadBack(norm, css, rules, 0);
    DedupeIsRulesAfter(sheet, |sheet|);
    NothingAfter(sheet);
  }

  lemma NothingAfter(sheet: C.Sheet)
    ensures RulesAfter(sheet, |sheet|) == [] && M.Dedupe(sheet) + [] == M.Dedupe(sheet)
  {
    hide M.Dedupe;
  }

  // ----- Offsets do not matter -----

  function EraseItem(item: M.Item): M.Item {
    item.(decl := Erase(item.decl))
  }

  function EraseItems(items: seq<M.Item>): (out: seq<M.Item>)
    ensures |out| == |items|
  {
    seq(|items|, k requires 0 <= k < |items| => EraseItem(items[k]))
  }

  lemma {:induction false} ErasedItems(sheet: C.Sheet, n: nat)
    requires n <= |sheet|
    ensures M.Items(Erased(sheet), n) == EraseItems(M.Items(sheet, n))
  {
    if n > 0 {
      ErasedItems(sheet, n - 1);
      var rule := sheet[n - 1];
      assert M.RuleItems(n - 1, rule.group, EraseAll(rule.decls))
          == EraseItems(M.RuleItems(n - 1, rule.group, rule.decls));
      EraseItemsConcat(M.Items(sheet, n - 1), M.RuleItems(n - 1, rule.group, rule.decls));
    }
  }

  lemma EraseItemsConcat(a: seq<M.Item>, b: seq<M.Item>)
    ensures EraseItems(a + b) == EraseItems(a) + EraseItems(b)
  {
    hide EraseItem;
  }

  lemma {:induction false} WinErased(e: M.Element, prop: string, items: seq<M.Item>)
    ensures S.Computed(e, prop, EraseItems(items)) == S.Computed(e, prop, items)
    ensures M.Win(e, prop, items).Some? == M.Win(e, prop, EraseItems(items)).Some?
    ensures M.Win(e, prop, items).Some? ==>
              M.Win(e, prop, EraseItems(items)).value == EraseItem(M.Win(e, prop, items).value)
  {
    if items != [] {
      WinErased(e, prop, items[1..]);
      assert EraseItems(items)[1..] == EraseItems(items[1..]);
    }
  }

  /** What an element computes does not depend on offsets. */
  lemma ErasedComputes(sheet: C.Sheet, e: M.Element, prop: string)
    ensures S.Computes(Erased(sheet), e, prop) == S.Computes(sheet, e, prop)
  {
    hide M.Items, M.Win, S.Computed;
    ErasedItems(sheet, |sheet|);
    WinErased(e, prop, M.Items(sheet, |sheet|));
  }

  lemma {:induction false} ErasedSays(decls: seq<C.Decl>, prop: string)
    ensures C.Declares(EraseAll(decls), prop) <==> C.Declares(decls, prop)
    ensures C.HasNormal(EraseAll(decls), prop) <==> C.HasNormal(decls, prop)
    ensures C.EndsNormal(EraseAll(decls), prop) <==> C.EndsNormal(decls, prop)
  {
    if decls != [] {
      var n := |decls| - 1;
      ErasedSays(decls[..n], prop);
      assert EraseAll(decls)[..n] == EraseAll(decls[..n]);
    }
  }

  lemma ErasedDead(sheet: C.Sheet, i: nat, prop: string)
    ensures C.Dead(sheet, i, prop) ==> C.Dead(Erased(sheet), i, prop)
    ensures C.Dead(Erased(sheet), i, prop) ==> C.Dead(sheet, i, prop)
  {
    hide C.Declares, C.HasNormal, C.EndsNormal, EraseAll;
    forall m | 0 <= m < |sheet|
      ensures C.Declares(Erased(sheet)[m].decls, prop) <==> C.Declares(sheet[m].decls, prop)
      ensures C.HasNormal(Erased(sheet)[m].decls, prop) <==> C.HasNormal(sheet[m].decls, prop)
      ensures C.EndsNormal(Erased(sheet)[m].decls, prop) <==> C.EndsNormal(sheet[m].decls, prop)
      ensures Erased(sheet)[m].group == sheet[m].group
    {
      ErasedSays(sheet[m].decls, prop);
    }
    if C.Dead(sheet, i, prop) {
      var last :| i < last < |sheet| && sheet[last].group == sheet[i].group && C.Closes(sheet, last, prop)
                  && C.EndsNormal(sheet[last].decls, prop);
      assert C.Closes(Erased(sheet), last, prop);
    }
    if C.Dead(Erased(sheet), i, prop) {
      var last :| i < last < |sheet| && Erased(sheet)[last].group == Erased(sheet)[i].group
                  && C.Closes(Erased(sheet), last, prop)
                  && C.EndsNormal(Erased(sheet)[last].decls, prop);
      assert C.Closes(sheet, last, prop);
    }
  }

  // ----- What the run guarantees -----

  /** For every file whose edits fit: what some element computes changes, unless every lost declaration that could win
      has a stand-in. */
  lemma MeaningKeptExactlyOnFiles(norm: string -> string, css: string)
    requires Accepted(css) && Fitting(norm, css) && Tidy(norm, css)
    ensures Accepted(Output(norm, css))
    ensures var out, sheet := Output(norm, css), SheetOf(norm, css, Rules(css).value);
            (forall e, prop :: S.Computes(SheetOf(norm, out, Rules(out).value), e, prop) == S.Computes(sheet, e, prop))
            <==> S.Hidden(S.SheetFlags(sheet))
  {
    hide Rules, InText, Fitting, Tidy, SheetOf, Output, Views, EditViews, Edits, S.Hidden, S.SheetFlags, S.Computes,
      M.Dedupe, Erased;
    var out, sheet := Output(norm, css), SheetOf(norm, css, Rules(css).value);
    FileReadsAsDeduped(norm, css);
    S.MeaningKeptExactly(sheet);
    var sheet2 := SheetOf(norm, out, Rules(out).value);
    forall e, prop
      ensures S.Computes(sheet2, e, prop) == S.Computes(M.Dedupe(sheet), e, prop)
    {
      ErasedComputes(sheet2, e, prop);
      ErasedComputes(M.Dedupe(sheet), e, prop);
    }
    if S.Hidden(S.SheetFlags(sheet)) {
      forall e, prop
        ensures S.Computes(sheet2, e, prop) == S.Computes(sheet, e, prop)
      {
        assert S.Computes(M.Dedupe(sheet), e, prop) == S.Computes(sheet, e, prop);
      }
    } else {
      var e, prop :| S.Computes(M.Dedupe(sheet), e, prop) != S.Computes(sheet, e, prop);
      assert S.Computes(sheet2, e, prop) != S.Computes(sheet, e, prop);
    }
  }

  /** In particular, when no important declaration is lost without a later one of its group, every element computes from
      the rewritten file what it computed from the original. */
  lemma FileKeepsMeaning(norm: string -> string, css: string, e: M.Element, prop: string)
    requires Accepted(css) && Fitting(norm, css) && Tidy(norm, css)
    requires M.ImportantKept(SheetOf(norm, css, Rules(css).value))
    ensures var out := Output(norm, css);
            && Accepted(out)
            && S.Computes(SheetOf(norm, out, Rules(out).value), e, prop)
               == S.Computes(SheetOf(norm, css, Rules(css).value), e, prop)
  {
    hide Rules, InText, Fitting, Tidy, SheetOf, Output, Views, EditViews, Edits, M.ImportantKept, M.Dedupe, Erased,
      S.Computes;
    var sheet := SheetOf(norm, css, Rules(css).value);
    FileReadsAsDeduped(norm, css);
    var out := Output(norm, css);
    ErasedComputes(SheetOf(norm, out, Rules(out).value), e, prop);
    ErasedComputes(M.Dedupe(sheet), e, prop);
    S.RemovalKeepsMeaning(sheet, e, prop);
  }

  /** And a second run finds nothing to do. */
  lemma SecondRunFindsNothing(norm: string -> string, css: string, a: nat, prop: string)
    requires Accepted(css) && Fitting(norm, css) && Tidy(norm, css)
    ensures var out := Output(norm, css);
            && Accepted(out)
            && !C.Dead(SheetOf(norm, out, Rules(out).value), a, prop)
  {
    hide Rules, InText, Fitting, Tidy, SheetOf, Output, Views, EditViews, Edits, M.Dedupe, Erased, C.Dead;
    var sheet := SheetOf(norm, css, Rules(css).value);
    FileReadsAsDeduped(norm, css);
    var out := Output(norm, css);
    ErasedDead(SheetOf(norm, out, Rules(out).value), a, prop);
    ErasedDead(M.Dedupe(sheet), a, prop);
    M.OnePassIsEnough(sheet, a, prop);
  }

  lemma {:induction false} RebuildKeeps(css: string, rules: seq<Span>, edits: seq<Edit>, k: nat)
    requires Spliceable(css, rules, edits) && k <= |rules| && forall l :: 0 <= l < |edits| ==> edits[l].Keep?
    ensures Rebuild(css, rules, edits, k, 0) == css
    decreases |rules| - k
  {
    if k < |rules| {
      RebuildKeeps(css, rules, edits, k + 1);
    }
  }

  /** Without dead declarations the file stays as it is. */
  lemma NothingDeadIsNoop(norm: string -> string, css: string)
    requires Accepted(css) && forall i, prop :: !C.Dead(SheetOf(norm, css, Rules(css).value), i, prop)
    ensures Output(norm, css) == css
  {
    hide Rules, InText, SheetOf, Rebuild, Spliceable, C.Dead, M.KeptDecls;
    var rules := Rules(css).value;
    var sheet := SheetOf(norm, css, rules);
    var edits := EditsFor(sheet);
    forall i | 0 <= i < |edits|
      ensures edits[i].Keep?
    {
      M.NothingDead(sheet, i, sheet[i].decls);
    }
    EditsSplice(norm, css);
    RebuildKeeps(css, rules, edits, 0);
  }

  /** The remover is idempotent on files. */
  lemma RunTwice(norm: string -> string, css: string)
    requires Accepted(css) && Fitting(norm, css) && Tidy(norm, css)
    ensures Accepted(Output(norm, css)) && Output(norm, Output(norm, css)) == Output(norm, css)
  {
    hide Rules, InText, SheetOf, Output, Fitting, Tidy, C.Dead;
    var out := Output(norm, css);
    forall a: nat, prop
      ensures Accepted(out) && !C.Dead(SheetOf(norm, out, Rules(out).value), a, prop)
    {
      SecondRunFindsNothing(norm, css, a, prop);
    }
    SecondRunFindsNothing(norm, css, 0, "");
    NothingDeadIsNoop(norm, out);
  }

  // ----- Side conditions a caller can check -----

  lemma {:induction false} CloseOfPlain(body: string, i: nat)
    requires i <= |body| && forall k :: 0 <= k < |body| ==> body[k] != '{' && body[k] != '}' && !CommentAt(body, k)
    ensures Close(body + "}", i, 1) == Some(|body|)
    decreases |body| - i
  {
    var text := body + "}";
    if i < |body| {
      assert text[i] == body[i];
      assert i + 1 < |body| ==> text[i + 1] == body[i + 1];
      CloseOfPlain(body, i + 1);
    }
  }

  lemma {:induction false} JoinHasNoBraces(decls: seq<C.Decl>)
    requires forall k :: 0 <= k < |decls| ==> WellMade(decls[k])
    ensures forall k :: 0 <= k < |JoinTexts(decls)| ==> JoinTexts(decls)[k] != '{' && JoinTexts(decls)[k] != '}'
  {
    hide MakeDecl, IsDecl, Strip;
    if |decls| > 0 {
      assert WellMade(decls[0]);
      JoinHasNoBraces(decls[1..]);
    }
  }

  /** Texts that open no comment are safe to print. */
  lemma CommentFreeIsContained(decls: seq<C.Decl>)
    requires forall k :: 0 <= k < |decls| ==> WellMade(decls[k])
    requires forall k :: 0 <= k < |JoinTexts(decls)| ==> !CommentAt(JoinTexts(decls), k)
    ensures Contained(JoinTexts(decls))
  {
    hide WellMade, JoinTexts, Close;
    JoinHasNoBraces(decls);
    CloseOfPlain(JoinTexts(decls), 0);
  }

  /** The pieces of a body that are neither blank nor declarations: those the parser skips. */
  function Skipped(body: string, i: nat): seq<string>
    requires i <= |body|
    decreases |body| - i
  {
    if i == |body| then []
    else
      var j := Run(body, i);
      var rest := if j == |body| then [] else Skipped(body, j + 1);
      if Strip(body[i..j]) == "" || (IsDecl(Strip(body[i..j])) && (j == |body| || body[j] == ';')) then rest
      else [Strip(body[i..j])] + rest
  }

  lemma FirstSkipped(body: string, i: nat, text: string)
    requires i + |text| <= |body| && IsText(text) && body[i..i + |text|] == text
    requires i + |text| < |body| ==> body[i + |text|] == ';'
    ensures Skipped(body, i) == if i + |text| == |body| then [] else Skipped(body, i + |text| + 1)
  {
    hide Strip, IsDecl, Contains, Run, Prop;
    TextIsNotEmpty(text);
    forall k | i <= k < i + |text|
      ensures !IsSeparator(body[k])
    {
      assert body[i..i + |text|][k - i] == body[k];
    }
    RunIs(body, i, i + |text|);
  }

  /** A rewritten rule has no skipped piece left: a rewrite loses all that the rule had. */
  lemma {:induction false} RewriteDropsSkipped(decls: seq<C.Decl>, body: string, i: nat)
    requires i <= |body| && body[i..] == JoinTexts(decls) && forall k :: 0 <= k < |decls| ==> WellMade(decls[k])
    ensures Skipped(body, i) == []
    decreases |decls|
  {
    hide Strip, IsDecl, Contains, Prop, IsText, Skipped, Lower;
    if decls == [] {
      NothingSkipped(body);
    } else {
      var text := decls[0].text;
      JoinStarts(decls, body, i);
      FirstSkipped(body, i, text);
      if i + |text| < |body| {
        RewriteDropsSkipped(decls[1..], body, i + |text| + 1);
      }
    }
  }

  lemma NothingSkipped(body: string)
    ensures Skipped(body, |body|) == []
  {
  }

  // ----- The run -----

  method ParseRules(norm: string -> string, css: string, rules: seq<Span>) returns (sheet: C.Sheet)
    requires InText(css, rules)
    ensures sheet == SheetOf(norm, css, rules)
  {
    hide DeclsFrom;
    sheet := [];
    for k := 0 to |rules|
      invariant |sheet| == k && forall l :: 0 <= l < k ==> sheet[l] == SheetOf(norm, css, rules)[l]
    {
      var decls := ParseDecls(css[rules[k].start..rules[k].end], rules[k].start);
      sheet := sheet + [C.Rule(C.Group(rules[k].context, norm(rules[k].prelude)), decls)];
    }
  }

  method ChooseEdits(sheet: C.Sheet) returns (edits: seq<Edit>)
    ensures edits == EditsFor(sheet)
  {
    hide C.Dead, M.KeptDecls, JoinTexts;
    var byRule := C.Analyse(sheet);
    edits := [];
    for i := 0 to |sheet|
      invariant |edits| == i && forall l :: 0 <= l < i ==> edits[l] == EditsFor(sheet)[l]
    {
      assert C.Marked(sheet, byRule, i);
      if i !in byRule {
        M.NothingDead(sheet, i, sheet[i].decls);
        edits := edits + [Keep];
      } else {
        var prop :| prop in byRule[i];
        DeadIsRemoved(sheet, i, prop);
        var kept := M.KeepDecls(sheet[i].decls, byRule[i], sheet, i);
        edits := edits + [if kept == [] then Delete else Replace(JoinTexts(kept))];
      }
    }
  }

  /** A rule with a dead property loses at least one declaration. */
  lemma DeadIsRemoved(sheet: C.Sheet, i: nat, prop: string)
    requires i < |sheet| && C.Dead(sheet, i, prop)
    ensures |M.KeptDecls(sheet, i, sheet[i].decls)| < |sheet[i].decls|
  {
    var decls := sheet[i].decls;
    assert C.HasNormal(decls, prop);
    hide C.Dead, C.HasNormal;
    M.KeptSays(sheet, i, decls, prop);
    KeptIsSame(sheet, i, decls);
  }

  /** `main`, from the file read to the file written; none when the braces are unbalanced. */
  method DedupeFile(norm: string -> string, css: string) returns (out: Option<string>)
    ensures out == if Accepted(css) then Some(Output(norm, css)) else None
  {
    hide Scan, SheetOf, EditsFor, Rebuild, Ordered, InText, Spliceable;
    AcceptedIsBalanced(css);
    var found := SplitTopLevel(css, 0, |css|, "", []);
    PrependNothing(Scan(css, 0, 0, 0, |css|, ""));
    if found.None? {
      return None;
    }
    var rules := found.value;
    var sheet := ParseRules(norm, css, rules);
    var edits := ChooseEdits(sheet);
    ScanIsSpliceable(css, edits);
    var text := Splice(css, rules, edits);
    return Some(text);
  }

  lemma PrependNothing(rest: Option<seq<Span>>)
    ensures Prepend([], rest) == rest
  {
    if rest.Some? {
      assert [] + rest.value == rest.value;
    }
  }
}
