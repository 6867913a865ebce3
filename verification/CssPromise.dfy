/** The script's promise held against the browser's reading: exactly when every element computes the same. */
module CssPromise {
  import opened PythonText
  import opened CssText
  import opened CssRescan
  import opened CssFile
  import opened CssReading
  import opened Wrappers
  import C = CssCascade
  import M = CssMeaning
  import S = CssShown
  import L = CssAlike
  import N = CssSelector

  // ----- Any file -----

  /** For every stylesheet whose edits fit, and whatever its rules hold: every element computes the same from the
      rewritten file if and only if, between the rules as they are and as they will be written, every group says the
      same about every property, and groups that only order tells apart come in the same order. */
  lemma SeenAlikeExactly(w: Browser, norm: string -> string, css: string)
    requires Accepted(css) && Fitting(norm, css) && Tidy(norm, css)
    ensures Accepted(Output(norm, css))
    ensures var leaves := Views(css, Rules(css).value);
            (forall e, prop :: Sees(w, Output(norm, css), e, prop) == Sees(w, css, e, prop))
            <==> L.Alike(SaysAll(w, EditViews(leaves, Edits(norm, css), 0)), SaysAll(w, leaves))
  {
    hide Rules, InText, Fitting, Tidy, SheetOf, Output, Views, EditViews, Edits, S.Computed, SaysAll, L.Alike;
    var out, leaves := Output(norm, css), Views(css, Rules(css).value);
    FileReadsAsDeduped(norm, css);
    var a, b := SaysAll(w, EditViews(leaves, Edits(norm, css), 0)), SaysAll(w, leaves);
    L.AlikeExactly(a, b);
    if L.Alike(a, b) {
      forall e, prop
        ensures Sees(w, out, e, prop) == Sees(w, css, e, prop)
      {
        assert S.Computed(e, prop, a) == S.Computed(e, prop, b);
      }
    } else {
      var e, prop :| S.Computed(e, prop, a) != S.Computed(e, prop, b);
      assert Sees(w, out, e, prop) != Sees(w, css, e, prop);
    }
  }

  // ----- What the script keeps of a declaration -----

  function Flag(group: C.Group, decls: seq<C.Decl>, kept: bool): (fs: seq<S.Flagged>)
    ensures |fs| == |decls|
  {
    seq(|decls|, k requires 0 <= k < |decls| => S.Flagged(M.Item(0, group, decls[k]), kept))
  }

  /** The script's declarations in the browser's declaration that are not dead: more than one when a semicolon stands in
      a comment, a string or a bracket of it. */
  function KeptOf(sheet: C.Sheet, r: nat, piece: string): seq<C.Decl> {
    M.KeptDecls(sheet, r, DeclsFrom(piece, 0, 0))
  }

  /** It writes back some of it, but not all as it was. */
  predicate Torn(sheet: C.Sheet, r: nat, piece: string) {
    KeptOf(sheet, r, piece) != [] && JoinTexts(KeptOf(sheet, r, piece)) != Strip(piece)
  }

  /** From `i` on, every declaration is written back whole or not at all. */
  predicate Untorn(sheet: C.Sheet, r: nat, body: string, i: nat)
    requires i <= |body|
    decreases |body| - i
  {
    i == |body| || Ends(body, i, []).Unfinished?
    || (!Torn(sheet, r, body[i..Ends(body, i, []).at]) && Untorn(sheet, r, body, Next(body, Ends(body, i, []).at)))
  }

  function PieceFlags(group: C.Group, sheet: C.Sheet, r: nat, body: string, i: nat): seq<S.Flagged>
    requires i <= |body|
    decreases |body| - i
  {
    if i == |body| || Ends(body, i, []).Unfinished? then []
    else
      var j := Ends(body, i, []).at;
      var piece := body[i..j];
      Flag(group, ReadPiece(piece), KeptOf(sheet, r, piece) != []) + PieceFlags(group, sheet, r, body, Next(body, j))
  }

  /** What the browser reads in rule `r`, and which of it the script writes back. */
  function RuleFlags(w: Browser, sheet: C.Sheet, r: nat, leaf: Leaf): seq<S.Flagged>
    requires r < |sheet|
  {
    match EditFor(sheet, r)
    case Keep => Flag(Home(w, leaf), Read(w, leaf.body), true)
    case Delete => Flag(Home(w, leaf), Read(w, leaf.body), false)
    case Replace(_) => PieceFlags(Home(w, leaf), sheet, r, leaf.body, 0)
  }

  function FlagsFrom(w: Browser, sheet: C.Sheet, leaves: seq<Leaf>, k: nat): seq<S.Flagged>
    requires k <= |leaves| == |sheet|
    decreases |leaves| - k
  {
    if k == |leaves| then [] else RuleFlags(w, sheet, k, leaves[k]) + FlagsFrom(w, sheet, leaves, k + 1)
  }

  lemma {:induction false} ItemsOfConcat(a: seq<S.Flagged>, b: seq<S.Flagged>, onlyKept: bool)
    ensures S.ItemsOf(a + b, onlyKept) == S.ItemsOf(a, onlyKept) + S.ItemsOf(b, onlyKept)
  {
    if a == [] {
      assert a + b == b;
    } else {
      assert (a + b)[1..] == a[1..] + b;
      ItemsOfConcat(a[1..], b, onlyKept);
    }
  }

  lemma {:induction false} ItemsOfFlag(group: C.Group, decls: seq<C.Decl>, kept: bool)
    ensures S.ItemsOf(Flag(group, decls, kept), false) == M.RuleItems(0, group, decls)
    ensures S.ItemsOf(Flag(group, decls, kept), true) == if kept then M.RuleItems(0, group, decls) else []
  {
    if decls != [] {
      assert Flag(group, decls, kept)[1..] == Flag(group, decls[1..], kept);
      assert M.RuleItems(0, group, decls) == [M.Item(0, group, decls[0])] + M.RuleItems(0, group, decls[1..]);
      ItemsOfFlag(group, decls[1..], kept);
    }
  }

  lemma RuleItemsConcat(group: C.Group, a: seq<C.Decl>, b: seq<C.Decl>)
    ensures M.RuleItems(0, group, a + b) == M.RuleItems(0, group, a) + M.RuleItems(0, group, b)
  {
  }

  lemma {:induction false} KeptConcat(sheet: C.Sheet, r: nat, a: seq<C.Decl>, b: seq<C.Decl>)
    ensures M.KeptDecls(sheet, r, a + b) == M.KeptDecls(sheet, r, a) + M.KeptDecls(sheet, r, b)
  {
    hide C.Dead;
    if b == [] {
      assert a + b == a;
    } else {
      var n := |b| - 1;
      assert (a + b)[..|a + b| - 1] == a + b[..n];
      KeptConcat(sheet, r, a, b[..n]);
    }
  }

  lemma NothingKept(group: C.Group, sheet: C.Sheet, r: nat)
    ensures M.KeptDecls(sheet, r, []) == [] && M.RuleItems(0, group, []) == []
    ensures S.ItemsOf([], false) == S.ItemsOf([], true) == []
  {
  }

  lemma OneRunDecls(piece: string)
    requires piece != "" && Run(piece, 0) == |piece| && piece[0..|piece|] == piece
    ensures var decls := DeclsFrom(piece, 0, 0); |decls| <= 1 && (decls != [] ==> decls[0].text == Strip(piece))
  {
    hide Strip, IsDecl, Run, Prop, Contains;
    NoDecls(piece, 0);
  }

  /** A declaration without a semicolon in it is never torn. */
  lemma OneRunIsUntorn(sheet: C.Sheet, r: nat, piece: string)
    requires forall k :: 0 <= k < |piece| ==> !IsSeparator(piece[k])
    ensures !Torn(sheet, r, piece)
  {
    hide Strip, IsDecl, C.Dead, IsSeparator;
    if piece != "" {
      RunIs(piece, 0, |piece|);
      assert piece[0..|piece|] == piece;
      OneRunDecls(piece);
      hide DeclsFrom;
      var decls := DeclsFrom(piece, 0, 0);
      KeptIsSame(sheet, r, decls);
      KeptIsFewer(sheet, r, decls);
    }
  }

  // ----- The script's declarations, piece by piece -----

  /** The script reads a body as it reads its pieces, wherever a semicolon parts them. */
  lemma {:induction false} DeclsSplit(body: string, o: nat, i: nat, j: nat, base: nat)
    requires o <= i <= j <= |body| && Flat(body) && (j < |body| ==> body[j] == ';')
    ensures DeclsFrom(body, i, base) == DeclsFrom(body[o..j], i - o, base + o) + DeclsFrom(body, Next(body, j), base)
    decreases j - i
  {
    hide DeclAt, Run, DeclsFrom;
    if i == j {
      NoDecls(body[o..j], base + o);
      if j < |body| {
        RunIs(body, j, j);
        BlankDecl(body, j, base);
        DeclsNext(body, j, base);
      } else {
        NoDecls(body, base);
      }
    } else {
      var k := Run(body, i);
      RunAlone(body, o, i, j);
      DeclsNext(body, i, base);
      DeclsNext(body[o..j], i - o, base + o);
      DeclAlone(body, o, i, j, k, base);
      if k < j {
        DeclsSplit(body, o, k + 1, j, base);
      } else {
        NoDecls(body[o..j], base + o);
      }
    }
  }

  lemma DeclsNext(body: string, i: nat, base: nat)
    requires i < |body|
    ensures DeclsFrom(body, i, base)
         == DeclAt(body, i, Run(body, i), base) + DeclsFrom(body, Next(body, Run(body, i)), base)
  {
    hide DeclAt, Run;
  }

  lemma RunAlone(body: string, o: nat, i: nat, j: nat)
    requires o <= i < j <= |body| && (j < |body| ==> body[j] == ';')
    ensures Run(body, i) <= j && Run(body[o..j], i - o) == Run(body, i) - o
  {
    hide Run;
    var t, k := body[o..j], Run(body, i);
    assert forall x :: o <= x < j ==> t[x - o] == body[x];
    RunIs(t, i - o, k - o);
  }

  lemma SliceOfSlice(body: string, o: nat, j: nat, i: nat, k: nat)
    requires o <= i <= k <= j <= |body|
    ensures body[o..j][i - o..k - o] == body[i..k]
  {
    var t := body[o..j];
    var x, y := t[i - o..k - o], body[i..k];
    forall n | 0 <= n < k - i
      ensures x[n] == y[n]
    {
      assert x[n] == t[i - o + n] == body[i + n];
    }
  }

  lemma DeclAlone(body: string, o: nat, i: nat, j: nat, k: nat, base: nat)
    requires o <= i <= k <= j <= |body| && Flat(body) && (j < |body| ==> body[j] == ';')
    requires (k < |body| ==> IsSeparator(body[k]))
    ensures DeclAt(body, i, k, base) == DeclAt(body[o..j], i - o, k - o, base + o)
  {
    hide Strip, IsDecl, MakeDecl;
    var t := body[o..j];
    SliceOfSlice(body, o, j, i, k);
    assert k < j ==> t[k - o] == body[k];
  }

  lemma BlankDecl(body: string, j: nat, base: nat)
    requires j <= |body|
    ensures DeclAt(body, j, j, base) == []
  {
    assert body[j..j] == "";
  }

  lemma {:induction false} KeptErased(sheet: C.Sheet, r: nat, decls: seq<C.Decl>)
    ensures M.KeptDecls(sheet, r, EraseAll(decls)) == EraseAll(M.KeptDecls(sheet, r, decls))
  {
    hide C.Dead;
    if decls != [] {
      var n := |decls| - 1;
      KeptErased(sheet, r, decls[..n]);
      assert EraseAll(decls)[..n] == EraseAll(decls[..n]);
      var init := M.KeptDecls(sheet, r, decls[..n]);
      EraseConcat(init, [decls[n]]);
    }
  }

  lemma {:induction false} JoinErased(decls: seq<C.Decl>)
    ensures JoinTexts(EraseAll(decls)) == JoinTexts(decls)
  {
    if |decls| > 0 {
      assert EraseAll(decls)[1..] == EraseAll(decls[1..]);
      JoinErased(decls[1..]);
    }
  }

  /** What is kept of a piece does not depend on where it stands. */
  lemma KeptAtBase(sheet: C.Sheet, r: nat, piece: string, base: nat)
    ensures var kept := M.KeptDecls(sheet, r, DeclsFrom(piece, 0, base));
            (kept == [] <==> KeptOf(sheet, r, piece) == []) && JoinTexts(kept) == JoinTexts(KeptOf(sheet, r, piece))
  {
    hide DeclsFrom, M.KeptDecls, JoinTexts, Erase;
    var x, y := DeclsFrom(piece, 0, base), DeclsFrom(piece, 0, 0);
    BaseIsErased(piece, 0, base, 0);
    KeptErased(sheet, r, x);
    KeptErased(sheet, r, y);
    JoinErased(M.KeptDecls(sheet, r, x));
    JoinErased(M.KeptDecls(sheet, r, y));
  }

  lemma {:induction false} JoinAppend(a: seq<C.Decl>, b: seq<C.Decl>)
    requires a != [] && b != []
    ensures JoinTexts(a + b) == JoinTexts(a) + (";" + JoinTexts(b))
  {
    assert (a + b)[1..] == a[1..] + b;
    if |a| == 1 {
      assert a[1..] + b == b;
    } else {
      JoinAppend(a[1..], b);
      var text, x, y := a[0].text, JoinTexts(a[1..]), JoinTexts(b);
      assert text + (";" + (x + (";" + y))) == (text + (";" + x)) + (";" + y);
    }
  }

  // ----- A rewritten rule -----

  /** A piece that is written back stands in the new text as it was, without blanks around it. */
  lemma KeptPiece(sheet: C.Sheet, r: nat, body: string, i: nat, j: nat, base: nat)
    requires i < |body| && Flat(body) && Ends(body, i, []) == End(j, []) && !Torn(sheet, r, body[i..j])
    requires KeptOf(sheet, r, body[i..j]) != []
    ensures var text := JoinTexts(M.KeptDecls(sheet, r, DeclsFrom(body[i..j], 0, base)));
            text != "" && Ends(text, 0, []) == End(|text|, []) && ReadPiece(text) == ReadPiece(body[i..j])
  {
    hide Ends, DeclsFrom, M.KeptDecls, JoinTexts, ReadPiece, Strip;
    var piece := body[i..j];
    KeptAtBase(sheet, r, piece, base);
    EndsAlone(body, i, i, [], j, []);
    EndsStripped(piece);
    ReadStripped(piece);
    JoinedIsText(sheet, r, piece);
  }

  lemma JoinedIsText(sheet: C.Sheet, r: nat, piece: string)
    requires KeptOf(sheet, r, piece) != []
    ensures JoinTexts(KeptOf(sheet, r, piece)) != ""
  {
    hide DeclsFrom, M.KeptDecls, WellMade;
    ParsedIsWellMade(piece, 0, 0);
    KeptIsWellMade(sheet, r, DeclsFrom(piece, 0, 0));
    var kept := KeptOf(sheet, r, piece);
    assert WellMade(kept[0]);
    MadeIsText(kept[0]);
  }

  lemma MadeIsText(d: C.Decl)
    requires WellMade(d)
    ensures d.text != ""
  {
    TextIsNotEmpty(d.text);
  }

  /** The declarations of a body, all of them as they are, and those written back as the new text has them. */
  lemma {:induction false} PiecesThin(group: C.Group, sheet: C.Sheet, r: nat, body: string, i: nat, base: nat)
    requires i <= |body| && Flat(body) && Closed(body, i) && Untorn(sheet, r, body, i)
    ensures S.ItemsOf(PieceFlags(group, sheet, r, body, i), false) == M.RuleItems(0, group, ReadPieces(body, i))
    ensures var text := JoinTexts(M.KeptDecls(sheet, r, DeclsFrom(body, i, base)));
            && Closed(text, 0)
            && S.ItemsOf(PieceFlags(group, sheet, r, body, i), true) == M.RuleItems(0, group, ReadPieces(text, 0))
    decreases |body| - i
  {
    hide Ends, ReadPiece, Flag, M.RuleItems, S.ItemsOf, M.KeptDecls, DeclsFrom, KeptOf, Torn, JoinTexts;
    if i == |body| {
      NothingKept(group, sheet, r);
      NoDecls(body, base);
      JoinEmpty();
    } else {
      var j := Ends(body, i, []).at;
      var next, piece := Next(body, j), body[i..j];
      PiecesThin(group, sheet, r, body, next, base);
      var read, kept := ReadPiece(piece), KeptOf(sheet, r, piece) != [];
      var first, later := Flag(group, read, kept), PieceFlags(group, sheet, r, body, next);
      ItemsOfConcat(first, later, false);
      ItemsOfConcat(first, later, true);
      ItemsOfFlag(group, read, kept);
      RuleItemsConcat(group, read, ReadPieces(body, next));
      KeptSplit(sheet, r, body, i, j, base);
      var rest := JoinTexts(M.KeptDecls(sheet, r, DeclsFrom(body, next, base)));
      RuleItemsConcat(group, read, ReadPieces(rest, 0));
      assert [] + ReadPieces(rest, 0) == ReadPieces(rest, 0);
      assert [] + M.RuleItems(0, group, ReadPieces(rest, 0)) == M.RuleItems(0, group, ReadPieces(rest, 0));
    }
  }

  /** How the new text of a body goes on after a piece. */
  lemma KeptSplit(sheet: C.Sheet, r: nat, body: string, i: nat, j: nat, base: nat)
    requires i < |body| && Flat(body) && Ends(body, i, []) == End(j, []) && !Torn(sheet, r, body[i..j])
    ensures var text := JoinTexts(M.KeptDecls(sheet, r, DeclsFrom(body, i, base)));
            var rest := JoinTexts(M.KeptDecls(sheet, r, DeclsFrom(body, Next(body, j), base)));
            && (Closed(rest, 0) ==> Closed(text, 0))
            && ReadPieces(text, 0)
               == (if KeptOf(sheet, r, body[i..j]) != [] then ReadPiece(body[i..j]) else []) + ReadPieces(rest, 0)
  {
    hide Ends, ReadPiece, M.KeptDecls, DeclsFrom, KeptOf, Torn, JoinTexts, Closed, ReadPieces, Next;
    var piece, next := body[i..j], Next(body, j);
    EndsBounds(body, i, j);
    DeclsSplit(body, i, i, j, base);
    var x, y := DeclsFrom(piece, 0, base + i), DeclsFrom(body, next, base);
    KeptConcat(sheet, r, x, y);
    var a, b := M.KeptDecls(sheet, r, x), M.KeptDecls(sheet, r, y);
    KeptAtBase(sheet, r, piece, base + i);
    NoPieces();
    JoinEmpty();
    if a == [] {
      assert a + b == b && [] + ReadPieces(JoinTexts(b), 0) == ReadPieces(JoinTexts(b), 0);
    } else {
      KeptPiece(sheet, r, body, i, j, base + i);
      if b == [] {
        assert a + b == a && ReadPiece(piece) + [] == ReadPiece(piece);
        OnePiece(JoinTexts(a));
      } else {
        JoinAppend(a, b);
        FirstPiece(JoinTexts(a), JoinTexts(b));
      }
    }
  }

  lemma EndsBounds(body: string, i: nat, j: nat)
    requires i < |body| && Ends(body, i, []) == End(j, [])
    ensures i <= j <= |body| && (j < |body| ==> body[j] == ';') && Next(body, j) <= |body|
  {
    hide Ends;
  }

  lemma NoPieces()
    ensures ReadPieces("", 0) == [] && Closed("", 0)
  {
  }

  /** Every comment, string and bracket of a body is closed, and every declaration in it kept whole or lost. */
  predicate Mended(sheet: C.Sheet, r: nat, body: string) {
    Plain(body) && Untorn(sheet, r, body, 0)
  }

  /** One rule: what the browser reads in it before and after. */
  lemma RuleThins(w: Browser, norm: string -> string, sheet: C.Sheet, r: nat, leaf: Leaf, base: nat)
    requires r < |sheet| && sheet[r] == LeafRule(norm, leaf, base)
    requires EditFor(sheet, r).Replace? ==> Mended(sheet, r, leaf.body)
    ensures S.ItemsOf(RuleFlags(w, sheet, r, leaf), false) == Says(w, leaf)
    ensures S.ItemsOf(RuleFlags(w, sheet, r, leaf), true) == SaysAll(w, EditView(leaf, EditFor(sheet, r)))
    ensures EditFor(sheet, r).Replace? ==> !Swallows(EditFor(sheet, r).body)
  {
    hide DeclsFrom, M.KeptDecls, PieceFlags, ReadPieces, M.RuleItems, Flag, S.ItemsOf, JoinTexts, Closed, Gapes, Flat,
      Untorn;
    var edit, home := EditFor(sheet, r), Home(w, leaf);
    ItemsOfFlag(home, Read(w, leaf.body), edit.Keep?);
    SaysOne(w, leaf);
    if edit.Replace? {
      PiecesThin(home, sheet, r, leaf.body, 0, base);
      WrittenIsFlat(sheet, r, leaf.body, base);
      ClosedIsShut(edit.body, 0);
      SaysOne(w, leaf.(body := edit.body));
    }
  }

  lemma WrittenIsFlat(sheet: C.Sheet, r: nat, body: string, base: nat)
    ensures Flat(JoinTexts(M.KeptDecls(sheet, r, DeclsFrom(body, 0, base))))
  {
    hide WellMade, M.KeptDecls, DeclsFrom, JoinTexts;
    ParsedIsWellMade(body, 0, base);
    KeptIsWellMade(sheet, r, DeclsFrom(body, 0, base));
    JoinHasNoBraces(M.KeptDecls(sheet, r, DeclsFrom(body, 0, base)));
  }

  // ----- A whole file -----

  /** No bracket stays open over the rules after it, and every rule that is rewritten keeps its declarations whole or
      loses them. */
  predicate AllMended(norm: string -> string, css: string)
    requires Accepted(css)
  {
    var sheet := SheetOf(norm, css, Rules(css).value);
    forall k :: 0 <= k < |sheet| ==>
      && !Swallows(View(css, Rules(css).value[k]).body)
      && (EditFor(sheet, k).Replace? ==> Mended(sheet, k, View(css, Rules(css).value[k]).body))
  }

  lemma {:induction false} FlagsThin(w: Browser, norm: string -> string, css: string, k: nat)
    requires Accepted(css) && k <= |Rules(css).value| && AllMended(norm, css)
    ensures var rules := Rules(css).value;
            var sheet, leaves := SheetOf(norm, css, rules), Views(css, rules);
            && S.ItemsOf(FlagsFrom(w, sheet, leaves, k), false) == SaysAll(w, leaves[k..])
            && S.ItemsOf(FlagsFrom(w, sheet, leaves, k), true) == SaysAll(w, EditViews(leaves, Edits(norm, css), k))
    decreases |Rules(css).value| - k
  {
    hide Rules, LeafRule, RuleFlags, View, Mended, Swallows, EditFor, S.ItemsOf, Says;
    var rules := Rules(css).value;
    var sheet, leaves, edits := SheetOf(norm, css, rules), Views(css, rules), Edits(norm, css);
    if k == |rules| {
      NothingKept(C.Group("", ""), sheet, 0);
    } else {
      FlagsThin(w, norm, css, k + 1);
      RuleThins(w, norm, sheet, k, leaves[k], rules[k].start);
      ItemsOfConcat(RuleFlags(w, sheet, k, leaves[k]), FlagsFrom(w, sheet, leaves, k + 1), false);
      ItemsOfConcat(RuleFlags(w, sheet, k, leaves[k]), FlagsFrom(w, sheet, leaves, k + 1), true);
      SaysConcat(w, EditView(leaves[k], edits[k]), EditViews(leaves, edits, k + 1));
      assert leaves[k..][0] == leaves[k] && leaves[k..][1..] == leaves[k + 1..];
    }
  }

  function FileFlags(w: Browser, norm: string -> string, css: string): seq<S.Flagged>
    requires Accepted(css)
  {
    FlagsFrom(w, SheetOf(norm, css, Rules(css).value), Views(css, Rules(css).value), 0)
  }

  /** The promise of the script, on the browser's reading and read off the rules before the run: for every stylesheet
      whose edits fit and tear nothing, no element computes anything else from the rewritten file if and only if every
      declaration that the script loses, dead or overlooked, and that could win, has a stand-in. */
  lemma SeenSameExactly(w: Browser, norm: string -> string, css: string)
    requires Accepted(css) && Fitting(norm, css) && Tidy(norm, css) && AllMended(norm, css)
    ensures Accepted(Output(norm, css))
    ensures (forall e, prop :: Sees(w, Output(norm, css), e, prop) == Sees(w, css, e, prop))
            <==> S.Hidden(FileFlags(w, norm, css))
  {
    hide Rules, InText, Fitting, Tidy, AllMended, SheetOf, Output, Views, EditViews, Edits, S.Hidden, S.Computed,
      SaysAll, FlagsFrom, S.ItemsOf;
    var out, fs := Output(norm, css), FileFlags(w, norm, css);
    var leaves := Views(css, Rules(css).value);
    FileReadsAsDeduped(norm, css);
    FlagsThin(w, norm, css, 0);
    assert leaves[0..] == leaves;
    S.ThinningExactly(fs);
    if S.Hidden(fs) {
      forall e, prop
        ensures Sees(w, out, e, prop) == Sees(w, css, e, prop)
      {
        assert S.Computed(e, prop, S.ItemsOf(fs, true)) == S.Computed(e, prop, S.ItemsOf(fs, false));
      }
    } else {
      var e, prop :| S.Computed(e, prop, S.ItemsOf(fs, true)) != S.Computed(e, prop, S.ItemsOf(fs, false));
      assert Sees(w, out, e, prop) != Sees(w, css, e, prop);
    }
  }

  // ----- When the two readings agree -----

  predicate SameDecl(a: C.Decl, b: C.Decl) {
    a.prop == b.prop && a.important == b.important
  }

  ghost predicate Aligned(a: seq<C.Decl>, b: seq<C.Decl>) {
    |a| == |b| && forall k :: 0 <= k < |a| ==> SameDecl(a[k], b[k])
  }

  /** The script sees one declaration where the browser sees one, with its property and importance, and takes it
      whole. */
  ghost predicate AgreesOn(piece: string) {
    && Aligned(ReadPiece(piece), DeclsFrom(piece, 0, 0))
    && (DeclsFrom(piece, 0, 0) != [] ==> JoinTexts(DeclsFrom(piece, 0, 0)) == Strip(piece))
  }

  ghost predicate SameReading(body: string, i: nat)
    requires i <= |body|
    decreases |body| - i
  {
    i == |body| || Ends(body, i, []).Unfinished?
    || (AgreesOn(body[i..Ends(body, i, []).at]) && SameReading(body, Next(body, Ends(body, i, []).at)))
  }

  ghost predicate ReadsAlike(body: string) {
    Plain(body) && SameReading(body, 0)
  }

  /** Then nothing is torn. */
  lemma {:induction false} AlikeIsUntorn(sheet: C.Sheet, r: nat, body: string, i: nat)
    requires i <= |body| && SameReading(body, i)
    ensures Untorn(sheet, r, body, i)
    decreases |body| - i
  {
    hide Ends, AgreesOn, Torn;
    if i < |body| && Ends(body, i, []).End? {
      var j := Ends(body, i, []).at;
      AgreedIsUntorn(sheet, r, body[i..j]);
      AlikeIsUntorn(sheet, r, body, Next(body, j));
    }
  }

  lemma AgreedIsUntorn(sheet: C.Sheet, r: nat, piece: string)
    requires AgreesOn(piece)
    ensures !Torn(sheet, r, piece)
  {
    hide DeclsFrom, JoinTexts, Strip, SameDecl, M.KeptDecls, ReadPiece;
    var decls := DeclsFrom(piece, 0, 0);
    assert |decls| <= 1;
    KeptIsSame(sheet, r, decls);
    KeptIsFewer(sheet, r, decls);
  }

  lemma KeptIsFewer(sheet: C.Sheet, r: nat, decls: seq<C.Decl>)
    ensures |M.KeptDecls(sheet, r, decls)| <= |decls|
  {
    hide M.KeptDecls;
  }

  lemma AtAnyBase(piece: string, base: nat)
    ensures Aligned(DeclsFrom(piece, 0, 0), DeclsFrom(piece, 0, base))
  {
    hide DeclsFrom;
    var x, y := DeclsFrom(piece, 0, 0), DeclsFrom(piece, 0, base);
    BaseIsErased(piece, 0, 0, base);
    assert |x| == |EraseAll(x)| == |EraseAll(y)| == |y|;
    forall k | 0 <= k < |x|
      ensures SameDecl(x[k], y[k])
    {
      assert EraseAll(x)[k] == EraseAll(y)[k];
    }
  }

  /** What the flags of a rule say about its declarations. */
  ghost predicate Marks(fs: seq<S.Flagged>, group: C.Group, sheet: C.Sheet, r: nat, decls: seq<C.Decl>) {
    && |fs| == |decls|
    && forall k :: 0 <= k < |fs| ==> && fs[k].item.group == group && SameDecl(fs[k].item.decl, decls[k])
                                     && (fs[k].kept <==> !C.Dead(sheet, r, decls[k].prop))
  }

  lemma MarksConcat(a: seq<S.Flagged>, b: seq<S.Flagged>, group: C.Group, sheet: C.Sheet, r: nat, x: seq<C.Decl>,
                    y: seq<C.Decl>)
    requires Marks(a, group, sheet, r, x) && Marks(b, group, sheet, r, y)
    ensures Marks(a + b, group, sheet, r, x + y)
  {
    hide C.Dead, SameDecl;
  }

  lemma {:induction false} PiecesMark(group: C.Group, sheet: C.Sheet, r: nat, body: string, i: nat, base: nat)
    requires i <= |body| && Flat(body) && Closed(body, i) && SameReading(body, i)
    ensures Aligned(ReadPieces(body, i), DeclsFrom(body, i, base))
    ensures Marks(PieceFlags(group, sheet, r, body, i), group, sheet, r, DeclsFrom(body, i, base))
    decreases |body| - i
  {
    hide C.Dead, Ends, ReadPiece, DeclsFrom, KeptOf, Marks, AgreesOn, SameDecl, Flag;
    if i == |body| {
      NoMarks(group, sheet, r);
      NoDecls(body, base);
    } else {
      var j := Ends(body, i, []).at;
      var piece, next := body[i..j], Next(body, j);
      PiecesMark(group, sheet, r, body, next, base);
      DeclsSplit(body, i, i, j, base);
      PieceMarks(group, sheet, r, piece, base + i);
      MarksConcat(Flag(group, ReadPiece(piece), KeptOf(sheet, r, piece) != []), PieceFlags(group, sheet, r, body, next),
                  group, sheet, r, DeclsFrom(piece, 0, base + i), DeclsFrom(body, next, base));
    }
  }

  lemma NoMarks(group: C.Group, sheet: C.Sheet, r: nat)
    ensures Marks([], group, sheet, r, [])
  {
  }

  lemma PieceMarks(group: C.Group, sheet: C.Sheet, r: nat, piece: string, base: nat)
    requires AgreesOn(piece)
    ensures Aligned(ReadPiece(piece), DeclsFrom(piece, 0, base))
    ensures Marks(Flag(group, ReadPiece(piece), KeptOf(sheet, r, piece) != []), group, sheet, r,
                  DeclsFrom(piece, 0, base))
  {
    hide C.Dead, DeclsFrom, JoinTexts, Strip, ReadPiece;
    AtAnyBase(piece, base);
    var decls := DeclsFrom(piece, 0, 0);
    assert |decls| <= 1;
    assert decls != [] ==> decls[..0] == [];
    FlagMarks(group, sheet, r, ReadPiece(piece), DeclsFrom(piece, 0, base), KeptOf(sheet, r, piece) != []);
  }

  lemma {:induction false} KeptHas(sheet: C.Sheet, r: nat, decls: seq<C.Decl>, d: C.Decl)
    requires d in decls && !C.Dead(sheet, r, d.prop)
    ensures d in M.KeptDecls(sheet, r, decls)
  {
    hide C.Dead;
    var n := |decls| - 1;
    if d != decls[n] {
      KeptHas(sheet, r, decls[..n], d);
    }
  }

  lemma FlagMarks(group: C.Group, sheet: C.Sheet, r: nat, read: seq<C.Decl>, decls: seq<C.Decl>, kept: bool)
    requires Aligned(read, decls) && forall k :: 0 <= k < |decls| ==> (kept <==> !C.Dead(sheet, r, decls[k].prop))
    ensures Marks(Flag(group, read, kept), group, sheet, r, decls)
  {
    hide C.Dead, SameDecl;
  }

  /** In a rule that both read alike, exactly the dead declarations are lost. */
  lemma RuleMarks(w: Browser, norm: string -> string, sheet: C.Sheet, r: nat, leaf: Leaf, base: nat)
    requires r < |sheet| && sheet[r] == LeafRule(norm, leaf, base) && ReadsAlike(leaf.body)
    ensures Marks(RuleFlags(w, sheet, r, leaf), Home(w, leaf), sheet, r, sheet[r].decls)
  {
    hide C.Dead, DeclsFrom, PieceFlags, Closed, Flat, Gapes, ReadPieces, M.KeptDecls, Marks, Aligned, Flag, SameReading,
      JoinTexts;
    var decls, home := sheet[r].decls, Home(w, leaf);
    PiecesMark(home, sheet, r, leaf.body, 0, base);
    var edit := EditFor(sheet, r);
    forall k | 0 <= k < |decls|
      ensures edit.Keep? ==> !C.Dead(sheet, r, decls[k].prop)
      ensures edit.Delete? ==> C.Dead(sheet, r, decls[k].prop)
    {
      if C.Dead(sheet, r, decls[k].prop) {
        DeadIsRemoved(sheet, r, decls[k].prop);
      } else {
        KeptHas(sheet, r, decls, decls[k]);
      }
    }
    if !edit.Replace? {
      FlagMarks(home, sheet, r, ReadPieces(leaf.body, 0), decls, edit.Keep?);
    }
  }

  /** Both read every rule alike. */
  ghost predicate AllReadAlike(css: string)
    requires Accepted(css)
  {
    forall k :: 0 <= k < |Rules(css).value| ==> ReadsAlike(View(css, Rules(css).value[k]).body)
  }

  predicate OneGroup(norm: string -> string, a: Leaf, b: Leaf) {
    a.context == b.context && norm(a.prelude) == norm(b.prelude)
  }

  /** What the script takes for one selector group is one to the browser. */
  predicate GroupsAlike(w: Browser, norm: string -> string, css: string)
    requires Accepted(css)
  {
    var leaves := Views(css, Rules(css).value);
    forall i, k :: 0 <= i < |leaves| && 0 <= k < |leaves| && OneGroup(norm, leaves[i], leaves[k]) ==>
                     Home(w, leaves[i]) == Home(w, leaves[k])
  }

  /** For the script's own normalisation that is: rules with the same parts between commas, in any order and up to
      blanks, are of one group to the browser. */
  lemma GroupsAlikeExactly(w: Browser, css: string)
    requires Accepted(css)
    ensures var leaves := Views(css, Rules(css).value);
            GroupsAlike(w, N.Normalize, css) <==>
            forall i, k :: 0 <= i < |leaves| && 0 <= k < |leaves| && SameParts(leaves[i], leaves[k]) ==>
                             Home(w, leaves[i]) == Home(w, leaves[k])
  {
    hide Rules, View, N.Normalize, N.Parts, Home;
    var leaves := Views(css, Rules(css).value);
    forall i, k | 0 <= i < |leaves| && 0 <= k < |leaves|
      ensures OneGroup(N.Normalize, leaves[i], leaves[k]) <==> SameParts(leaves[i], leaves[k])
    {
      N.SameGroupExactly(leaves[i].prelude, leaves[k].prelude);
    }
  }

  predicate SameParts(a: Leaf, b: Leaf) {
    a.context == b.context && multiset(N.Parts(a.prelude)) == multiset(N.Parts(b.prelude))
  }

  lemma {:induction false} FlagsShrink(w: Browser, sheet: C.Sheet, leaves: seq<Leaf>, k: nat, m: nat)
    requires k <= m <= |leaves| == |sheet|
    ensures |FlagsFrom(w, sheet, leaves, m)| <= |FlagsFrom(w, sheet, leaves, k)|
    decreases m - k
  {
    hide RuleFlags;
    if k < m {
      FlagsShrink(w, sheet, leaves, k + 1, m);
    }
  }

  /** Every rule's flags mark its declarations. */
  ghost predicate AllMark(w: Browser, sheet: C.Sheet, leaves: seq<Leaf>) {
    && |leaves| == |sheet|
    && forall k :: 0 <= k < |sheet| ==>
         Marks(RuleFlags(w, sheet, k, leaves[k]), Home(w, leaves[k]), sheet, k, sheet[k].decls)
  }

  /** A lost declaration stands in some rule that has it dead. */
  lemma {:induction false} LostIn(w: Browser, sheet: C.Sheet, leaves: seq<Leaf>, k: nat, x: nat) returns (i: nat,
                                  j: nat)
    requires AllMark(w, sheet, leaves) && k <= |sheet| && x < |FlagsFrom(w, sheet, leaves, k)|
    requires !FlagsFrom(w, sheet, leaves, k)[x].kept
    ensures k <= i < |sheet| && j < |sheet[i].decls|
    ensures x < |FlagsFrom(w, sheet, leaves, k)| - |FlagsFrom(w, sheet, leaves, i + 1)|
    ensures var item, d := FlagsFrom(w, sheet, leaves, k)[x].item, sheet[i].decls[j];
            item.group == Home(w, leaves[i]) && SameDecl(item.decl, d) && C.Dead(sheet, i, d.prop)
    decreases |sheet| - k
  {
    hide RuleFlags, Home, C.Dead, SameDecl;
    var first := RuleFlags(w, sheet, k, leaves[k]);
    assert Marks(first, Home(w, leaves[k]), sheet, k, sheet[k].decls);
    if x < |first| {
      i, j := k, x;
    } else {
      i, j := LostIn(w, sheet, leaves, k + 1, x - |first|);
      assert FlagsFrom(w, sheet, leaves, k)[x] == FlagsFrom(w, sheet, leaves, k + 1)[x - |first|];
    }
  }

  /** What the script sees stands among what the browser sees, rule by rule. */
  lemma {:induction false} SeenIn(w: Browser, sheet: C.Sheet, leaves: seq<Leaf>, k: nat, m: nat,
                                  j: nat) returns (l: nat)
    requires AllMark(w, sheet, leaves) && k <= m < |sheet| && j < |sheet[m].decls|
    ensures |FlagsFrom(w, sheet, leaves, k)| - |FlagsFrom(w, sheet, leaves, m)| <= l < |FlagsFrom(w, sheet, leaves, k)|
    ensures var item := FlagsFrom(w, sheet, leaves, k)[l].item;
            item.group == Home(w, leaves[m]) && SameDecl(item.decl, sheet[m].decls[j])
    decreases m - k
  {
    hide RuleFlags, Home, C.Dead, SameDecl;
    var first := RuleFlags(w, sheet, k, leaves[k]);
    if k == m {
      assert Marks(first, Home(w, leaves[k]), sheet, k, sheet[k].decls);
      l := j;
    } else {
      var n := SeenIn(w, sheet, leaves, k + 1, m, j);
      l := |first| + n;
      assert FlagsFrom(w, sheet, leaves, k)[l] == FlagsFrom(w, sheet, leaves, k + 1)[n];
    }
  }

  /** A dead declaration is followed, in its group, by one that outlasts it. */
  lemma OutlastedBy(sheet: C.Sheet, i: nat, j: nat) returns (m: nat, n: nat)
    requires i < |sheet| && j < |sheet[i].decls| && C.Dead(sheet, i, sheet[i].decls[j].prop) && M.ImportantKept(sheet)
    ensures i < m < |sheet| && sheet[m].group == sheet[i].group && n < |sheet[m].decls|
    ensures SameDecl(sheet[m].decls[n], sheet[i].decls[j])
  {
    var d := sheet[i].decls[j];
    if d.important {
      assert M.HasImportant(sheet[i].decls, d.prop);
      hide C.Dead;
      m :| i < m < |sheet| && sheet[m].group == sheet[i].group && M.HasImportant(sheet[m].decls, d.prop);
      n :| 0 <= n < |sheet[m].decls| && sheet[m].decls[n].prop == d.prop && sheet[m].decls[n].important;
    } else {
      hide C.HasNormal, C.EndsNormal, C.Closes;
      m :| i < m < |sheet| && sheet[m].group == sheet[i].group && C.Closes(sheet, m, d.prop)
           && C.EndsNormal(sheet[m].decls, d.prop);
      M.EndsNormalHas(sheet[m].decls, d.prop);
      n := M.NormalAt(sheet[m].decls, d.prop);
    }
  }

  lemma NotLast(fs: seq<S.Flagged>, x: nat, l: nat)
    requires x < l < |fs| && S.Rival(fs, x, l) && S.Important(fs, x) == S.Important(fs, l)
    ensures !S.LastContender(fs, x)
  {
    if S.Contender(fs, x) {
      S.RivalContends(fs, x, l);
    }
  }

  /** So nothing shows. */
  lemma AlikeIsHidden(w: Browser, sheet: C.Sheet, leaves: seq<Leaf>)
    requires |leaves| == |sheet| && AllMark(w, sheet, leaves) && M.ImportantKept(sheet)
    requires forall i, k :: 0 <= i < |sheet| && 0 <= k < |sheet| && sheet[i].group == sheet[k].group ==>
                              Home(w, leaves[i]) == Home(w, leaves[k])
    ensures S.Hidden(FlagsFrom(w, sheet, leaves, 0))
  {
    hide FlagsFrom, AllMark, C.Dead, M.ImportantKept, Home, S.LastContender, S.StandsIn;
    var fs := FlagsFrom(w, sheet, leaves, 0);
    forall x: nat | 0 <= x < |fs| && !fs[x].kept
      ensures !S.LastContender(fs, x)
    {
      var i, j := LostIn(w, sheet, leaves, 0, x);
      var m, n := OutlastedBy(sheet, i, j);
      var l := SeenIn(w, sheet, leaves, 0, m, n);
      FlagsShrink(w, sheet, leaves, i + 1, m);
      NotLast(fs, x, l);
    }
  }

  /** Where the script reads what the browser reads, and loses no important declaration without a later one of its
      group, every element computes from the rewritten file what it computed from the original. */
  lemma PromiseHolds(w: Browser, norm: string -> string, css: string, e: M.Element, prop: string)
    requires Accepted(css) && Fitting(norm, css) && Tidy(norm, css) && AllReadAlike(css) && GroupsAlike(w, norm, css)
    requires M.ImportantKept(SheetOf(norm, css, Rules(css).value))
    ensures Accepted(Output(norm, css)) && Sees(w, Output(norm, css), e, prop) == Sees(w, css, e, prop)
  {
    hide Rules, Fitting, Tidy, Output, ReadsAlike, RuleFlags, M.ImportantKept, S.Hidden, FlagsFrom, Sees, Home, Marks,
      View, EditFor;
    var rules := Rules(css).value;
    var sheet, leaves := SheetOf(norm, css, rules), Views(css, rules);
    assert AllMended(norm, css) by {
      AlikeIsMended(norm, css);
    }
    forall k | 0 <= k < |sheet|
      ensures Marks(RuleFlags(w, sheet, k, leaves[k]), Home(w, leaves[k]), sheet, k, sheet[k].decls)
    {
      RuleMarks(w, norm, sheet, k, leaves[k], rules[k].start);
    }
    AlikeIsHidden(w, sheet, leaves);
    SeenSameExactly(w, norm, css);
  }

  lemma AlikeIsMended(norm: string -> string, css: string)
    requires Accepted(css) && AllReadAlike(css)
    ensures AllMended(norm, css)
  {
    hide Rules, View, SheetOf, SameReading, EditFor, Flat, Closed, Gapes, Untorn;
    var sheet := SheetOf(norm, css, Rules(css).value);
    forall k: nat | 0 <= k < |sheet|
      ensures !Swallows(View(css, Rules(css).value[k]).body) && Mended(sheet, k, View(css, Rules(css).value[k]).body)
    {
      var body := View(css, Rules(css).value[k]).body;
      assert ReadsAlike(body);
      ClosedIsShut(body, 0);
      AlikeIsUntorn(sheet, k, body, 0);
    }
  }
}
