/** What the script reads in a rule's body and what it writes back, said on the characters of the text. */
module CssWritten {
  import opened CssFile
  import opened CssText
  import opened PythonText
  import opened Wrappers
  import C = CssCascade
  import M = CssMeaning

  // ----- Declarations -----

  /** A stretch between separators that ends at a semicolon or with the body. */
  predicate Stretch(body: string, i: nat, j: nat) {
    && i <= j <= |body| && (i == 0 || body[i - 1] in ";{}")
    && (forall k :: i <= k < j ==> body[k] !in ";{}")
    && (j == |body| || body[j] == ';')
  }

  /** A text that the script takes for a declaration: what comes before its first colon, in lower case and without the
      blanks around it, is neither empty nor begins a comment. */
  predicate Declaration(text: string, prop: string) {
    exists colon: nat :: colon < |text| && NamesProp(text, prop, colon)
  }

  predicate NamesProp(text: string, prop: string, colon: nat)
    requires colon < |text|
  {
    && text[colon] == ':' && ':' !in text[..colon] && prop == Lower(Strip(text[..colon]))
    && prop != "" && !("/*" <= prop)
  }

  predicate StandsAt(s: string, k: nat, needle: string) {
    k + |needle| <= |s| && s[k..k + |needle|] == needle
  }

  /** The mark, in any case, without a blank in it. */
  predicate Marked(text: string) {
    exists k: nat | k <= |text| :: StandsAt(Lower(text), k, "!important")
  }

  /** The declaration read from a stretch. */
  ghost predicate ReadFrom(body: string, base: nat, i: nat, d: C.Decl) {
    exists j: nat ::
      && Stretch(body, i, j) && d.text == Strip(body[i..j]) && d.at == base + i
      && Declaration(d.text, d.prop) && d.important == Marked(d.text)
  }

  /** The declarations read, in the order of their stretches, from `from` on. */
  ghost predicate AllRead(body: string, base: nat, from: nat, starts: seq<nat>, decls: seq<C.Decl>) {
    && |starts| == |decls|
    && (forall k :: 0 <= k < |starts| ==> from <= starts[k] && ReadFrom(body, base, starts[k], decls[k]))
    && (forall k, l :: 0 <= k < l < |starts| ==> starts[k] < starts[l])
    && (forall i, d :: from <= i <= |body| && ReadFrom(body, base, i, d) ==> i in starts)
  }

  lemma {:induction false} ContainsIs(s: string, needle: string)
    ensures Contains(s, needle) <==> exists k: nat | k <= |s| :: StandsAt(s, k, needle)
  {
    if needle <= s {
      assert StandsAt(s, 0, needle);
    } else if s != "" {
      var t := s[1..];
      ContainsIs(t, needle);
      forall k: nat | k <= |t|
        ensures StandsAt(t, k, needle) <==> StandsAt(s, k + 1, needle)
      {
        assert k + 1 + |needle| <= |s| ==> s[k + 1..k + 1 + |needle|] == t[k..k + |needle|];
      }
      if k: nat :| k <= |s| && StandsAt(s, k, needle) {
        assert k > 0 && StandsAt(t, k - 1, needle);
      }
    }
  }

  lemma MarkedIs(text: string)
    ensures Contains(Lower(text), "!important") <==> Marked(text)
  {
    hide Contains;
    ContainsIs(Lower(text), "!important");
  }

  lemma DeclarationIs(text: string, prop: string)
    ensures IsDecl(text) && prop == Prop(text) <==> Declaration(text, prop)
  {
    hide Strip, Lower;
    var n := Find(text, ':');
    if n < |text| {
      assert ':' in text;
      if IsDecl(text) && prop == Prop(text) {
        assert NamesProp(text, prop, n);
      }
    }
    if Declaration(text, prop) {
      var colon: nat :| colon < |text| && NamesProp(text, prop, colon);
      OneColon(text, colon);
    }
  }

  lemma OneColon(text: string, colon: nat)
    requires colon < |text| && text[colon] == ':' && ':' !in text[..colon]
    ensures Find(text, ':') == colon && ':' in text
  {
  }

  lemma StretchEnds(body: string, i: nat, j: nat)
    requires Stretch(body, i, j)
    ensures Run(body, i) == j
  {
    hide Run;
    var m := Run(body, i);
    assert m < j ==> IsSeparator(body[m]);
    assert j < m ==> !IsSeparator(body[j]);
  }

  lemma ReadIs(body: string, base: nat, i: nat, d: C.Decl)
    requires i <= |body| && (i == 0 || IsSeparator(body[i - 1]))
    ensures DeclAt(body, i, Run(body, i), base) == [d] <==> ReadFrom(body, base, i, d)
  {
    hide Run, Strip, Prop, Contains, Declaration, Marked, IsDecl;
    var j := Run(body, i);
    MarkedIs(Strip(body[i..j]));
    DeclarationIs(Strip(body[i..j]), Prop(Strip(body[i..j])));
    if ReadFrom(body, base, i, d) {
      var m: nat :| && Stretch(body, i, m) && d.text == Strip(body[i..m]) && d.at == base + i
                    && Declaration(d.text, d.prop) && d.important == Marked(d.text);
      StretchEnds(body, i, m);
      DeclarationIs(d.text, d.prop);
    }
    if DeclAt(body, i, j, base) == [d] {
      assert Stretch(body, i, j);
    }
  }

  lemma NothingAtEnd(body: string, base: nat, d: C.Decl)
    ensures !ReadFrom(body, base, |body|, d)
  {
    assert body[|body|..] == "";
  }

  /** No other stretch begins inside one. */
  lemma NoneInside(body: string, base: nat, i: nat, k: nat, d: C.Decl)
    requires i < k <= |body| && k <= Run(body, i)
    ensures !ReadFrom(body, base, k, d)
  {
    hide Run, Strip, Declaration, Marked;
    assert !IsSeparator(body[k - 1]);
  }

  lemma {:induction false} DeclsAreRead(body: string, i: nat, base: nat) returns (starts: seq<nat>)
    requires i <= |body| && (i == 0 || i == |body| || IsSeparator(body[i - 1]))
    ensures AllRead(body, base, i, starts, DeclsFrom(body, i, base))
    decreases |body| - i
  {
    hide Run, ReadFrom, DeclAt;
    starts := [];
    if i == |body| {
      forall d
        ensures !ReadFrom(body, base, i, d)
      {
        NothingAtEnd(body, base, d);
      }
    } else {
      var j := Run(body, i);
      var rest := DeclsAreRead(body, Next(body, j), base);
      forall k: nat, d | i < k < Next(body, j)
        ensures !ReadFrom(body, base, k, d)
      {
        NoneInside(body, base, i, k, d);
      }
      forall d
        ensures DeclAt(body, i, j, base) == [d] <==> ReadFrom(body, base, i, d)
      {
        ReadIs(body, base, i, d);
      }
      AtMostOne(body, i, j, base);
      hide AllRead;
      if DeclAt(body, i, j, base) == [] {
        starts := rest;
        SkipOne(body, base, i, Next(body, j), rest, DeclsFrom(body, Next(body, j), base));
        assert [] + DeclsFrom(body, Next(body, j), base) == DeclsFrom(body, Next(body, j), base);
      } else {
        starts := [i] + rest;
        TakeOne(body, base, i, Next(body, j), rest, DeclsFrom(body, Next(body, j), base), DeclAt(body, i, j, base)[0]);
      }
    }
  }

  lemma AtMostOne(body: string, i: nat, j: nat, base: nat)
    requires i <= j <= |body|
    ensures |DeclAt(body, i, j, base)| <= 1
  {
  }

  lemma SkipOne(body: string, base: nat, i: nat, next: nat, starts: seq<nat>, decls: seq<C.Decl>)
    requires i < next && AllRead(body, base, next, starts, decls)
    requires forall k: nat, d :: i <= k < next ==> !ReadFrom(body, base, k, d)
    ensures AllRead(body, base, i, starts, decls)
  {
    hide ReadFrom;
  }

  lemma TakeOne(body: string, base: nat, i: nat, next: nat, starts: seq<nat>, decls: seq<C.Decl>, d: C.Decl)
    requires i < next && AllRead(body, base, next, starts, decls) && ReadFrom(body, base, i, d)
    requires forall k: nat, d :: i < k < next ==> !ReadFrom(body, base, k, d)
    ensures AllRead(body, base, i, [i] + starts, [d] + decls)
  {
    hide ReadFrom;
    var all := [i] + starts;
    assert all[0] == i && forall k :: 0 < k < |all| ==> all[k] == starts[k - 1];
    forall k: nat, e | i <= k <= |body| && ReadFrom(body, base, k, e)
      ensures k in all
    {
      if k != i {
        assert k in starts;
      }
    }
  }

  /** The declarations that the script reads in a body: one for every stretch between separators that ends at a
      semicolon or with the body and whose text is a declaration, in order, and no other. */
  lemma DeclsExactly(body: string, base: nat) returns (starts: seq<nat>)
    ensures AllRead(body, base, 0, starts, DeclsFrom(body, 0, base))
  {
    starts := DeclsAreRead(body, 0, base);
  }

  // ----- What is written -----

  /** The text between semicolons. */
  function Pieces(s: string): (pieces: seq<string>)
    decreases |s|
  {
    var n := Find(s, ';');
    if n == |s| then [s] else [s[..n]] + Pieces(s[n + 1..])
  }

  /** A rewritten body is the kept texts with a semicolon between any two, and nothing else. */
  lemma {:induction false} JoinExactly(decls: seq<C.Decl>)
    requires decls != [] && forall k :: 0 <= k < |decls| ==> ';' !in decls[k].text
    ensures var pieces := Pieces(JoinTexts(decls));
            |pieces| == |decls| && forall k :: 0 <= k < |decls| ==> pieces[k] == decls[k].text
  {
    hide Find, Pieces;
    var first := decls[0].text;
    if |decls| == 1 {
      NoPiece(first);
    } else {
      hide JoinTexts;
      JoinExactly(decls[1..]);
      FirstPiece(first, JoinTexts(decls[1..]));
      JoinFirst(decls);
    }
  }

  lemma JoinFirst(decls: seq<C.Decl>)
    requires |decls| > 1
    ensures JoinTexts(decls) == decls[0].text + (";" + JoinTexts(decls[1..]))
  {
  }

  lemma NoPiece(s: string)
    requires ';' !in s
    ensures Pieces(s) == [s]
  {
  }

  lemma FirstPiece(a: string, b: string)
    requires ';' !in a
    ensures Pieces(a + (";" + b)) == [a] + Pieces(b)
  {
    var s := a + (";" + b);
    assert s[|a|] == ';' && s[..|a|] == a && s[|a| + 1..] == b;
    assert Find(s, ';') == |a|;
  }

  /** The cut for a removal begins after the last character before the prelude that is no space, newline or tab. */
  lemma {:induction false} WalkBackExactly(css: string, k: nat)
    requires k <= |css|
    ensures var from := WalkBack(css, k);
            && (forall q :: from <= q < k ==> css[q] == ' ' || css[q] == '\n' || css[q] == '\t')
            && (from > 0 ==> css[from - 1] != ' ' && css[from - 1] != '\n' && css[from - 1] != '\t')
  {
    if k > 0 && css[k - 1] in {' ', '\n', '\t'} {
      WalkBackExactly(css, k - 1);
    }
  }

  /** Exactly the positions of the declarations that are not dead, in order. */
  ghost predicate Alive(sheet: C.Sheet, i: nat, decls: seq<C.Decl>, at: seq<nat>) {
    && (forall k, l :: 0 <= k < l < |at| ==> at[k] < at[l])
    && (forall k :: 0 <= k < |at| ==> at[k] < |decls| && !C.Dead(sheet, i, decls[at[k]].prop))
    && (forall k :: 0 <= k < |decls| && !C.Dead(sheet, i, decls[k].prop) ==> k in at)
  }

  lemma {:induction false} KeptAreAlive(sheet: C.Sheet, i: nat, decls: seq<C.Decl>) returns (at: seq<nat>)
    ensures Alive(sheet, i, decls, at)
    ensures var kept := M.KeptDecls(sheet, i, decls);
            |kept| == |at| && forall k :: 0 <= k < |at| ==> kept[k] == decls[at[k]]
  {
    hide C.Dead;
    at := [];
    if decls != [] {
      var n := |decls| - 1;
      var before := KeptAreAlive(sheet, i, decls[..n]);
      at := if C.Dead(sheet, i, decls[n].prop) then before else before + [n];
      AliveNext(sheet, i, decls, before);
    }
  }

  lemma AliveNext(sheet: C.Sheet, i: nat, decls: seq<C.Decl>, before: seq<nat>)
    requires decls != [] && Alive(sheet, i, decls[..|decls| - 1], before)
    ensures var n := |decls| - 1;
            Alive(sheet, i, decls, if C.Dead(sheet, i, decls[n].prop) then before else before + [n])
  {
    hide C.Dead;
    var n := |decls| - 1;
    var init, at := decls[..n], if C.Dead(sheet, i, decls[n].prop) then before else before + [n];
    forall k | 0 <= k < |decls| && !C.Dead(sheet, i, decls[k].prop)
      ensures k in at
    {
      if k < n {
        assert init[k] == decls[k];
        assert k in before;
      } else {
        assert at[|before|] == n;
      }
    }
    assert forall k :: 0 <= k < |before| ==> init[before[k]] == decls[before[k]];
  }

  /** What happens to a rule: it is left alone exactly when none of its declarations is dead, removed exactly when it
      has some and all are, and otherwise rewritten to the texts of those that are not dead, in order, with a semicolon
      between any two. */
  lemma EditExactly(sheet: C.Sheet, i: nat) returns (at: seq<nat>)
    requires i < |sheet| && forall k :: 0 <= k < |sheet[i].decls| ==> ';' !in sheet[i].decls[k].text
    ensures Alive(sheet, i, sheet[i].decls, at)
    ensures var decls := sheet[i].decls;
            && (EditFor(sheet, i).Keep? <==> forall k :: 0 <= k < |decls| ==> !C.Dead(sheet, i, decls[k].prop))
            && (EditFor(sheet, i).Delete? <==>
                decls != [] && forall k :: 0 <= k < |decls| ==> C.Dead(sheet, i, decls[k].prop))
            && (EditFor(sheet, i).Replace? ==>
                  var pieces := Pieces(EditFor(sheet, i).body);
                  |pieces| == |at| && forall k :: 0 <= k < |at| ==> pieces[k] == decls[at[k]].text)
  {
    hide C.Dead, JoinTexts, M.KeptDecls, Pieces;
    at := KeptAreAlive(sheet, i, sheet[i].decls);
    AllAlive(sheet, i, sheet[i].decls, at);
    var kept := M.KeptDecls(sheet, i, sheet[i].decls);
    if kept != [] {
      JoinExactly(kept);
    }
  }

  lemma AllAlive(sheet: C.Sheet, i: nat, decls: seq<C.Decl>, at: seq<nat>)
    requires Alive(sheet, i, decls, at)
    ensures |at| == |decls| <==> forall k :: 0 <= k < |decls| ==> !C.Dead(sheet, i, decls[k].prop)
    ensures at == [] <==> forall k :: 0 <= k < |decls| ==> C.Dead(sheet, i, decls[k].prop)
  {
    hide C.Dead;
    assert at != [] ==> !C.Dead(sheet, i, decls[at[0]].prop);
    Climbs(at, |decls|);
    if forall k :: 0 <= k < |decls| ==> !C.Dead(sheet, i, decls[k].prop) {
      Covers(at, |decls|);
    }
    if |at| == |decls| {
      forall k | 0 <= k < |decls|
        ensures !C.Dead(sheet, i, decls[k].prop)
      {
        assert at[k] == k;
      }
    }
  }

  /** Positions that increase below a bound are at least their own index, and equal to it when there are as many as the
      bound. */
  lemma {:induction false} Climbs(at: seq<nat>, n: nat)
    requires (forall k, l :: 0 <= k < l < |at| ==> at[k] < at[l]) && forall k :: 0 <= k < |at| ==> at[k] < n
    ensures |at| <= n && (|at| == n ==> forall k :: 0 <= k < n ==> at[k] == k)
  {
    if at != [] {
      var m := |at| - 1;
      Climbs(at[..m], at[m]);
    }
  }

  lemma {:induction false} Covers(at: seq<nat>, n: nat)
    requires (forall k, l :: 0 <= k < l < |at| ==> at[k] < at[l]) && forall k :: 0 <= k < |at| ==> at[k] < n
    requires forall k :: 0 <= k < n ==> k in at
    ensures |at| == n
  {
    Climbs(at, n);
    if n > 0 {
      assert n - 1 in at;
      var m := |at| - 1;
      assert at[m] == n - 1;
      forall k | 0 <= k < n - 1
        ensures k in at[..m]
      {
        assert k in at;
      }
      Covers(at[..m], n - 1);
    }
  }
}
