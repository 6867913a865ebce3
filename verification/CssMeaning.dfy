/** What removing the dead declarations does to the cascade, and to itself. */
module CssMeaning {
  import opened CssCascade
  import opened Wrappers

  // ----- The cascade -----

  /** A declaration in the order of appearance, with the rule it stands in. */
  datatype Item = Item(rule: nat, group: Group, decl: Decl)

  /** The groups an element matches, and how they weigh for it: origin, layer and specificity are the
      same for every rule of a group, separately for normal and important declarations. */
  datatype Weight = Weight(normal: int, important: int)
  type Element = map<Group, Weight>

  function RuleItems(rule: nat, group: Group, decls: seq<Decl>): (items: seq<Item>)
    ensures |items| == |decls|
  {
    seq(|decls|, k requires 0 <= k < |decls| => Item(rule, group, decls[k]))
  }

  /** The declarations of the first `n` rules, in order of appearance. */
  function Items(sheet: Sheet, n: nat): seq<Item>
    requires n <= |sheet|
  {
    if n == 0 then [] else Items(sheet, n - 1) + RuleItems(n - 1, sheet[n - 1].group, sheet[n - 1].decls)
  }

  predicate Applies(e: Element, prop: string, item: Item) {
    item.group in e && item.decl.prop == prop
  }

  function WeightOf(e: Element, item: Item): int
    requires item.group in e
  {
    if item.decl.important then e[item.group].important else e[item.group].normal
  }

  /** `a` takes precedence over `b` whatever their order of appearance. */
  predicate Outranks(e: Element, a: Item, b: Item)
    requires a.group in e && b.group in e
  {
    (a.decl.important && !b.decl.important)
    || (a.decl.important == b.decl.important && WeightOf(e, a) > WeightOf(e, b))
  }

  /** The cascade (section 6.1 of CSS Cascading and Inheritance Level 4): importance, then weight, then
      the later declaration. */
  function Win(e: Element, prop: string, items: seq<Item>): (r: Option<Item>)
    ensures r.Some? ==> r.value in items && Applies(e, prop, r.value)
  {
    if items == [] then None
    else
      var rest := Win(e, prop, items[1..]);
      if Applies(e, prop, items[0]) && (rest.None? || Outranks(e, items[0], rest.value)) then Some(items[0]) else rest
  }

  /** Of two declarations that apply, an important one wins over a normal one; of one importance the heavier wins, by
      the weights for that importance, and of one weight the later. */
  lemma CascadeOfTwo(e: Element, prop: string, a: Item, b: Item)
    requires Applies(e, prop, a) && Applies(e, prop, b)
    ensures var x, y := e[a.group], e[b.group];
            Win(e, prop, [a, b]) == Some(
              if a.decl.important != b.decl.important then (if a.decl.important then a else b)
              else if (if a.decl.important then x.important > y.important else x.normal > y.normal) then a
              else b)
  {
    assert [a, b][1..] == [b] && [b][1..] == [];
    assert Win(e, prop, [b]) == Some(b);
  }

  function Winner(sheet: Sheet, e: Element, prop: string): Option<Decl> {
    match Win(e, prop, Items(sheet, |sheet|))
    case Some(item) => Some(item.decl)
    case None => None
  }

  // ----- The rewrite, rule by rule -----

  /** The declarations of rule `i` that survive: all of a property or none of it. */
  function KeptDecls(sheet: Sheet, i: nat, decls: seq<Decl>): (kept: seq<Decl>)
    ensures |kept| <= |decls|
  {
    if decls == [] then []
    else
      var init := KeptDecls(sheet, i, decls[..|decls| - 1]);
      if Dead(sheet, i, decls[|decls| - 1].prop) then init else init + [decls[|decls| - 1]]
  }

  /** A rule disappears when it had declarations and lost them all. */
  predicate Survives(sheet: Sheet, i: nat)
    requires i < |sheet|
  {
    sheet[i].decls == [] || KeptDecls(sheet, i, sheet[i].decls) != []
  }

  /** The surviving ones of the first `n` rules. */
  function Survivors(sheet: Sheet, n: nat): (s: seq<nat>)
    requires n <= |sheet|
    ensures |s| <= n && forall k :: 0 <= k < |s| ==> s[k] < n && Survives(sheet, s[k])
  {
    if n == 0 then []
    else if Survives(sheet, n - 1) then Survivors(sheet, n - 1) + [n - 1]
    else Survivors(sheet, n - 1)
  }

  function Rewritten(sheet: Sheet, s: seq<nat>): (out: Sheet)
    requires forall k :: 0 <= k < |s| ==> s[k] < |sheet|
    ensures |out| == |s|
  {
    seq(|s|, k requires 0 <= k < |s| => Rule(sheet[s[k]].group, KeptDecls(sheet, s[k], sheet[s[k]].decls)))
  }

  function Dedupe(sheet: Sheet): Sheet {
    Rewritten(sheet, Survivors(sheet, |sheet|))
  }

  method KeepDecls(decls: seq<Decl>, dead: set<string>, ghost sheet: Sheet, ghost i: nat) returns (kept: seq<Decl>)
    requires forall prop :: prop in dead <==> Dead(sheet, i, prop)
    ensures kept == KeptDecls(sheet, i, decls)
  {
    hide Dead;
    kept := [];
    for j := 0 to |decls|
      invariant kept == KeptDecls(sheet, i, decls[..j])
    {
      assert decls[..j + 1][..j] == decls[..j];
      if decls[j].prop !in dead {
        kept := kept + [decls[j]];
      }
    }
    assert decls[..|decls|] == decls;
  }

  /** One rule of the rewrite: untouched, thinned, or gone. */
  method RewriteRule(sheet: Sheet, i: nat, byRule: map<nat, set<string>>) returns (rules: seq<Rule>, removed: nat)
    requires i < |sheet| && Marked(sheet, byRule, i) && (i in byRule ==> byRule[i] != {})
    ensures rules == if Survives(sheet, i) then [Rule(sheet[i].group, KeptDecls(sheet, i, sheet[i].decls))] else []
    ensures removed == |sheet[i].decls| - |KeptDecls(sheet, i, sheet[i].decls)|
  {
    var rule := sheet[i];
    if i !in byRule {
      NothingDead(sheet, i, rule.decls);
      return [rule], 0;
    }
    var prop :| prop in byRule[i];
    assert HasNormal(rule.decls, prop);
    var kept := KeepDecls(rule.decls, byRule[i], sheet, i);
    removed := |rule.decls| - |kept|;
    rules := if kept != [] then [Rule(rule.group, kept)] else [];
  }

  /** `main` between parsing and printing: analyse, then rewrite every marked rule. Nothing is lost
      uncounted: declarations and rules kept plus removed add up to the input's. */
  method Remove(sheet: Sheet) returns (out: Sheet, removedDecls: nat, removedRules: nat)
    ensures out == Dedupe(sheet)
    ensures |Items(sheet, |sheet|)| == |Items(out, |out|)| + removedDecls
    ensures |sheet| == |out| + removedRules
  {
    hide Dead, Marked, KeptDecls, Survives, Items;
    var byRule := Analyse(sheet);
    out, removedDecls, removedRules := [], 0, 0;
    NoItems(sheet, out);
    for i := 0 to |sheet|
      invariant out == Rewritten(sheet, Survivors(sheet, i))
      invariant |Items(sheet, i)| == |Items(out, |out|)| + removedDecls
      invariant i == |out| + removedRules
    {
      var rules, removed := RewriteRule(sheet, i, byRule);
      ItemsStep(sheet, i);
      if rules == [] {
        LostAll(sheet, i);
        removedRules := removedRules + 1;
      } else {
        ItemsSnoc(out, rules[0]);
      }
      out := out + rules;
      removedDecls := removedDecls + removed;
    }
  }

  lemma NoItems(a: Sheet, b: Sheet)
    requires b == []
    ensures Items(a, 0) == [] && Items(b, |b|) == []
  {
  }

  lemma ItemsStep(sheet: Sheet, i: nat)
    requires i < |sheet|
    ensures |Items(sheet, i + 1)| == |Items(sheet, i)| + |sheet[i].decls|
  {
  }

  lemma LostAll(sheet: Sheet, i: nat)
    requires i < |sheet| && !Survives(sheet, i)
    ensures KeptDecls(sheet, i, sheet[i].decls) == []
  {
  }

  lemma {:induction false} NothingDead(sheet: Sheet, i: nat, decls: seq<Decl>)
    requires forall prop :: !Dead(sheet, i, prop)
    ensures KeptDecls(sheet, i, decls) == decls
  {
    hide Dead;
    if decls != [] {
      NothingDead(sheet, i, decls[..|decls| - 1]);
    }
  }

  lemma {:induction false} ItemsSnoc(sheet: Sheet, rule: Rule)
    ensures |Items(sheet + [rule], |sheet| + 1)| == |Items(sheet, |sheet|)| + |rule.decls|
  {
    ItemsPrefix(sheet, sheet + [rule], |sheet|);
  }

  lemma {:induction false} ItemsPrefix(a: Sheet, b: Sheet, n: nat)
    requires n <= |a| && n <= |b| && a[..n] == b[..n]
    ensures Items(a, n) == Items(b, n)
  {
    if n > 0 {
      assert a[..n][n - 1] == b[..n][n - 1] && a[..n - 1] == a[..n][..n - 1] && b[..n - 1] == b[..n][..n - 1];
      ItemsPrefix(a, b, n - 1);
    }
  }

  // ----- Which items survive -----

  predicate Dropped(sheet: Sheet, item: Item) {
    Dead(sheet, item.rule, item.decl.prop)
  }

  function Keep(sheet: Sheet, items: seq<Item>): seq<Item> {
    if items == [] then []
    else if Dropped(sheet, items[0]) then Keep(sheet, items[1..])
    else [items[0]] + Keep(sheet, items[1..])
  }

  lemma {:induction false} KeepConcat(sheet: Sheet, a: seq<Item>, b: seq<Item>)
    ensures Keep(sheet, a + b) == Keep(sheet, a) + Keep(sheet, b)
  {
    hide Dropped;
    if a == [] {
      assert a + b == b;
    } else {
      KeepConcat(sheet, a[1..], b);
      assert (a + b)[1..] == a[1..] + b && (a + b)[0] == a[0];
      assert [a[0]] + (Keep(sheet, a[1..]) + Keep(sheet, b)) == ([a[0]] + Keep(sheet, a[1..])) + Keep(sheet, b);
    }
  }

  lemma {:induction false} KeepRule(sheet: Sheet, i: nat, group: Group, decls: seq<Decl>)
    ensures Keep(sheet, RuleItems(i, group, decls)) == RuleItems(i, group, KeptDecls(sheet, i, decls))
  {
    hide Dead;
    if decls != [] {
      var init, last := decls[..|decls| - 1], decls[|decls| - 1];
      KeepRule(sheet, i, group, init);
      assert RuleItems(i, group, decls) == RuleItems(i, group, init) + [Item(i, group, last)];
      KeepConcat(sheet, RuleItems(i, group, init), [Item(i, group, last)]);
      assert [Item(i, group, last)][1..] == [];
    }
  }

  /** The same declarations in the same groups, whatever the rule numbers. */
  ghost predicate Same(a: seq<Item>, b: seq<Item>) {
    |a| == |b| && forall k :: 0 <= k < |a| ==> a[k].group == b[k].group && a[k].decl == b[k].decl
  }

  /** The output sheet's declarations are the input's without the dropped ones, although emptied rules
      are gone and the others renumbered. */
  lemma {:induction false} DedupeItems(sheet: Sheet, n: nat)
    requires n <= |sheet|
    ensures
      var out := Rewritten(sheet, Survivors(sheet, n));
      Same(Items(out, |out|), Keep(sheet, Items(sheet, n)))
  {
    hide Dead, KeptDecls, Keep;
    if n == 0 {
      KeepNothing(sheet);
    } else {
      var i, rule := n - 1, sheet[n - 1];
      var before, out := Rewritten(sheet, Survivors(sheet, i)), Rewritten(sheet, Survivors(sheet, n));
      DedupeItems(sheet, i);
      KeepConcat(sheet, Items(sheet, i), RuleItems(i, rule.group, rule.decls));
      KeepRule(sheet, i, rule.group, rule.decls);
      if Survives(sheet, i) {
        assert out == before + [Rule(rule.group, KeptDecls(sheet, i, rule.decls))];
        ItemsPrefix(before, out, |before|);
      } else {
        assert out == before;
      }
    }
  }

  lemma KeepNothing(sheet: Sheet)
    ensures Keep(sheet, []) == []
  {
  }

  lemma {:induction false} WinSame(e: Element, prop: string, a: seq<Item>, b: seq<Item>)
    requires Same(a, b)
    ensures
      var x, y := Win(e, prop, a), Win(e, prop, b);
      (x.Some? <==> y.Some?) && (x.Some? ==> x.value.group == y.value.group && x.value.decl == y.value.decl)
  {
    if a != [] {
      WinSame(e, prop, a[1..], b[1..]);
    }
  }

  /** So the winner in the output is the winner among the kept items. */
  lemma DedupeWinner(sheet: Sheet, e: Element, prop: string)
    ensures
      var kept := Win(e, prop, Keep(sheet, Items(sheet, |sheet|)));
      Winner(Dedupe(sheet), e, prop) == if kept.Some? then Some(kept.value.decl) else None
  {
    hide Win, Items, Keep, Survivors, Rewritten;
    DedupeItems(sheet, |sheet|);
    WinSame(e, prop, Items(Dedupe(sheet), |Dedupe(sheet)|), Keep(sheet, Items(sheet, |sheet|)));
  }

  // ----- Meaning -----

  predicate HasImportant(decls: seq<Decl>, prop: string) {
    exists k :: 0 <= k < |decls| && decls[k].prop == prop && decls[k].important
  }

  /** Every rule that loses an important declaration is followed, in its group, by one that keeps one. */
  ghost predicate ImportantKept(sheet: Sheet) {
    forall i, prop :: 0 <= i < |sheet| && Dead(sheet, i, prop) && HasImportant(sheet[i].decls, prop) ==>
      exists m ::
        && i < m < |sheet| && sheet[m].group == sheet[i].group
        && HasImportant(sheet[m].decls, prop) && !Dead(sheet, m, prop)
  }

  /** What the script's description assumes: no rule mixes important and normal declarations of a dead property. */
  ghost predicate NoMixing(sheet: Sheet) {
    forall i, prop :: 0 <= i < |sheet| && Dead(sheet, i, prop) ==> !HasImportant(sheet[i].decls, prop)
  }

  lemma NoMixingKeepsImportant(sheet: Sheet)
    requires NoMixing(sheet)
    ensures ImportantKept(sheet)
  {
    hide Dead, HasImportant;
  }

  // ----- Where items stand -----

  lemma {:induction false} ItemOf(sheet: Sheet, n: nat, k: nat)
    requires n <= |sheet| && k < |Items(sheet, n)|
    ensures
      var item := Items(sheet, n)[k];
      item.rule < n && item.group == sheet[item.rule].group && item.decl in sheet[item.rule].decls
  {
    if k < |Items(sheet, n - 1)| {
      ItemOf(sheet, n - 1, k);
    }
  }

  lemma {:induction false} ItemsAscend(sheet: Sheet, n: nat, k: nat, l: nat)
    requires n <= |sheet| && k < l < |Items(sheet, n)|
    ensures Items(sheet, n)[k].rule <= Items(sheet, n)[l].rule
  {
    if k < |Items(sheet, n - 1)| {
      ItemOf(sheet, n - 1, k);
      if l < |Items(sheet, n - 1)| {
        ItemsAscend(sheet, n - 1, k, l);
      }
    }
  }

  /** The position of declaration `j` of rule `i`. */
  lemma {:induction false} PositionOf(sheet: Sheet, n: nat, i: nat, j: nat) returns (k: nat)
    requires i < n <= |sheet| && j < |sheet[i].decls|
    ensures k < |Items(sheet, n)| && Items(sheet, n)[k] == Item(i, sheet[i].group, sheet[i].decls[j])
  {
    if i == n - 1 {
      k := |Items(sheet, n - 1)| + j;
    } else {
      k := PositionOf(sheet, n - 1, i, j);
    }
  }

  lemma {:induction false} NormalAt(decls: seq<Decl>, prop: string) returns (j: nat)
    requires HasNormal(decls, prop)
    ensures j < |decls| && decls[j].prop == prop && !decls[j].important
  {
    var n := |decls| - 1;
    if decls[n].prop == prop && !decls[n].important {
      j := n;
    } else {
      j := NormalAt(decls[..n], prop);
    }
  }

  lemma {:induction false} EndsNormalHas(decls: seq<Decl>, prop: string)
    requires EndsNormal(decls, prop)
    ensures HasNormal(decls, prop)
  {
    if decls[|decls| - 1].prop != prop {
      EndsNormalHas(decls[..|decls| - 1], prop);
    }
  }

  /** The rule that closes a property is never dead in it. */
  lemma ClosingRuleIsKept(sheet: Sheet, last: nat, prop: string)
    requires Closes(sheet, last, prop)
    ensures !Dead(sheet, last, prop)
  {
    hide Declares, HasNormal, EndsNormal;
  }

  lemma ImportantIn(decls: seq<Decl>, d: Decl)
    requires d in decls && d.important
    ensures HasImportant(decls, d.prop)
  {
  }

  lemma ImportantAt(decls: seq<Decl>, prop: string) returns (j: nat)
    requires HasImportant(decls, prop)
    ensures j < |decls| && decls[j].prop == prop && decls[j].important
  {
    j :| 0 <= j < |decls| && decls[j].prop == prop && decls[j].important;
  }

  // ----- One pass is enough -----

  /** A dead property vanishes from its rule; any other keeps all its declarations. */
  lemma {:induction false} KeptSays(sheet: Sheet, i: nat, decls: seq<Decl>, prop: string)
    ensures
      var kept := KeptDecls(sheet, i, decls);
      if Dead(sheet, i, prop) then !Declares(kept, prop) && !HasNormal(kept, prop)
      else (Declares(kept, prop) <==> Declares(decls, prop)) && (HasNormal(kept, prop) <==> HasNormal(decls, prop))
           && (EndsNormal(kept, prop) <==> EndsNormal(decls, prop))
  {
    hide Dead;
    if decls != [] {
      var init, last := decls[..|decls| - 1], decls[|decls| - 1];
      KeptSays(sheet, i, init, prop);
      Snoc(KeptDecls(sheet, i, init), last, prop);
      assert init + [last] == decls;
    }
  }

  lemma {:induction false} SurvivorsAscend(sheet: Sheet, n: nat)
    requires n <= |sheet|
    ensures forall a, b :: 0 <= a < b < |Survivors(sheet, n)| ==> Survivors(sheet, n)[a] < Survivors(sheet, n)[b]
  {
    hide Survives;
    if n > 0 {
      SurvivorsAscend(sheet, n - 1);
    }
  }

  lemma {:induction false} SurvivorAt(sheet: Sheet, n: nat, i: nat) returns (k: nat)
    requires i < n <= |sheet| && Survives(sheet, i)
    ensures k < |Survivors(sheet, n)| && Survivors(sheet, n)[k] == i
  {
    hide Survives;
    if i == n - 1 {
      k := |Survivors(sheet, n)| - 1;
    } else {
      k := SurvivorAt(sheet, n - 1, i);
    }
  }

  lemma DeclaringIsNonEmpty(decls: seq<Decl>, prop: string)
    requires Declares(decls, prop)
    ensures decls != []
  {
  }

  /** Analysing the output finds nothing dead, even though emptied rules are gone and indices shifted. */
  lemma {:induction false} OnePassIsEnough(sheet: Sheet, a: nat, prop: string)
    ensures !Dead(Dedupe(sheet), a, prop)
  {
    hide Declares, HasNormal, EndsNormal, KeptDecls, Survivors;
    var s, out := Survivors(sheet, |sheet|), Dedupe(sheet);
    if Dead(out, a, prop) {
      var b :| a < b < |out| && out[b].group == out[a].group && Closes(out, b, prop) && EndsNormal(out[b].decls, prop);
      var i, last := s[a], s[b];
      SurvivorsAscend(sheet, |sheet|);
      KeptSays(sheet, i, sheet[i].decls, prop);
      KeptSays(sheet, last, sheet[last].decls, prop);
      StillCloses(sheet, b, prop);
    }
  }

  /** A rule that closes a property in the output closed it in the input. */
  lemma {:induction false} StillCloses(sheet: Sheet, b: nat, prop: string)
    requires Closes(Dedupe(sheet), b, prop)
    ensures Closes(sheet, Survivors(sheet, |sheet|)[b], prop)
  {
    hide Declares, HasNormal, EndsNormal, KeptDecls, Survivors;
    var last := Survivors(sheet, |sheet|)[b];
    KeptSays(sheet, last, sheet[last].decls, prop);
    forall m | last < m < |sheet| && sheet[m].group == sheet[last].group
      ensures !Declares(sheet[m].decls, prop)
    {
      if Declares(sheet[m].decls, prop) {
        LaterDeclarationSurvives(sheet, last, m, prop, b);
      }
    }
  }

  /** If a later rule of the group declares a property at all, some later one keeps declaring it. */
  lemma {:induction false} LaterDeclarationSurvives(sheet: Sheet, last: nat, m: nat, prop: string, b: nat)
    requires last < m < |sheet| && sheet[m].group == sheet[last].group && Declares(sheet[m].decls, prop)
    requires b < |Survivors(sheet, |sheet|)| && Survivors(sheet, |sheet|)[b] == last
    ensures !Closes(Dedupe(sheet), b, prop)
  {
    hide Declares, HasNormal, EndsNormal, KeptDecls, Survivors;
    var s, out := Survivors(sheet, |sheet|), Dedupe(sheet);
    var close := ClosingRule(sheet, m, |sheet|, prop);
    ClosingRuleIsKept(sheet, close, prop);
    KeptSays(sheet, close, sheet[close].decls, prop);
    DeclaringIsNonEmpty(KeptDecls(sheet, close, sheet[close].decls), prop);
    var c := SurvivorAt(sheet, |sheet|, close);
    SurvivorsAscend(sheet, |sheet|);
    assert b < c;
    assert Declares(out[c].decls, prop);
  }

  lemma {:induction false} ClosingRule(sheet: Sheet, m: nat, n: nat, prop: string) returns (close: nat)
    requires m < n <= |sheet| && Declares(sheet[m].decls, prop)
    ensures m <= close < n && sheet[close].group == sheet[m].group && Declares(sheet[close].decls, prop)
    ensures forall l :: close < l < n && sheet[l].group == sheet[m].group ==> !Declares(sheet[l].decls, prop)
  {
    hide Declares;
    if m == n - 1 || (sheet[n - 1].group == sheet[m].group && Declares(sheet[n - 1].decls, prop)) {
      close := n - 1;
    } else {
      close := ClosingRule(sheet, m, n - 1, prop);
    }
  }
}
