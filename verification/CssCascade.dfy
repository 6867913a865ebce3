/** The analysis that marks the dead declarations of a stylesheet. Rules are grouped by at-rule context and normalised
    selector group. */
module CssCascade {
  import opened Wrappers

  /** A declaration: lower-cased property, raw text, importance, and its offset in the stylesheet. */
  datatype Decl = Decl(prop: string, text: string, important: bool, at: nat)

  datatype Group = Group(context: string, selector: string)

  datatype Rule = Rule(group: Group, decls: seq<Decl>)

  type Sheet = seq<Rule>

  // ----- What a rule says about a property -----

  predicate Declares(decls: seq<Decl>, prop: string) {
    decls != [] && (decls[|decls| - 1].prop == prop || Declares(decls[..|decls| - 1], prop))
  }

  predicate HasNormal(decls: seq<Decl>, prop: string) {
    && decls != []
    && ((decls[|decls| - 1].prop == prop && !decls[|decls| - 1].important) || HasNormal(decls[..|decls| - 1], prop))
  }

  /** The last declaration of the property is a normal one. */
  predicate EndsNormal(decls: seq<Decl>, prop: string) {
    && decls != []
    && if decls[|decls| - 1].prop == prop then !decls[|decls| - 1].important else EndsNormal(decls[..|decls| - 1], prop)
  }

  /** How one more declaration changes what the rule says. */
  lemma {:induction false} Snoc(decls: seq<Decl>, d: Decl, prop: string)
    ensures Declares(decls + [d], prop) <==> Declares(decls, prop) || d.prop == prop
    ensures HasNormal(decls + [d], prop) <==> HasNormal(decls, prop) || (d.prop == prop && !d.important)
    ensures EndsNormal(decls + [d], prop) <==> if d.prop == prop then !d.important else EndsNormal(decls, prop)
  {
    assert (decls + [d])[..|decls|] == decls;
  }

  /** Rule `last` closes the property in its group: no later rule of the group declares it. */
  predicate Closes(sheet: Sheet, last: nat, prop: string) {
    && last < |sheet| && Declares(sheet[last].decls, prop)
    && forall m :: last < m < |sheet| && sheet[m].group == sheet[last].group ==> !Declares(sheet[m].decls, prop)
  }

  /** Property `prop` is dead in rule `i`: declared there normally, and the group's last word on it is
      a normal declaration in a later rule. */
  predicate Dead(sheet: Sheet, i: nat, prop: string) {
    && i < |sheet| && HasNormal(sheet[i].decls, prop)
    && exists last :: i < last < |sheet| && sheet[last].group == sheet[i].group && Closes(sheet, last, prop)
                      && EndsNormal(sheet[last].decls, prop)
  }

  // ----- The analysis -----

  /** The rules of a group, in order. */
  function Indices(sheet: Sheet, n: nat, group: Group): (indices: seq<nat>)
    requires n <= |sheet|
    ensures forall k :: 0 <= k < |indices| ==> indices[k] < n && sheet[indices[k]].group == group
  {
    if n == 0 then []
    else if sheet[n - 1].group == group then Indices(sheet, n - 1, group) + [n - 1]
    else Indices(sheet, n - 1, group)
  }

  function IndicesIn(groups: map<Group, seq<nat>>, group: Group): seq<nat> {
    if group in groups then groups[group] else []
  }

  method CollectGroups(sheet: Sheet) returns (groups: map<Group, seq<nat>>)
    ensures forall g :: IndicesIn(groups, g) == Indices(sheet, |sheet|, g)
    ensures forall i :: 0 <= i < |sheet| ==> sheet[i].group in groups
  {
    groups := map[];
    for index := 0 to |sheet|
      invariant forall g :: IndicesIn(groups, g) == Indices(sheet, index, g)
      invariant forall i :: 0 <= i < index ==> sheet[i].group in groups
    {
      var g := sheet[index].group;
      ghost var before := groups;
      groups := groups[g := IndicesIn(groups, g) + [index]];
      forall g'
        ensures IndicesIn(groups, g') == Indices(sheet, index + 1, g')
      {
        assert IndicesIn(before, g') == Indices(sheet, index, g');
      }
    }
  }

  /** What the first pass remembers for a property: the group's closing rule, if it ends normally. */
  function LastSeen(sheet: Sheet, indices: seq<nat>, prop: string): Option<nat>
    requires forall k :: 0 <= k < |indices| ==> indices[k] < |sheet|
  {
    if indices == [] then None
    else
      var index := indices[|indices| - 1];
      if Declares(sheet[index].decls, prop) then (if EndsNormal(sheet[index].decls, prop) then Some(index) else None)
      else LastSeen(sheet, indices[..|indices| - 1], prop)
  }

  function Lookup(m: map<string, nat>, key: string): Option<nat> {
    if key in m then Some(m[key]) else None
  }

  /** One rule of the first pass. */
  method SeeRule(decls: seq<Decl>, index: nat, before: map<string, nat>) returns (seen: map<string, nat>)
    ensures forall prop :: Lookup(seen, prop) == SeenAfter(decls, index, before, prop)
  {
    seen := before;
    for j := 0 to |decls|
      invariant forall prop :: Lookup(seen, prop) == SeenAfter(decls[..j], index, before, prop)
    {
      var d := decls[j];
      ghost var earlier := seen;
      if d.important {
        seen := seen - {d.prop};
      } else {
        seen := seen[d.prop := index];
      }
      assert decls[..j + 1] == decls[..j] + [d];
      forall prop
        ensures Lookup(seen, prop) == SeenAfter(decls[..j + 1], index, before, prop)
      {
        Snoc(decls[..j], d, prop);
        assert Lookup(earlier, prop) == SeenAfter(decls[..j], index, before, prop);
      }
    }
    assert decls[..|decls|] == decls;
  }

  function SeenAfter(decls: seq<Decl>, index: nat, before: map<string, nat>, prop: string): Option<nat> {
    if Declares(decls, prop) then (if EndsNormal(decls, prop) then Some(index) else None) else Lookup(before, prop)
  }

  method FirstPass(sheet: Sheet, indices: seq<nat>) returns (seen: map<string, nat>)
    requires forall k :: 0 <= k < |indices| ==> indices[k] < |sheet|
    ensures forall prop :: Lookup(seen, prop) == LastSeen(sheet, indices, prop)
  {
    hide Declares, EndsNormal;
    seen := map[];
    for k := 0 to |indices|
      invariant forall prop :: Lookup(seen, prop) == LastSeen(sheet, indices[..k], prop)
    {
      assert indices[..k + 1][..k] == indices[..k];
      seen := SeeRule(sheet[indices[k]].decls, indices[k], seen);
    }
    assert indices[..|indices|] == indices;
  }

  /** The properties of one rule that the second pass marks dead. */
  method SecondPass(decls: seq<Decl>, index: nat, seen: map<string, nat>) returns (dead: set<string>)
    ensures forall prop ::
              prop in dead <==> HasNormal(decls, prop) && Lookup(seen, prop).Some? && Lookup(seen, prop).value > index
  {
    dead := {};
    for j := 0 to |decls|
      invariant forall prop ::
                  prop in dead <==>
                    HasNormal(decls[..j], prop) && Lookup(seen, prop).Some? && Lookup(seen, prop).value > index
    {
      var d := decls[j];
      assert decls[..j + 1] == decls[..j] + [d];
      forall prop
        ensures HasNormal(decls[..j + 1], prop) <==> HasNormal(decls[..j], prop) || (d.prop == prop && !d.important)
      {
        Snoc(decls[..j], d, prop);
      }
      if !d.important && d.prop in seen && seen[d.prop] > index {
        dead := dead + {d.prop};
      }
    }
    assert decls[..|decls|] == decls;
  }

  /** The first pass remembers exactly the closing rule, and only when it ends normally. */
  lemma {:induction false} LastSeenCloses(sheet: Sheet, n: nat, group: Group, prop: string, last: nat)
    requires n <= |sheet|
    ensures LastSeen(sheet, Indices(sheet, n, group), prop) == Some(last) <==>
            && last < n && sheet[last].group == group
            && Declares(sheet[last].decls, prop) && EndsNormal(sheet[last].decls, prop)
            && forall m :: last < m < n && sheet[m].group == group ==> !Declares(sheet[m].decls, prop)
  {
    hide Declares, EndsNormal;
    if n > 0 {
      LastSeenCloses(sheet, n - 1, group, prop, last);
      var init := Indices(sheet, n - 1, group);
      assert (init + [n - 1])[..|init|] == init;
    }
  }

  lemma {:induction false} IndicesHold(sheet: Sheet, n: nat, group: Group, i: nat)
    requires i < n <= |sheet| && sheet[i].group == group
    ensures i in Indices(sheet, n, group)
  {
    if i < n - 1 {
      IndicesHold(sheet, n - 1, group, i);
    }
  }

  /** The two passes decide deadness. */
  lemma DeadIsLastSeen(sheet: Sheet, i: nat, prop: string)
    requires i < |sheet|
    ensures
      var seen := LastSeen(sheet, Indices(sheet, |sheet|, sheet[i].group), prop);
      Dead(sheet, i, prop) <==> HasNormal(sheet[i].decls, prop) && seen.Some? && seen.value > i
    ensures Dead(sheet, i, prop) ==> |Indices(sheet, |sheet|, sheet[i].group)| >= 2
  {
    hide Declares, EndsNormal, HasNormal, Indices, LastSeen;
    var indices := Indices(sheet, |sheet|, sheet[i].group);
    var seen := LastSeen(sheet, indices, prop);
    if Dead(sheet, i, prop) {
      var last :| i < last < |sheet| && sheet[last].group == sheet[i].group && Closes(sheet, last, prop)
                  && EndsNormal(sheet[last].decls, prop);
      LastSeenCloses(sheet, |sheet|, sheet[i].group, prop, last);
      IndicesHold(sheet, |sheet|, sheet[i].group, i);
      IndicesHold(sheet, |sheet|, sheet[i].group, last);
      var a :| 0 <= a < |indices| && indices[a] == i;
      var b :| 0 <= b < |indices| && indices[b] == last;
    }
    if seen.Some? && seen.value > i {
      LastSeenCloses(sheet, |sheet|, sheet[i].group, prop, seen.value);
    }
  }

  /** The marks set for rule `i` are exactly its dead properties. */
  ghost predicate Marked(sheet: Sheet, byRule: map<nat, set<string>>, i: nat) {
    forall prop :: (i in byRule && prop in byRule[i]) <==> Dead(sheet, i, prop)
  }

  /** Both passes over one group. */
  method MarkGroup(sheet: Sheet, group: Group, indices: seq<nat>, before: map<nat, set<string>>)
    returns (byRule: map<nat, set<string>>)
    requires indices == Indices(sheet, |sheet|, group)
    requires forall i :: 0 <= i < |sheet| && sheet[i].group == group ==> i !in before
    requires forall i :: i in before ==> before[i] != {}
    ensures forall i :: i in byRule ==> byRule[i] != {}
    ensures forall i :: 0 <= i < |sheet| && sheet[i].group == group ==> Marked(sheet, byRule, i)
    ensures forall i: nat :: !(i < |sheet| && sheet[i].group == group) ==>
              (i in byRule <==> i in before) && (i in byRule ==> byRule[i] == before[i])
  {
    hide Dead, Declares, EndsNormal, HasNormal, LastSeen;
    byRule := before;
    if |indices| < 2 {
      forall i | 0 <= i < |sheet| && sheet[i].group == group
        ensures Marked(sheet, byRule, i)
      {
        forall prop
          ensures !Dead(sheet, i, prop)
        {
          DeadIsLastSeen(sheet, i, prop);
        }
      }
      return;
    }
    var seen := FirstPass(sheet, indices);
    for k := 0 to |indices|
      invariant forall j :: 0 <= j < k ==> Marked(sheet, byRule, indices[j])
      invariant forall i :: i in byRule ==> byRule[i] != {}
      invariant forall i :: i !in indices[..k] ==>
                (i in byRule <==> i in before) && (i in byRule ==> byRule[i] == before[i])
    {
      var index := indices[k];
      ghost var earlier := byRule;
      var dead := SecondPass(sheet[index].decls, index, seen);
      forall prop
        ensures prop in dead <==> Dead(sheet, index, prop)
      {
        DeadIsLastSeen(sheet, index, prop);
      }
      IndicesAscend(sheet, |sheet|, group);
      assert index !in indices[..k];
      if dead != {} {
        byRule := byRule[index := dead];
      }
      assert Marked(sheet, byRule, index);
      assert forall j :: 0 <= j < k ==> indices[j] != index;
      assert indices[..k + 1] == indices[..k] + [index];
    }
    forall i | 0 <= i < |sheet| && sheet[i].group == group
      ensures Marked(sheet, byRule, i)
    {
      IndicesHold(sheet, |sheet|, group, i);
    }
  }

  lemma {:induction false} IndicesAscend(sheet: Sheet, n: nat, group: Group)
    requires n <= |sheet|
    ensures forall a, b :: 0 <= a < b < |Indices(sheet, n, group)| ==>
              Indices(sheet, n, group)[a] < Indices(sheet, n, group)[b]
  {
    if n > 0 {
      IndicesAscend(sheet, n - 1, group);
    }
  }

  /** The whole analysis: the marks are exactly the dead properties of each rule. */
  method Analyse(sheet: Sheet) returns (byRule: map<nat, set<string>>)
    ensures forall i :: 0 <= i < |sheet| ==> Marked(sheet, byRule, i)
    ensures forall i :: i in byRule ==> i < |sheet| && byRule[i] != {}
  {
    hide Dead, Marked;
    var groups := CollectGroups(sheet);
    byRule := map[];
    var rest := groups.Keys;
    while rest != {}
      invariant rest <= groups.Keys
      invariant forall i :: 0 <= i < |sheet| && sheet[i].group !in rest ==> Marked(sheet, byRule, i)
      invariant forall i :: 0 <= i < |sheet| && sheet[i].group in rest ==> i !in byRule
      invariant forall i :: i in byRule ==> i < |sheet| && byRule[i] != {}
      decreases |rest|
    {
      var g :| g in rest;
      ghost var earlier := byRule;
      byRule := MarkGroup(sheet, g, groups[g], byRule);
      rest := rest - {g};
      forall i | 0 <= i < |sheet| && sheet[i].group !in rest
        ensures Marked(sheet, byRule, i)
      {
        if sheet[i].group != g {
          MarkedSame(sheet, earlier, byRule, i);
        }
      }
    }
  }

  lemma MarkedSame(sheet: Sheet, a: map<nat, set<string>>, b: map<nat, set<string>>, i: nat)
    requires Marked(sheet, a, i) && (i in a <==> i in b) && (i in a ==> a[i] == b[i])
    ensures Marked(sheet, b, i)
  {
  }
}
