/** When two stylesheets mean the same: exactly which lists of declarations every element computes alike from. */
module CssAlike {
  import opened CssCascade
  import opened CssMeaning
  import opened CssShown
  import opened Wrappers

  /** The items of one group that declare one property. */
  predicate SameHome(a: Item, b: Item) {
    a.group == b.group && a.decl.prop == b.decl.prop
  }

  /** And say the same about it. */
  predicate SaysSame(a: Item, b: Item) {
    SameHome(a, b) && a.decl.text == b.decl.text && a.decl.important == b.decl.important
  }

  /** The item that its group speaks with: the last important one, or the last when none is important. */
  ghost predicate Leads(items: seq<Item>, k: int) {
    && 0 <= k < |items|
    && forall j :: 0 <= j < |items| && SameHome(items[j], items[k]) ==>
         && (items[j].decl.important ==> items[k].decl.important)
         && (j > k ==> items[j].decl.important != items[k].decl.important)
  }

  /** A group speaks in both lists and says the same. */
  ghost predicate Matched(a: seq<Item>, b: seq<Item>, k: int, l: int) {
    0 <= k < |a| && 0 <= l < |b| && Leads(a, k) && Leads(b, l) && SaysSame(a[k], b[l])
  }

  /** Every group that speaks in `a` says the same in `b`. */
  ghost predicate Repeated(a: seq<Item>, b: seq<Item>) {
    forall k :: Leads(a, k) ==> exists l :: Matched(a, b, k, l)
  }

  /** They could be told apart only by their order: one property, one importance, two texts. */
  predicate Ordering(x: Item, y: Item) {
    x.decl.prop == y.decl.prop && x.decl.important == y.decl.important && x.decl.text != y.decl.text
  }

  /** Groups that differ only by order speak in the same order in both. */
  ghost predicate SameOrder(a: seq<Item>, b: seq<Item>) {
    forall k, k', l, l' :: Matched(a, b, k, l) && Matched(a, b, k', l') && k < k' && Ordering(a[k], a[k']) ==> l < l'
  }

  ghost predicate Alike(a: seq<Item>, b: seq<Item>) {
    Repeated(a, b) && Repeated(b, a) && SameOrder(a, b)
  }

  // ----- Winners lead -----

  /** The winner among all the items stands at `k`. */
  ghost predicate WinsIn(e: Element, prop: string, items: seq<Item>, k: int) {
    && 0 <= k < |items| && Applies(e, prop, items[k])
    && (forall j :: 0 <= j < |items| && Applies(e, prop, items[j]) ==> !Outranks(e, items[j], items[k]))
    && (forall j :: k < j < |items| && Applies(e, prop, items[j]) ==> Outranks(e, items[k], items[j]))
  }

  lemma {:induction false} WinnerOf(e: Element, prop: string, items: seq<Item>) returns (k: Option<nat>)
    ensures k.None? ==> Win(e, prop, items).None? && forall j :: 0 <= j < |items| ==> !Applies(e, prop, items[j])
    ensures k.Some? ==> WinsIn(e, prop, items, k.value) && Win(e, prop, items) == Some(items[k.value])
  {
    if items == [] {
      return None;
    }
    var rest := items[1..];
    var r := WinnerOf(e, prop, rest);
    assert forall j :: 1 <= j < |items| ==> items[j] == rest[j - 1];
    if Applies(e, prop, items[0]) && (r.None? || Outranks(e, items[0], rest[r.value])) {
      k := Some(0);
    } else if r.None? {
      k := None;
    } else {
      k := Some(r.value + 1);
      assert items[k.value] == rest[r.value];
    }
  }

  lemma WinsComputes(e: Element, prop: string, items: seq<Item>, k: nat)
    requires WinsIn(e, prop, items, k)
    ensures Computed(e, prop, items) == Some(items[k].decl.(at := 0))
  {
    var w := WinnerOf(e, prop, items);
  }

  lemma WinnerLeads(e: Element, prop: string, items: seq<Item>, k: nat)
    requires WinsIn(e, prop, items, k)
    ensures Leads(items, k)
  {
    forall j | 0 <= j < |items| && SameHome(items[j], items[k])
      ensures Applies(e, prop, items[j])
    {
    }
  }

  /** Whoever speaks has a leader. */
  lemma {:induction false} LeaderOf(items: seq<Item>, x: Item, n: nat) returns (k: Option<nat>)
    requires n <= |items|
    ensures k.None? ==> forall j :: 0 <= j < n ==> !SameHome(items[j], x)
    ensures k.Some? ==> k.value < n && SameHome(items[k.value], x) && Leads(items[..n], k.value)
    decreases n
  {
    if n == 0 {
      return None;
    }
    var m := n - 1;
    k := LeaderOf(items, x, m);
    if SameHome(items[m], x) && (k.None? || items[m].decl.important || !items[k.value].decl.important) {
      k := Some(m);
    }
  }

  lemma Leader(items: seq<Item>, j: nat) returns (k: nat)
    requires j < |items|
    ensures Leads(items, k) && SameHome(items[k], items[j])
  {
    var r := LeaderOf(items, items[j], |items|);
    assert items[..|items|] == items;
    k := r.value;
  }

  // ----- Alike lists compute alike -----

  /** Precedence is between groups and importances. */
  lemma SameRank(e: Element, x: Item, x': Item, y: Item, y': Item)
    requires SaysSame(x, x') && SaysSame(y, y') && x.group in e && y.group in e
    ensures Outranks(e, x, y) == Outranks(e, x', y')
  {
  }

  lemma AlikeWinners(e: Element, prop: string, a: seq<Item>, b: seq<Item>, k: nat, m: nat)
    requires Alike(a, b) && WinsIn(e, prop, a, k) && WinsIn(e, prop, b, m)
    ensures a[k].decl.(at := 0) == b[m].decl.(at := 0)
  {
    hide WinsIn, Outranks, Leads, SaysSame;
    WinnerLeads(e, prop, a, k);
    WinnerLeads(e, prop, b, m);
    var l :| Matched(a, b, k, l);
    var j :| Matched(b, a, m, j);
    SaysBack(b[m], a[j]);
    LeadsWithin(b, l);
    LeadsWithin(a, j);
    Rivals(e, prop, a, b, k, j, l, m);
  }

  lemma LeadsWithin(items: seq<Item>, k: int)
    requires Leads(items, k)
    ensures 0 <= k < |items|
  {
  }

  lemma SaysBack(x: Item, y: Item)
    requires SaysSame(x, y)
    ensures SaysSame(y, x)
  {
  }

  lemma Rivals(e: Element, prop: string, a: seq<Item>, b: seq<Item>, k: nat, j: nat, l: nat, m: nat)
    requires SameOrder(a, b) && WinsIn(e, prop, a, k) && WinsIn(e, prop, b, m)
    requires Matched(a, b, k, l) && Matched(a, b, j, m)
    ensures a[k].decl.(at := 0) == b[m].decl.(at := 0)
  {
    hide Leads, Outranks;
    SameRank(e, a[j], b[m], a[k], b[l]);
    SameRank(e, a[k], b[l], a[j], b[m]);
    Tied(e, a[k], a[j]);
    assert Ordering(a[j], a[k]) && j < k ==> m < l;
  }

  lemma Tied(e: Element, x: Item, y: Item)
    requires x.group in e && y.group in e
    ensures !Outranks(e, x, y) && !Outranks(e, y, x) ==> x.decl.important == y.decl.important
  {
  }

  lemma AlikeComputes(e: Element, prop: string, a: seq<Item>, b: seq<Item>)
    requires Alike(a, b)
    ensures Computed(e, prop, a) == Computed(e, prop, b)
  {
    hide Alike, Leads, Win;
    var k := WinnerOf(e, prop, a);
    var m := WinnerOf(e, prop, b);
    if k.Some? && m.Some? {
      AlikeWinners(e, prop, a, b, k.value, m.value);
    } else if k.Some? {
      Answered(e, prop, a, b, k.value);
    } else if m.Some? {
      AlikeBack(a, b);
      Answered(e, prop, b, a, m.value);
    }
  }

  lemma AlikeBack(a: seq<Item>, b: seq<Item>)
    requires Alike(a, b)
    ensures Repeated(b, a) && Repeated(a, b)
  {
  }

  /** What applies in one list applies in the other. */
  lemma Answered(e: Element, prop: string, a: seq<Item>, b: seq<Item>, k: nat)
    requires (Alike(a, b) || Repeated(a, b)) && k < |a| && Applies(e, prop, a[k])
    ensures exists l :: 0 <= l < |b| && Applies(e, prop, b[l])
  {
    var n := Leader(a, k);
    var l :| Matched(a, b, n, l);
    assert Applies(e, prop, b[l]);
  }

  // ----- And only they do -----

  /** Among the groups matched, all of one weight, the last important leader wins, or the last leader. */
  lemma LeaderWins(groups: set<Group>, items: seq<Item>, k: nat)
    requires Leads(items, k) && items[k].group in groups
    requires forall j :: Leads(items, j) && items[j].group in groups && items[j].decl.prop == items[k].decl.prop ==>
               j <= k && (items[j].decl.important ==> items[k].decl.important)
    ensures WinsIn(Matching(groups), items[k].decl.prop, items, k)
  {
    var e, prop := Matching(groups), items[k].decl.prop;
    forall j: nat | 0 <= j < |items| && Applies(e, prop, items[j])
      ensures !Outranks(e, items[j], items[k]) && (j > k ==> Outranks(e, items[k], items[j]))
    {
      FlatRank(groups, items[j], items[k]);
      FlatRank(groups, items[k], items[j]);
      var n := Leader(items, j);
      assert j > n ==> items[j].decl.important != items[n].decl.important;
    }
  }

  lemma OneLeader(items: seq<Item>, j: int, k: int)
    requires Leads(items, j) && Leads(items, k) && SameHome(items[j], items[k])
    ensures j == k
  {
  }

  lemma MustRepeat(a: seq<Item>, b: seq<Item>, k: nat) returns (l: nat)
    requires Leads(a, k)
    requires Computed(Matching({a[k].group}), a[k].decl.prop, a) == Computed(Matching({a[k].group}), a[k].decl.prop, b)
    ensures Matched(a, b, k, l)
  {
    var groups, prop := {a[k].group}, a[k].decl.prop;
    forall j | Leads(a, j) && a[j].group in groups && a[j].decl.prop == prop
      ensures j <= k && (a[j].decl.important ==> a[k].decl.important)
    {
      OneLeader(a, j, k);
    }
    LeaderWins(groups, a, k);
    WinsComputes(Matching(groups), prop, a, k);
    hide Leads;
    var w := WinnerOf(Matching(groups), prop, b);
    l := w.value;
    WinnerLeads(Matching(groups), prop, b, l);
  }

  /** Of two leaders that only order tells apart, the later wins. */
  lemma LaterWins(items: seq<Item>, k: nat, k': nat)
    requires Leads(items, k) && Leads(items, k') && k < k' && Ordering(items[k], items[k'])
    ensures Computed(Matching({items[k].group, items[k'].group}), items[k].decl.prop, items)
         == Some(items[k'].decl.(at := 0))
  {
    var groups, prop := {items[k].group, items[k'].group}, items[k].decl.prop;
    forall j | Leads(items, j) && items[j].group in groups && items[j].decl.prop == prop
      ensures j <= k' && (items[j].decl.important ==> items[k'].decl.important)
    {
      if items[j].group == items[k].group {
        OneLeader(items, j, k);
      } else {
        OneLeader(items, j, k');
      }
    }
    LeaderWins(groups, items, k');
    WinsComputes(Matching(groups), prop, items, k');
  }

  lemma MustOrder(a: seq<Item>, b: seq<Item>, k: nat, k': nat, l: nat, l': nat)
    requires Matched(a, b, k, l) && Matched(a, b, k', l') && k < k' && Ordering(a[k], a[k'])
    requires var groups, prop := {a[k].group, a[k'].group}, a[k].decl.prop;
             Computed(Matching(groups), prop, a) == Computed(Matching(groups), prop, b)
    ensures l < l'
  {
    hide Leads, Computed;
    LaterWins(a, k, k');
    assert {b[l'].group, b[l].group} == {a[k].group, a[k'].group};
    if l' < l {
      LaterWins(b, l', l);
    }
  }

  /** Every element computes the same from two lists of declarations, if and only if every group says the same about
      every property in both, and groups that only order tells apart come in the same order. */
  lemma AlikeExactly(a: seq<Item>, b: seq<Item>)
    ensures (forall e, prop :: Computed(e, prop, a) == Computed(e, prop, b)) <==> Alike(a, b)
  {
    hide Computed, Leads;
    if Alike(a, b) {
      forall e, prop
        ensures Computed(e, prop, a) == Computed(e, prop, b)
      {
        AlikeComputes(e, prop, a, b);
      }
    }
    if forall e, prop :: Computed(e, prop, a) == Computed(e, prop, b) {
      MustBeAlike(a, b);
    }
  }

  lemma MustBeAlike(a: seq<Item>, b: seq<Item>)
    requires forall e, prop :: Computed(e, prop, a) == Computed(e, prop, b)
    ensures Alike(a, b)
  {
    hide Computed, Leads, SaysSame, Ordering;
    forall k | Leads(a, k)
      ensures exists l :: Matched(a, b, k, l)
    {
      LeadsWithin(a, k);
      var l := MustRepeat(a, b, k);
    }
    forall k | Leads(b, k)
      ensures exists l :: Matched(b, a, k, l)
    {
      LeadsWithin(b, k);
      var l := MustRepeat(b, a, k);
    }
    forall k, k', l, l' | Matched(a, b, k, l) && Matched(a, b, k', l') && k < k' && Ordering(a[k], a[k'])
      ensures l < l'
    {
      LeadsWithin(a, k);
      LeadsWithin(b, l);
      LeadsWithin(b, l');
      MustOrder(a, b, k, k', l, l');
    }
  }
}
