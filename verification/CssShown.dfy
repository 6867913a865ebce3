/** Exactly when thinning a stylesheet shows: which lost declarations some element computes differently without. */
module CssShown {
  import opened CssCascade
  import opened CssMeaning
  import opened Wrappers

  /** A declaration in order of appearance, and whether it is kept. */
  datatype Flagged = Flagged(item: Item, kept: bool)

  function Counts(f: Flagged, onlyKept: bool): bool {
    f.kept || !onlyKept
  }

  /** All the declarations, or those that are kept. */
  function ItemsOf(fs: seq<Flagged>, onlyKept: bool): seq<Item> {
    if fs == [] then []
    else if Counts(fs[0], onlyKept) then [fs[0].item] + ItemsOf(fs[1..], onlyKept)
    else ItemsOf(fs[1..], onlyKept)
  }

  /** What an element computes: property, text and importance of the winner, wherever it stands. */
  function Computed(e: Element, prop: string, items: seq<Item>): Option<Decl> {
    match Win(e, prop, items) case None => None case Some(item) => Some(item.decl.(at := 0))
  }

  // ----- The winner's place -----

  predicate Takes(e: Element, prop: string, fs: seq<Flagged>, onlyKept: bool, i: nat)
    requires i < |fs|
  {
    Counts(fs[i], onlyKept) && Applies(e, prop, fs[i].item)
  }

  /** The winner stands at `k`: nothing outranks it, and it outranks everything after it. */
  ghost predicate WinsAt(e: Element, prop: string, fs: seq<Flagged>, onlyKept: bool, k: nat) {
    && k < |fs| && Takes(e, prop, fs, onlyKept, k)
    && (forall j :: 0 <= j < |fs| && Takes(e, prop, fs, onlyKept, j) ==> !Outranks(e, fs[j].item, fs[k].item))
    && (forall j :: k < j < |fs| && Takes(e, prop, fs, onlyKept, j) ==> Outranks(e, fs[k].item, fs[j].item))
  }

  /** The first declaration against the winner of the others. */
  lemma WinNext(e: Element, prop: string, fs: seq<Flagged>, onlyKept: bool)
    requires fs != []
    ensures var w := Win(e, prop, ItemsOf(fs[1..], onlyKept));
            Win(e, prop, ItemsOf(fs, onlyKept)) ==
            if Takes(e, prop, fs, onlyKept, 0) && (w.None? || Outranks(e, fs[0].item, w.value)) then Some(fs[0].item)
            else w
  {
    hide Outranks, Applies;
    if Counts(fs[0], onlyKept) {
      assert ItemsOf(fs, onlyKept)[1..] == ItemsOf(fs[1..], onlyKept);
    }
  }

  /** There is a winner exactly when something applies, and it is the one computed. */
  lemma {:induction false} WinnerAt(e: Element, prop: string, fs: seq<Flagged>, onlyKept: bool) returns (k: Option<nat>)
    ensures k.None? ==>
              && Win(e, prop, ItemsOf(fs, onlyKept)).None?
              && forall j :: 0 <= j < |fs| ==> !Takes(e, prop, fs, onlyKept, j)
    ensures k.Some? ==>
              WinsAt(e, prop, fs, onlyKept, k.value) && Win(e, prop, ItemsOf(fs, onlyKept)) == Some(fs[k.value].item)
  {
    if fs == [] {
      return None;
    }
    hide Win, ItemsOf, Outranks, Counts, Applies;
    var rest := fs[1..];
    var r := WinnerAt(e, prop, rest, onlyKept);
    WinNext(e, prop, fs, onlyKept);
    assert forall j :: 1 <= j < |fs| ==> fs[j] == rest[j - 1];
    assert forall j :: 1 <= j < |fs| ==> Takes(e, prop, fs, onlyKept, j) == Takes(e, prop, rest, onlyKept, j - 1);
    if Takes(e, prop, fs, onlyKept, 0) && (r.None? || Outranks(e, fs[0].item, rest[r.value].item)) {
      k := Some(0);
    } else if r.None? {
      k := None;
    } else {
      k := Some(r.value + 1);
      assert fs[k.value] == rest[r.value];
    }
  }

  /** There is only one such place. */
  lemma WinnerIs(e: Element, prop: string, fs: seq<Flagged>, onlyKept: bool, k: nat)
    requires WinsAt(e, prop, fs, onlyKept, k)
    ensures Win(e, prop, ItemsOf(fs, onlyKept)) == Some(fs[k].item)
    ensures Computed(e, prop, ItemsOf(fs, onlyKept)) == Some(fs[k].item.decl.(at := 0))
  {
    var w := WinnerAt(e, prop, fs, onlyKept);
  }

  // ----- Lost declarations that nobody can see -----

  predicate Rival(fs: seq<Flagged>, i: nat, j: nat)
    requires i < |fs| && j < |fs|
  {
    fs[i].item.group == fs[j].item.group && fs[i].item.decl.prop == fs[j].item.decl.prop
  }

  predicate Important(fs: seq<Flagged>, i: nat)
    requires i < |fs|
  {
    fs[i].item.decl.important
  }

  predicate SameText(fs: seq<Flagged>, i: nat, j: nat)
    requires i < |fs| && j < |fs|
  {
    fs[i].item.decl.text == fs[j].item.decl.text
  }

  /** It can win for some element: it is important, or its group never declares the property important. */
  ghost predicate Contender(fs: seq<Flagged>, i: nat) {
    i < |fs| && (Important(fs, i) || forall j :: 0 <= j < |fs| && Rival(fs, i, j) ==> !Important(fs, j))
  }

  /** And it is the last of its group that can. */
  ghost predicate LastContender(fs: seq<Flagged>, x: nat) {
    Contender(fs, x) && forall l :: x < l < |fs| && Rival(fs, x, l) ==> !Contender(fs, l)
  }

  /** `z` comes between a lost `x` and its stand-in and says something else, and its group does not speak again, neither
      kept nor after `x`. */
  ghost predicate Intrudes(fs: seq<Flagged>, x: nat, z: nat)
    requires x < |fs|
  {
    && z < x && fs[z].kept && Contender(fs, z) && Important(fs, z) == Important(fs, x)
    && fs[z].item.decl.prop == fs[x].item.decl.prop && !SameText(fs, z, x)
    && forall l :: z < l < |fs| && l != x && Rival(fs, z, l) && Contender(fs, l) ==> !fs[l].kept && l < x
  }

  /** An earlier kept declaration of the group says the same, with no intruder between. */
  ghost predicate StandsIn(fs: seq<Flagged>, x: nat, y: nat)
    requires x < |fs|
  {
    && y < x && fs[y].kept && Contender(fs, y) && Rival(fs, x, y) && SameText(fs, x, y)
    && forall z :: y < z < x ==> !Intrudes(fs, x, z)
  }

  /** Every lost declaration that could win last in its group has a stand-in. */
  ghost predicate Hidden(fs: seq<Flagged>) {
    forall x :: 0 <= x < |fs| && !fs[x].kept && LastContender(fs, x) ==> exists y :: StandsIn(fs, x, y)
  }

  lemma WinnerContends(e: Element, prop: string, fs: seq<Flagged>, w: nat)
    requires WinsAt(e, prop, fs, false, w)
    ensures LastContender(fs, w)
  {
    forall j | 0 <= j < |fs| && Rival(fs, w, j)
      ensures Takes(e, prop, fs, false, j)
    {
    }
  }

  /** Rivals of one importance weigh the same for every element. */
  lemma EqualRank(e: Element, prop: string, fs: seq<Flagged>, i: nat, j: nat)
    requires i < |fs| && j < |fs| && Rival(fs, i, j) && Important(fs, i) == Important(fs, j)
    requires Applies(e, prop, fs[i].item)
    ensures Applies(e, prop, fs[j].item)
    ensures forall k :: 0 <= k < |fs| && Applies(e, prop, fs[k].item) ==>
              Outranks(e, fs[i].item, fs[k].item) == Outranks(e, fs[j].item, fs[k].item)
              && Outranks(e, fs[k].item, fs[i].item) == Outranks(e, fs[k].item, fs[j].item)
  {
  }

  lemma StandInRanks(e: Element, prop: string, fs: seq<Flagged>, w: nat, y: nat)
    requires WinsAt(e, prop, fs, false, w) && StandsIn(fs, w, y)
    ensures Important(fs, y) == Important(fs, w) && Takes(e, prop, fs, true, y)
  {
    WinnerContends(e, prop, fs, w);
  }

  /** Among the kept, the winner stands between the lost one and its stand-in, with equal rank. */
  lemma KeptWinner(e: Element, prop: string, fs: seq<Flagged>, w: nat, y: nat, v: nat)
    requires WinsAt(e, prop, fs, false, w) && !fs[w].kept && StandsIn(fs, w, y) && WinsAt(e, prop, fs, true, v)
    ensures y <= v < w && Important(fs, v) == Important(fs, w) && Contender(fs, v)
    ensures !Outranks(e, fs[w].item, fs[v].item) && !Outranks(e, fs[v].item, fs[w].item)
  {
    StandInRanks(e, prop, fs, w, y);
    EqualRank(e, prop, fs, w, y);
    assert Takes(e, prop, fs, false, v) && Takes(e, prop, fs, false, y);
    assert !Outranks(e, fs[y].item, fs[v].item) && !Outranks(e, fs[v].item, fs[w].item);
    forall j | 0 <= j < |fs| && Rival(fs, v, j)
      ensures Takes(e, prop, fs, false, j)
    {
    }
  }

  lemma KeptWinnerSays(e: Element, prop: string, fs: seq<Flagged>, w: nat, y: nat, v: nat)
    requires WinsAt(e, prop, fs, false, w) && !fs[w].kept && StandsIn(fs, w, y) && WinsAt(e, prop, fs, true, v)
    ensures SameText(fs, v, w) && Important(fs, v) == Important(fs, w)
  {
    KeptWinner(e, prop, fs, w, y, v);
    if !SameText(fs, v, w) {
      assert y < v;
      assert !Intrudes(fs, w, v);
      var l :| v < l < |fs| && l != w && Rival(fs, v, l) && Contender(fs, l) && (fs[l].kept || l > w);
      assert Important(fs, l) == Important(fs, v);
      EqualRank(e, prop, fs, v, l);
      assert Takes(e, prop, fs, false, l) && (fs[l].kept ==> Takes(e, prop, fs, true, l));
    }
  }

  /** A winner that is kept still wins. */
  lemma KeptStays(e: Element, prop: string, fs: seq<Flagged>, w: nat)
    requires WinsAt(e, prop, fs, false, w) && fs[w].kept
    ensures WinsAt(e, prop, fs, true, w)
  {
    hide Outranks;
    assert forall j :: 0 <= j < |fs| && Takes(e, prop, fs, true, j) ==> Takes(e, prop, fs, false, j);
  }

  lemma TakesAll(e: Element, prop: string, fs: seq<Flagged>, j: nat)
    requires j < |fs| && Takes(e, prop, fs, true, j)
    ensures Takes(e, prop, fs, false, j)
  {
  }

  /** What has a stand-in is missed by no element. */
  lemma HiddenKeeps(e: Element, prop: string, fs: seq<Flagged>)
    requires Hidden(fs)
    ensures Computed(e, prop, ItemsOf(fs, true)) == Computed(e, prop, ItemsOf(fs, false))
  {
    hide Win, ItemsOf, WinsAt, StandsIn, LastContender, Takes;
    var w := WinnerAt(e, prop, fs, false);
    var v := WinnerAt(e, prop, fs, true);
    if w.None? {
      if v.Some? {
        WinnerTakes(e, prop, fs, true, v.value);
        TakesAll(e, prop, fs, v.value);
      }
    } else {
      WinnerTakes(e, prop, fs, false, w.value);
      WinnerContends(e, prop, fs, w.value);
      if fs[w.value].kept {
        KeptStays(e, prop, fs, w.value);
        WinnerIs(e, prop, fs, true, w.value);
      } else {
        var y :| StandsIn(fs, w.value, y);
        StandInRanks(e, prop, fs, w.value, y);
        StandInBefore(fs, w.value, y);
        WinnerTakes(e, prop, fs, true, v.value);
        KeptWinnerSays(e, prop, fs, w.value, y, v.value);
      }
    }
  }

  lemma WinnerTakes(e: Element, prop: string, fs: seq<Flagged>, onlyKept: bool, k: nat)
    requires WinsAt(e, prop, fs, onlyKept, k)
    ensures k < |fs| && Takes(e, prop, fs, onlyKept, k) && fs[k].item.decl.prop == prop
  {
  }

  lemma StandInBefore(fs: seq<Flagged>, x: nat, y: nat)
    requires x < |fs| && StandsIn(fs, x, y)
    ensures y < x
  {
  }

  /** An element for which every group it matches weighs the same. */
  function Matching(groups: set<Group>): Element {
    map g | g in groups :: Weight(0, 0)
  }

  lemma FlatRank(groups: set<Group>, a: Item, b: Item)
    requires a.group in groups && b.group in groups
    ensures Outranks(Matching(groups), a, b) <==> a.decl.important && !b.decl.important
  {
  }

  /** Among equal weights, a contender after which no other follows wins. */
  lemma FlatWinner(groups: set<Group>, prop: string, fs: seq<Flagged>, onlyKept: bool, k: nat)
    requires Contender(fs, k) && Takes(Matching(groups), prop, fs, onlyKept, k)
    requires forall j :: 0 <= j < |fs| && Takes(Matching(groups), prop, fs, onlyKept, j) ==>
               (Important(fs, j) ==> Important(fs, k)) && (j > k ==> Important(fs, k) && !Important(fs, j))
    ensures WinsAt(Matching(groups), prop, fs, onlyKept, k)
  {
    forall j | 0 <= j < |fs| && Takes(Matching(groups), prop, fs, onlyKept, j)
      ensures Outranks(Matching(groups), fs[j].item, fs[k].item) <==> Important(fs, j) && !Important(fs, k)
      ensures Outranks(Matching(groups), fs[k].item, fs[j].item) <==> Important(fs, k) && !Important(fs, j)
    {
      FlatRank(groups, fs[j].item, fs[k].item);
      FlatRank(groups, fs[k].item, fs[j].item);
    }
  }

  /** The last kept contender of `x`'s group among the first `n`, if there is one. */
  lemma {:induction false} LastKept(fs: seq<Flagged>, x: nat, n: nat) returns (y: Option<nat>)
    requires x < |fs| && n <= |fs|
    ensures y.None? ==> forall j :: 0 <= j < n && fs[j].kept && Rival(fs, x, j) ==> !Contender(fs, j)
    ensures y.Some? ==> y.value < n && fs[y.value].kept && Rival(fs, x, y.value) && Contender(fs, y.value)
    ensures y.Some? ==> forall j :: y.value < j < n && fs[j].kept && Rival(fs, x, j) ==> !Contender(fs, j)
  {
    hide Contender, Rival;
    if n == 0 {
      y := None;
    } else if fs[n - 1].kept && Rival(fs, x, n - 1) && Contender(fs, n - 1) {
      y := Some(n - 1);
    } else {
      y := LastKept(fs, x, n - 1);
    }
  }

  /** Rivals of a contender: in a group that declares the property important only the important ones can win. */
  lemma RivalContends(fs: seq<Flagged>, x: nat, j: nat)
    requires Contender(fs, x) && j < |fs| && Rival(fs, x, j)
    ensures Contender(fs, j) <==> Important(fs, j) == Important(fs, x)
    ensures Important(fs, j) ==> Important(fs, x)
  {
  }

  /** The lost declaration wins for an element that matches its group, alone or with one whose contenders
      end before it. */
  lemma LostWins(fs: seq<Flagged>, x: nat, groups: set<Group>)
    requires x < |fs| && LastContender(fs, x) && fs[x].item.group in groups
    requires forall j :: 0 <= j < |fs| && fs[j].item.group in groups && fs[j].item.decl.prop == fs[x].item.decl.prop ==>
               Rival(fs, x, j) || ((Important(fs, j) ==> Important(fs, x) && j < x) && (!Important(fs, x) ==> j < x))
    ensures WinsAt(Matching(groups), fs[x].item.decl.prop, fs, false, x)
  {
    hide Contender;
    var prop := fs[x].item.decl.prop;
    forall j | 0 <= j < |fs| && Takes(Matching(groups), prop, fs, false, j)
      ensures (Important(fs, j) ==> Important(fs, x)) && (j > x ==> Important(fs, x) && !Important(fs, j))
    {
      if Rival(fs, x, j) {
        RivalContends(fs, x, j);
      }
    }
    FlatWinner(groups, prop, fs, false, x);
  }

  /** Without a stand-in at all, an element that matches just the group computes something else. */
  lemma LossShowsAlone(fs: seq<Flagged>, x: nat, y: Option<nat>)
    requires x < |fs| && !fs[x].kept && LastContender(fs, x)
    requires y.None? ==> forall j :: 0 <= j < x && fs[j].kept && Rival(fs, x, j) ==> !Contender(fs, j)
    requires y.Some? ==>
              && y.value < x && fs[y.value].kept && Rival(fs, x, y.value)
              && Contender(fs, y.value) && !SameText(fs, x, y.value)
    requires y.Some? ==> forall j :: y.value < j < x && fs[j].kept && Rival(fs, x, j) ==> !Contender(fs, j)
    ensures var e, prop := Matching({fs[x].item.group}), fs[x].item.decl.prop;
            Computed(e, prop, ItemsOf(fs, true)) != Computed(e, prop, ItemsOf(fs, false))
  {
    var groups, prop := {fs[x].item.group}, fs[x].item.decl.prop;
    LostWins(fs, x, groups);
    WinnerIs(Matching(groups), prop, fs, false, x);
    var v := WinnerAt(Matching(groups), prop, fs, true);
    hide Contender, Computed;
    forall j | 0 <= j < |fs| && Takes(Matching(groups), prop, fs, true, j)
      ensures Rival(fs, x, j) && (Contender(fs, j) ==> y.Some? && j <= y.value)
      ensures (Important(fs, j) ==> Important(fs, x))
      ensures Contender(fs, j) <==> Important(fs, j) == Important(fs, x)
    {
      RivalContends(fs, x, j);
    }
    if y.Some? {
      RivalContends(fs, x, y.value);
      FlatWinner(groups, prop, fs, true, y.value);
      WinnerIs(Matching(groups), prop, fs, true, y.value);
    } else {
      NoKeptContender(groups, prop, fs, x, v);
    }
  }

  lemma NoKeptContender(groups: set<Group>, prop: string, fs: seq<Flagged>, x: nat, v: Option<nat>)
    requires x < |fs| && (v.Some? ==> v.value < |fs| && Important(fs, v.value) != Important(fs, x))
    requires var win := Win(Matching(groups), prop, ItemsOf(fs, true));
             if v.None? then win.None? else win == Some(fs[v.value].item)
    ensures Computed(Matching(groups), prop, ItemsOf(fs, true)) != Some(fs[x].item.decl.(at := 0))
  {
    hide ItemsOf, Win;
  }

  /** With an intruder, an element that matches both groups computes what the intruder says. */
  lemma LossShowsWith(fs: seq<Flagged>, x: nat, y: nat, z: nat)
    requires x < |fs| && !fs[x].kept && LastContender(fs, x)
    requires y < z < x && fs[y].kept && Rival(fs, x, y) && Contender(fs, y) && Intrudes(fs, x, z)
    requires forall j :: y < j < x && fs[j].kept && Rival(fs, x, j) ==> !Contender(fs, j)
    ensures var e, prop := Matching({fs[x].item.group, fs[z].item.group}), fs[x].item.decl.prop;
            Computed(e, prop, ItemsOf(fs, true)) != Computed(e, prop, ItemsOf(fs, false))
  {
    var groups, prop := {fs[x].item.group, fs[z].item.group}, fs[x].item.decl.prop;
    forall j | 0 <= j < |fs| && fs[j].item.group in groups && fs[j].item.decl.prop == prop && !Rival(fs, x, j)
      ensures Rival(fs, z, j) && (Important(fs, j) ==> Important(fs, x))
      ensures (Contender(fs, j) ==> j < x && (fs[j].kept ==> j <= z))
      ensures Contender(fs, j) <==> Important(fs, j) == Important(fs, x)
    {
      RivalContends(fs, z, j);
    }
    hide Contender, Computed;
    LostWins(fs, x, groups);
    WinnerIs(Matching(groups), prop, fs, false, x);
    forall j | 0 <= j < |fs| && Takes(Matching(groups), prop, fs, true, j)
      ensures (Important(fs, j) ==> Important(fs, z)) && (j > z ==> Important(fs, z) && !Important(fs, j))
    {
      if Rival(fs, x, j) {
        RivalContends(fs, x, j);
      }
    }
    FlatWinner(groups, prop, fs, true, z);
    WinnerIs(Matching(groups), prop, fs, true, z);
    TextShows(fs, x, z);
  }

  lemma TextShows(fs: seq<Flagged>, x: nat, z: nat)
    requires x < |fs| && z < |fs| && !SameText(fs, z, x)
    ensures fs[z].item.decl.(at := 0) != fs[x].item.decl.(at := 0)
  {
  }

  lemma LossShows(fs: seq<Flagged>, x: nat) returns (e: Element)
    requires x < |fs| && !fs[x].kept && LastContender(fs, x) && forall y :: !StandsIn(fs, x, y)
    ensures Computed(e, fs[x].item.decl.prop, ItemsOf(fs, true))
         != Computed(e, fs[x].item.decl.prop, ItemsOf(fs, false))
  {
    var y := LastKept(fs, x, x);
    hide Contender, Computed, ItemsOf;
    if y.None? || !SameText(fs, x, y.value) {
      e := Matching({fs[x].item.group});
      LossShowsAlone(fs, x, y);
    } else {
      assert !StandsIn(fs, x, y.value);
      var z :| y.value < z < x && Intrudes(fs, x, z);
      e := Matching({fs[x].item.group, fs[z].item.group});
      LossShowsWith(fs, x, y.value, z);
    }
  }

  /** Exactly when a thinning changes what no element computes, for any declarations lost from any stylesheet. */
  lemma ThinningExactly(fs: seq<Flagged>)
    ensures (forall e, prop :: Computed(e, prop, ItemsOf(fs, true)) == Computed(e, prop, ItemsOf(fs, false)))
            <==> Hidden(fs)
  {
    hide Computed, ItemsOf, StandsIn, LastContender;
    if Hidden(fs) {
      forall e, prop
        ensures Computed(e, prop, ItemsOf(fs, true)) == Computed(e, prop, ItemsOf(fs, false))
      {
        HiddenKeeps(e, prop, fs);
      }
    } else {
      var x :| 0 <= x < |fs| && !fs[x].kept && LastContender(fs, x) && forall y :: !StandsIn(fs, x, y);
      var e := LossShows(fs, x);
    }
  }

  // ----- Removing the dead declarations of a sheet -----

  function Computes(sheet: Sheet, e: Element, prop: string): Option<Decl> {
    Computed(e, prop, Items(sheet, |sheet|))
  }

  function Flags(sheet: Sheet, items: seq<Item>): (fs: seq<Flagged>)
    ensures |fs| == |items|
  {
    seq(|items|, k requires 0 <= k < |items| => Flagged(items[k], !Dropped(sheet, items[k])))
  }

  function SheetFlags(sheet: Sheet): seq<Flagged> {
    Flags(sheet, Items(sheet, |sheet|))
  }

  lemma {:induction false} FlagsThin(sheet: Sheet, items: seq<Item>)
    ensures ItemsOf(Flags(sheet, items), false) == items
    ensures ItemsOf(Flags(sheet, items), true) == Keep(sheet, items)
  {
    hide Dropped;
    if items != [] {
      FlagsThin(sheet, items[1..]);
      assert Flags(sheet, items)[1..] == Flags(sheet, items[1..]);
    }
  }

  lemma DedupeComputes(sheet: Sheet, e: Element, prop: string)
    ensures Computes(sheet, e, prop) == Computed(e, prop, ItemsOf(SheetFlags(sheet), false))
    ensures Computes(Dedupe(sheet), e, prop) == Computed(e, prop, ItemsOf(SheetFlags(sheet), true))
  {
    FlagsThin(sheet, Items(sheet, |sheet|));
    DedupeWinner(sheet, e, prop);
    hide Win, Items, Keep, Dedupe, ItemsOf, Flags;
  }

  /** Removing the dead declarations changes what no element computes, if and only if every lost declaration that could
      win has a stand-in. */
  lemma MeaningKeptExactly(sheet: Sheet)
    ensures (forall e, prop :: Computes(Dedupe(sheet), e, prop) == Computes(sheet, e, prop))
            <==> Hidden(SheetFlags(sheet))
  {
    hide Computes, Computed, ItemsOf, Hidden, SheetFlags, Dedupe;
    var fs := SheetFlags(sheet);
    ThinningExactly(fs);
    if Hidden(fs) {
      forall e, prop
        ensures Computes(Dedupe(sheet), e, prop) == Computes(sheet, e, prop)
      {
        DedupeComputes(sheet, e, prop);
      }
    } else {
      var e, prop :| Computed(e, prop, ItemsOf(fs, true)) != Computed(e, prop, ItemsOf(fs, false));
      DedupeComputes(sheet, e, prop);
    }
  }

  /** A rule later in the group that declares the property stands later among the items. */
  lemma LaterRival(sheet: Sheet, k: nat, m: nat, j: nat) returns (l: nat)
    requires k < |Items(sheet, |sheet|)| && m < |sheet| && j < |sheet[m].decls|
    requires var item, decl := Items(sheet, |sheet|)[k], sheet[m].decls[j];
             item.rule < m && sheet[m].group == item.group && decl.prop == item.decl.prop
    ensures k < l < |SheetFlags(sheet)| && Rival(SheetFlags(sheet), k, l)
    ensures Important(SheetFlags(sheet), l) == sheet[m].decls[j].important
  {
    hide Items, Dropped;
    l := PositionOf(sheet, |sheet|, m, j);
    if l < k {
      ItemsAscend(sheet, |sheet|, l, k);
    }
  }

  /** A lost normal declaration is never the last its group can win with: a later rule closes the property. */
  lemma LostNormal(sheet: Sheet, x: nat)
    requires x < |SheetFlags(sheet)| && !SheetFlags(sheet)[x].kept && !Important(SheetFlags(sheet), x)
    ensures !LastContender(SheetFlags(sheet), x)
  {
    var fs, item := SheetFlags(sheet), Items(sheet, |sheet|)[x];
    var prop := item.decl.prop;
    ItemOf(sheet, |sheet|, x);
    hide Items, Declares, HasNormal, EndsNormal;
    var last :| item.rule < last < |sheet| && sheet[last].group == sheet[item.rule].group && Closes(sheet, last, prop)
                && EndsNormal(sheet[last].decls, prop);
    EndsNormalHas(sheet[last].decls, prop);
    var j := NormalAt(sheet[last].decls, prop);
    var l := LaterRival(sheet, x, last, j);
    if Contender(fs, x) {
      RivalContends(fs, x, l);
    }
  }

  /** So the condition is about importance only. */
  lemma OnlyImportanceShows(sheet: Sheet)
    ensures Hidden(SheetFlags(sheet)) <==>
            forall x ::
              && 0 <= x < |SheetFlags(sheet)| && !SheetFlags(sheet)[x].kept && Important(SheetFlags(sheet), x)
              && LastContender(SheetFlags(sheet), x)
              ==> exists y :: StandsIn(SheetFlags(sheet), x, y)
  {
    hide SheetFlags, LastContender, StandsIn;
    forall x | 0 <= x < |SheetFlags(sheet)| && !SheetFlags(sheet)[x].kept && !Important(SheetFlags(sheet), x)
      ensures !LastContender(SheetFlags(sheet), x)
    {
      LostNormal(sheet, x);
    }
  }

  /** When every lost important declaration is followed by one that is kept, nothing lost could win. */
  lemma LostImportant(sheet: Sheet, x: nat)
    requires ImportantKept(sheet) && x < |SheetFlags(sheet)| && !SheetFlags(sheet)[x].kept
    requires Important(SheetFlags(sheet), x)
    ensures !LastContender(SheetFlags(sheet), x)
  {
    var fs, item := SheetFlags(sheet), Items(sheet, |sheet|)[x];
    var prop := item.decl.prop;
    ItemOf(sheet, |sheet|, x);
    hide Items, Dead, HasImportant;
    ImportantIn(sheet[item.rule].decls, item.decl);
    var m :| item.rule < m < |sheet| && sheet[m].group == sheet[item.rule].group && HasImportant(sheet[m].decls, prop)
             && !Dead(sheet, m, prop);
    var j := ImportantAt(sheet[m].decls, prop);
    var l := LaterRival(sheet, x, m, j);
    assert Contender(fs, l);
  }

  /** Removing the dead declarations changes no winner at all, as long as importance is kept. */
  lemma {:induction false} RemovalKeepsMeaning(sheet: Sheet, e: Element, prop: string)
    requires ImportantKept(sheet)
    ensures Winner(Dedupe(sheet), e, prop) == Winner(sheet, e, prop)
    ensures Computes(Dedupe(sheet), e, prop) == Computes(sheet, e, prop)
  {
    var fs := SheetFlags(sheet);
    FlagsThin(sheet, Items(sheet, |sheet|));
    DedupeWinner(sheet, e, prop);
    DedupeComputes(sheet, e, prop);
    hide Items, Keep, Dedupe, Win, Flags, Dropped, ImportantKept, LastContender;
    forall x | 0 <= x < |fs| && !fs[x].kept
      ensures !LastContender(fs, x)
    {
      if Important(fs, x) {
        LostImportant(sheet, x);
      } else {
        LostNormal(sheet, x);
      }
    }
    WinnerStays(e, prop, fs);
  }

  lemma WinnerStays(e: Element, prop: string, fs: seq<Flagged>)
    requires forall x :: 0 <= x < |fs| && !fs[x].kept ==> !LastContender(fs, x)
    ensures Win(e, prop, ItemsOf(fs, true)) == Win(e, prop, ItemsOf(fs, false))
  {
    hide Win, ItemsOf, WinsAt, LastContender, Takes;
    var w := WinnerAt(e, prop, fs, false);
    var v := WinnerAt(e, prop, fs, true);
    if w.None? {
      if v.Some? {
        WinnerTakes(e, prop, fs, true, v.value);
        TakesAll(e, prop, fs, v.value);
      }
    } else {
      WinnerTakes(e, prop, fs, false, w.value);
      WinnerContends(e, prop, fs, w.value);
      KeptStays(e, prop, fs, w.value);
      WinnerIs(e, prop, fs, true, w.value);
    }
  }

  // ----- Two sheets -----

  const RED := Decl("color", "color:red!important", true, 3)
  const BLUE := Decl("color", "color:blue", false, 23)
  const GREEN := Decl("color", "color:green", false, 37)
  const CLASS_A := Group("", ".a")

  lemma ExampleDead(sheet: Sheet, i: nat)
    requires |sheet| > 1 && sheet[|sheet| - 1] == Rule(CLASS_A, [GREEN])
    requires i < |sheet| - 1 && sheet[i] == Rule(CLASS_A, [RED, BLUE])
    ensures Dead(sheet, i, "color") && !Dead(sheet, |sheet| - 1, "color")
  {
    var last := |sheet| - 1;
    assert EndsNormal([GREEN], "color") && Declares([GREEN], "color");
    assert Closes(sheet, last, "color");
    assert HasNormal([RED, BLUE], "color");
  }

  /** The promise fails: one rule mixes both kinds, a later one declares the property normally, and an element that was
      red turns green. */
  lemma MixedRuleExample() returns (sheet: Sheet, e: Element)
    ensures |sheet| == 2 && |sheet[0].decls| == 2 && Computes(Dedupe(sheet), e, "color") != Computes(sheet, e, "color")
  {
    sheet := [Rule(CLASS_A, [RED, BLUE]), Rule(CLASS_A, [GREEN])];
    ExampleDead(sheet, 0);
    assert Items(sheet, 2) == [Item(0, CLASS_A, RED), Item(0, CLASS_A, BLUE), Item(1, CLASS_A, GREEN)] by {
      assert Items(sheet, 0) == [];
      assert Items(sheet, 1) == [Item(0, CLASS_A, RED), Item(0, CLASS_A, BLUE)];
    }
    hide Dead, Items;
    var fs := SheetFlags(sheet);
    assert !fs[0].kept && Important(fs, 0) && !Important(fs, 1) && !Important(fs, 2);
    e := LossShows(fs, 0);
    DedupeComputes(sheet, e, "color");
  }

  /** The promise can hold although importance is lost: an earlier rule says the same. */
  lemma StandInExample() returns (sheet: Sheet)
    ensures !ImportantKept(sheet) && forall e, prop :: Computes(Dedupe(sheet), e, prop) == Computes(sheet, e, prop)
  {
    sheet := [Rule(CLASS_A, [RED]), Rule(CLASS_A, [RED, BLUE]), Rule(CLASS_A, [GREEN])];
    ExampleDead(sheet, 1);
    assert !HasNormal([RED], "color");
    assert !Dead(sheet, 0, "color");
    assert Items(sheet, 3)
        == [Item(0, CLASS_A, RED), Item(1, CLASS_A, RED), Item(1, CLASS_A, BLUE), Item(2, CLASS_A, GREEN)] by {
      assert Items(sheet, 0) == [];
      assert Items(sheet, 1) == [Item(0, CLASS_A, RED)];
      assert Items(sheet, 2) == [Item(0, CLASS_A, RED), Item(1, CLASS_A, RED), Item(1, CLASS_A, BLUE)];
    }
    assert HasImportant(sheet[1].decls, "color") && !HasImportant(sheet[2].decls, "color") by {
      assert sheet[1].decls[0].important;
    }
    assert !ImportantKept(sheet);
    hide Dead, Items;
    var fs := SheetFlags(sheet);
    assert fs[0].kept && !fs[1].kept && !fs[2].kept && fs[3].kept;
    assert Contender(fs, 0) && Rival(fs, 2, 0) && Rival(fs, 3, 0) && Important(fs, 0);
    assert StandsIn(fs, 1, 0);
    assert Hidden(fs);
    MeaningKeptExactly(sheet);
  }
}
