/** How the script tells selector groups apart. */
module CssSelector {
  import opened PythonText

  // ----- The parts of a selector list -----

  /** `prelude.split(',')`. */
  function Split(s: string): (parts: seq<string>)
    decreases |s|
  {
    var n := Find(s, ',');
    if n == |s| then [s] else [s[..n]] + Split(s[n + 1..])
  }

  function SkipBlanks(s: string): (r: string)
    ensures |r| <= |s|
  {
    if s != "" && IsSpace(s[0]) then SkipBlanks(s[1..]) else s
  }

  /** Every run of blanks becomes one space. */
  function Collapse(s: string): string
    decreases |s|
  {
    if s == "" then ""
    else if IsSpace(s[0]) then " " + Collapse(SkipBlanks(s[1..]))
    else [s[0]] + Collapse(s[1..])
  }

  /** The parts that are not blank, each without surplus blanks. */
  function Tidied(parts: seq<string>): seq<string> {
    if parts == [] then []
    else
      var part := Collapse(Strip(parts[0]));
      (if part == "" then [] else [part]) + Tidied(parts[1..])
  }

  function Parts(prelude: string): seq<string> {
    Tidied(Split(prelude))
  }

  // ----- Sorting -----

  /** The order of Python strings. */
  predicate AtMost(a: string, b: string) {
    if a == "" then true
    else if b == "" then false
    else a[0] < b[0] || (a[0] == b[0] && AtMost(a[1..], b[1..]))
  }

  function Insert(x: string, xs: seq<string>): seq<string> {
    if xs == [] || AtMost(x, xs[0]) then [x] + xs else [xs[0]] + Insert(x, xs[1..])
  }

  function Sorted(xs: seq<string>): seq<string> {
    if xs == [] then [] else Insert(xs[0], Sorted(xs[1..]))
  }

  function Joined(xs: seq<string>): string {
    if xs == [] then "" else if |xs| == 1 then xs[0] else xs[0] + "," + Joined(xs[1..])
  }

  /** `normalize_selector`. */
  function Normalize(prelude: string): string {
    Joined(Sorted(Parts(prelude)))
  }

  lemma {:induction false} AtMostSame(a: string)
    ensures AtMost(a, a)
  {
    if a != "" {
      AtMostSame(a[1..]);
    }
  }

  lemma {:induction false} AtMostTotal(a: string, b: string)
    ensures AtMost(a, b) || AtMost(b, a)
  {
    if a != "" && b != "" {
      AtMostTotal(a[1..], b[1..]);
    }
  }

  lemma {:induction false} AtMostEqual(a: string, b: string)
    requires AtMost(a, b) && AtMost(b, a)
    ensures a == b
  {
    if a != "" && b != "" {
      AtMostEqual(a[1..], b[1..]);
      assert a == [a[0]] + a[1..] && b == [b[0]] + b[1..];
    }
  }

  lemma {:induction false} AtMostChain(a: string, b: string, c: string)
    requires AtMost(a, b) && AtMost(b, c)
    ensures AtMost(a, c)
  {
    if a != "" && a[0] == b[0] == c[0] {
      AtMostChain(a[1..], b[1..], c[1..]);
    }
  }

  /** The first is at most every later one, and so on. */
  predicate Ascends(xs: seq<string>) {
    xs == [] || ((forall x :: x in xs[1..] ==> AtMost(xs[0], x)) && Ascends(xs[1..]))
  }

  lemma {:induction false} InsertHolds(x: string, xs: seq<string>)
    ensures multiset(Insert(x, xs)) == multiset{x} + multiset(xs)
    ensures forall y :: y in Insert(x, xs) <==> y == x || y in xs
  {
    hide AtMost;
    if xs != [] && !AtMost(x, xs[0]) {
      InsertHolds(x, xs[1..]);
      assert xs == [xs[0]] + xs[1..];
    }
  }

  lemma {:induction false} InsertAscends(x: string, xs: seq<string>)
    requires Ascends(xs)
    ensures Ascends(Insert(x, xs))
  {
    hide AtMost;
    if xs == [] || AtMost(x, xs[0]) {
      assert ([x] + xs)[1..] == xs;
      forall y | y in xs
        ensures AtMost(x, y)
      {
        if y != xs[0] {
          assert xs == [xs[0]] + xs[1..];
          AtMostChain(x, xs[0], y);
        }
      }
    } else {
      var rest := Insert(x, xs[1..]);
      InsertAscends(x, xs[1..]);
      InsertHolds(x, xs[1..]);
      AtMostTotal(x, xs[0]);
      assert ([xs[0]] + rest)[1..] == rest;
    }
  }

  lemma {:induction false} SortedHolds(xs: seq<string>)
    ensures Ascends(Sorted(xs)) && multiset(Sorted(xs)) == multiset(xs)
  {
    if xs != [] {
      SortedHolds(xs[1..]);
      InsertHolds(xs[0], Sorted(xs[1..]));
      InsertAscends(xs[0], Sorted(xs[1..]));
      assert xs == [xs[0]] + xs[1..];
    }
  }

  lemma FirstIsLeast(xs: seq<string>, y: string)
    requires Ascends(xs) && y in xs
    ensures AtMost(xs[0], y)
  {
    hide AtMost;
    if y == xs[0] {
      AtMostSame(y);
    } else {
      assert xs == [xs[0]] + xs[1..];
    }
  }

  /** There is only one way to sort. */
  lemma {:induction false} AscendingIsUnique(xs: seq<string>, ys: seq<string>)
    requires Ascends(xs) && Ascends(ys) && multiset(xs) == multiset(ys)
    ensures xs == ys
  {
    hide AtMost;
    assert |xs| == |multiset(xs)| == |multiset(ys)| == |ys|;
    if xs != [] {
      assert xs[0] in multiset(ys) && ys[0] in multiset(xs);
      FirstIsLeast(xs, ys[0]);
      FirstIsLeast(ys, xs[0]);
      AtMostEqual(xs[0], ys[0]);
      RestHolds(xs);
      RestHolds(ys);
      AscendingIsUnique(xs[1..], ys[1..]);
    }
  }

  lemma RestHolds(xs: seq<string>)
    requires xs != []
    ensures xs == [xs[0]] + xs[1..] && multiset(xs[1..]) == multiset(xs) - multiset{xs[0]}
  {
    assert xs == [xs[0]] + xs[1..];
  }

  // ----- Joining -----

  /** Neither empty nor with a comma. */
  predicate IsPart(s: string) {
    s != "" && ',' !in s
  }

  predicate AllParts(xs: seq<string>) {
    forall k :: 0 <= k < |xs| ==> IsPart(xs[k])
  }

  lemma {:induction false} SkipWithin(s: string, c: char)
    requires c in SkipBlanks(s)
    ensures c in s
  {
    if s != "" && IsSpace(s[0]) {
      SkipWithin(s[1..], c);
    }
  }

  lemma {:induction false} CollapseWithin(s: string)
    requires ',' in Collapse(s)
    ensures ',' in s
    decreases |s|
  {
    hide IsSpace;
    if IsSpace(s[0]) {
      CollapseWithin(SkipBlanks(s[1..]));
      SkipWithin(s[1..], ',');
    } else if s[0] != ',' {
      CollapseWithin(s[1..]);
    }
  }

  lemma {:induction false} SplitHasNoCommas(s: string)
    ensures forall k :: 0 <= k < |Split(s)| ==> ',' !in Split(s)[k]
    decreases |s|
  {
    var n := Find(s, ',');
    if n < |s| {
      SplitHasNoCommas(s[n + 1..]);
    }
  }

  lemma {:induction false} TidiedParts(parts: seq<string>)
    requires forall k :: 0 <= k < |parts| ==> ',' !in parts[k]
    ensures AllParts(Tidied(parts))
  {
    hide Collapse, Strip;
    if parts != [] {
      var part := Collapse(Strip(parts[0]));
      if ',' in part {
        CollapseWithin(Strip(parts[0]));
        StripWithin(parts[0], ',');
      }
      TidiedParts(parts[1..]);
    }
  }

  lemma SortedParts(prelude: string)
    ensures AllParts(Sorted(Parts(prelude)))
  {
    hide Split, Tidied, Sorted, IsPart;
    SplitHasNoCommas(prelude);
    TidiedParts(Split(prelude));
    var parts := Parts(prelude);
    SortedHolds(parts);
    forall k | 0 <= k < |Sorted(parts)|
      ensures IsPart(Sorted(parts)[k])
    {
      assert Sorted(parts)[k] in multiset(Sorted(parts));
      assert Sorted(parts)[k] in parts;
    }
  }

  /** Two joined lists can be told apart. */
  lemma {:induction false} JoinedIsInjective(xs: seq<string>, ys: seq<string>)
    requires AllParts(xs) && AllParts(ys) && Joined(xs) == Joined(ys)
    ensures xs == ys
  {
    if xs == [] || ys == [] {
      JoinedIsEmpty(xs);
      JoinedIsEmpty(ys);
    } else {
      FirstComma(xs);
      FirstComma(ys);
      var n := Find(Joined(xs), ',');
      assert xs[0] == Joined(xs)[..n] == ys[0];
      assert AllParts(xs[1..]) && AllParts(ys[1..]);
      assert xs == [xs[0]] + xs[1..] && ys == [ys[0]] + ys[1..];
      if n < |Joined(xs)| {
        JoinedIsInjective(xs[1..], ys[1..]);
      }
    }
  }

  lemma JoinedIsEmpty(xs: seq<string>)
    requires AllParts(xs)
    ensures Joined(xs) == "" <==> xs == []
  {
    if xs != [] {
      assert IsPart(xs[0]);
    }
  }

  lemma FirstComma(xs: seq<string>)
    requires AllParts(xs) && xs != []
    ensures var s, n := Joined(xs), Find(Joined(xs), ',');
            && n == |xs[0]| && s[..n] == xs[0] && (n == |s| <==> |xs| == 1)
            && (n < |s| ==> Joined(xs[1..]) == s[n + 1..])
  {
    var s, x := Joined(xs), xs[0];
    assert IsPart(x);
    assert s[..|x|] == x;
    assert |xs| > 1 ==> s[|x|] == ',' && s[|x| + 1..] == Joined(xs[1..]);
    CommaAt(s, |x|);
  }

  lemma {:induction false} CommaAt(s: string, n: nat)
    requires n <= |s| && ',' !in s[..n] && (n < |s| ==> s[n] == ',')
    ensures Find(s, ',') == n
  {
    if n > 0 {
      assert s[..n][0] == s[0];
      assert s[1..][..n - 1] == s[..n][1..];
      CommaAt(s[1..], n - 1);
    }
  }

  /** Two selector lists are one group to the script exactly when they have the same parts between their commas, in any
      order and up to blanks. */
  lemma SameGroupExactly(a: string, b: string)
    ensures Normalize(a) == Normalize(b) <==> multiset(Parts(a)) == multiset(Parts(b))
  {
    hide Parts, Sorted, Joined;
    SortedHolds(Parts(a));
    SortedHolds(Parts(b));
    SortedParts(a);
    SortedParts(b);
    if Normalize(a) == Normalize(b) {
      JoinedIsInjective(Sorted(Parts(a)), Sorted(Parts(b)));
    }
    if multiset(Parts(a)) == multiset(Parts(b)) {
      AscendingIsUnique(Sorted(Parts(a)), Sorted(Parts(b)));
    }
  }

  // ----- Commas inside brackets -----

  lemma {:induction false} CollapseCompact(t: string)
    requires forall k :: 0 <= k < |t| ==> !IsSpace(t[k])
    ensures Collapse(t) == t
  {
    hide IsSpace;
    if t != "" {
      CollapseCompact(t[1..]);
    }
  }

  lemma Compact(t: string)
    requires forall k :: 0 <= k < |t| ==> !IsSpace(t[k])
    ensures Collapse(Strip(t)) == t
  {
    hide IsSpace;
    CollapseCompact(t);
  }

  lemma SplitOff(x: string, rest: string)
    requires ',' !in x
    ensures Split(x + "," + rest) == [x] + Split(rest)
  {
    var s := x + "," + rest;
    assert s[..|x|] == x && s[|x|] == ',' && s[|x| + 1..] == rest;
    CommaAt(s, |x|);
    hide Find;
  }

  lemma SplitAlone(x: string)
    requires ',' !in x
    ensures Split(x) == [x]
  {
    hide Find;
  }

  lemma TidiedFirst(x: string, rest: seq<string>)
    requires x != "" && forall k :: 0 <= k < |x| ==> !IsSpace(x[k])
    ensures Tidied([x] + rest) == [x] + Tidied(rest)
  {
    hide IsSpace, Strip, Collapse;
    Compact(x);
    assert ([x] + rest)[1..] == rest;
  }

  predicate IsWord(s: string) {
    IsPart(s) && forall k :: 0 <= k < |s| ==> !IsSpace(s[k])
  }

  /** A text of three parts without blanks. */
  lemma ThreeParts(x: string, y: string, z: string)
    requires IsWord(x) && IsWord(y) && IsWord(z)
    ensures Parts(x + "," + (y + "," + z)) == [x, y, z]
  {
    hide IsSpace, Split, Tidied;
    SplitOff(x, y + "," + z);
    SplitOff(y, z);
    SplitAlone(z);
    TidiedFirst(x, [y] + [z]);
    TidiedFirst(y, [z]);
    TidiedFirst(z, []);
    TidiedNothing();
    assert [z] + [] == [z];
    assert [x] + ([y] + [z]) == [x, y, z];
  }

  lemma TidiedNothing()
    ensures Tidied([]) == []
  {
  }

  /** The commas inside `:is(...)` count too, so these two are one group to the script, although only the first selects
      every `c`. */
  lemma BracketedCommaExample()
    ensures Normalize("x:is(a,b),c") == Normalize("x:is(a,c,b)")
  {
    BracketedParts();
    hide Parts, Normalize;
    SameGroupExactly("x:is(a,b),c", "x:is(a,c,b)");
    var x, y, z := "x:is(a", "b)", "c";
    assert multiset([x, y, z]) == multiset([x, z, y]);
  }

  lemma BracketedParts()
    ensures Parts("x:is(a,b),c") == ["x:is(a", "b)", "c"] && Parts("x:is(a,c,b)") == ["x:is(a", "c", "b)"]
  {
    var x, y, z := "x:is(a", "b)", "c";
    assert IsWord(x) && IsWord(y) && IsWord(z);
    assert "x:is(a,b),c" == x + "," + (y + "," + z) && "x:is(a,c,b)" == x + "," + (z + "," + y);
    hide Parts, IsWord;
    ThreeParts(x, y, z);
    ThreeParts(x, z, y);
  }

  lemma TwoParts(x: string, y: string)
    requires IsWord(x) && IsWord(y)
    ensures Parts(x + "," + y) == [x, y]
  {
    hide IsSpace, Split, Tidied;
    SplitOff(x, y);
    SplitAlone(y);
    TidiedFirst(x, [y]);
    TidiedFirst(y, []);
    TidiedNothing();
    assert [y] + [] == [y];
    assert [x] + [y] == [x, y];
  }

  /** The order of the parts does not matter, nor what a part is. */
  lemma ReorderedExample()
    ensures Normalize("/*c*/a,b") == Normalize("b,/*c*/a")
  {
    hide Parts, Normalize, IsWord;
    ReorderedParts();
    SameGroupExactly("/*c*/a,b", "b,/*c*/a");
    Swapped("/*c*/a", "b");
  }

  lemma Swapped(x: string, y: string)
    ensures multiset([x, y]) == multiset([y, x])
  {
  }

  lemma ReorderedParts()
    ensures Parts("/*c*/a,b") == ["/*c*/a", "b"] && Parts("b,/*c*/a") == ["b", "/*c*/a"]
  {
    var x, y := "/*c*/a", "b";
    assert IsWord(x) && IsWord(y) && "/*c*/a,b" == x + "," + y && "b,/*c*/a" == y + "," + x;
    hide Parts, IsWord;
    TwoParts(x, y);
    TwoParts(y, x);
  }

  // ----- Up to blanks -----

  /** The first blank, or the length. */
  function FirstBlank(s: string): (n: nat)
    ensures n <= |s| && (n < |s| ==> IsSpace(s[n])) && forall k :: 0 <= k < n ==> !IsSpace(s[k])
  {
    if s == "" || IsSpace(s[0]) then 0 else 1 + FirstBlank(s[1..])
  }

  /** The words between blanks. */
  function Words(s: string): seq<string>
    decreases |s|
  {
    if s == "" then []
    else if IsSpace(s[0]) then Words(s[1..])
    else [s[..FirstBlank(s)]] + Words(s[FirstBlank(s)..])
  }

  /** The words of each part between commas that has any. */
  function ListWords(s: string): seq<seq<string>>
    decreases |s|
  {
    var n := Find(s, ',');
    (if Words(s[..n]) == [] then [] else [Words(s[..n])]) + if n == |s| then [] else ListWords(s[n + 1..])
  }

  /** Words with a space between them. */
  function Spaced(words: seq<string>): string {
    if words == [] then "" else if |words| == 1 then words[0] else words[0] + (" " + Spaced(words[1..]))
  }

  predicate Solid(word: string) {
    word != "" && forall k :: 0 <= k < |word| ==> !IsSpace(word[k])
  }

  lemma {:induction false} WordsAreSolid(s: string)
    ensures forall k :: 0 <= k < |Words(s)| ==> Solid(Words(s)[k])
    decreases |s|
  {
    hide IsSpace;
    if s != "" {
      if IsSpace(s[0]) {
        WordsAreSolid(s[1..]);
      } else {
        WordsAreSolid(s[FirstBlank(s)..]);
      }
    }
  }

  lemma FirstWord(word: string, rest: string)
    requires Solid(word) && (rest == "" || IsSpace(rest[0]))
    ensures Words(word + rest) == [word] + Words(rest)
  {
    hide IsSpace;
    var s := word + rest;
    assert forall k :: 0 <= k < |word| ==> s[k] == word[k];
    assert rest != "" ==> s[|word|] == rest[0];
    var n := FirstBlank(s);
    assert n == |word|;
    assert s[..|word|] == word && s[|word|..] == rest;
  }

  lemma {:induction false} WordsOfSpaced(words: seq<string>)
    requires forall k :: 0 <= k < |words| ==> Solid(words[k])
    ensures Words(Spaced(words)) == words
  {
    if words != [] {
      if |words| == 1 {
        assert words[0] + "" == words[0];
        FirstWord(words[0], "");
      } else {
        var rest := " " + Spaced(words[1..]);
        assert IsSpace(' ') && rest[1..] == Spaced(words[1..]);
        hide IsSpace;
        WordsOfSpaced(words[1..]);
        FirstWord(words[0], rest);
      }
      assert words == [words[0]] + words[1..];
    }
  }

  lemma {:induction false} CollapseBlank(s: string)
    requires s != "" && IsSpace(s[0])
    ensures Collapse(s) == " " + Collapse(SkipBlanks(s)) && Words(SkipBlanks(s)) == Words(s)
    ensures SkipBlanks(s) == "" || !IsSpace(SkipBlanks(s)[0])
    decreases |s|
  {
    hide IsSpace;
    if s[1..] != "" && IsSpace(s[1..][0]) {
      CollapseBlank(s[1..]);
    }
  }

  lemma {:induction false} CollapseWord(word: string, rest: string)
    requires forall k :: 0 <= k < |word| ==> !IsSpace(word[k])
    ensures Collapse(word + rest) == word + Collapse(rest)
  {
    hide IsSpace;
    if word == "" {
      assert word + rest == rest;
    } else {
      CollapseWord(word[1..], rest);
      assert (word + rest)[1..] == word[1..] + rest;
      assert word == [word[0]] + word[1..];
    }
  }

  /** No blank at either end. */
  predicate Trimmed(s: string) {
    s != "" ==> !IsSpace(s[0]) && !IsSpace(s[|s| - 1])
  }

  lemma SkipEnds(s: string)
    requires s != "" && !IsSpace(s[|s| - 1])
    ensures var t := SkipBlanks(s); t != "" && t[|t| - 1] == s[|s| - 1] && !IsSpace(t[0])
    decreases |s|
  {
    hide IsSpace;
    if IsSpace(s[0]) {
      SkipEnds(s[1..]);
    }
  }

  lemma {:induction false} CollapseIsSpaced(s: string)
    requires Trimmed(s)
    ensures Collapse(s) == Spaced(Words(s))
    decreases |s|
  {
    hide IsSpace;
    if s != "" {
      var n := FirstBlank(s);
      var word, rest := s[..n], s[n..];
      assert s == word + rest;
      CollapseWord(word, rest);
      if rest == "" {
        assert Words("") == [] && Collapse("") == "";
      } else {
        SkipEnds(rest);
        CollapseBlank(rest);
        CollapseIsSpaced(SkipBlanks(rest));
        SomeWords(SkipBlanks(rest));
      }
    }
  }

  lemma SomeWords(s: string)
    requires s != "" && !IsSpace(s[0])
    ensures Words(s) != []
  {
  }

  lemma {:induction false} WordsOfStrip(s: string)
    ensures Words(Strip(s)) == Words(s) && Trimmed(Strip(s))
    decreases |s|
  {
    hide IsSpace;
    if s != "" {
      if IsSpace(s[0]) {
        WordsOfStrip(s[1..]);
      } else if IsSpace(s[|s| - 1]) {
        WordsOfStrip(s[..|s| - 1]);
        TrailingSpace(s);
      }
    }
  }

  lemma {:induction false} TrailingSpace(s: string)
    requires s != "" && IsSpace(s[|s| - 1])
    ensures Words(s[..|s| - 1]) == Words(s)
    decreases |s|
  {
    hide IsSpace;
    var t := s[..|s| - 1];
    if t == "" {
      assert Words(s) == Words(s[1..]) == [];
    } else if IsSpace(s[0]) {
      TrailingSpace(s[1..]);
      assert s[1..][..|s| - 2] == t[1..];
    } else {
      var n := FirstBlank(s);
      SameBlank(s, t, n);
      hide FirstBlank;
      assert s[..n] == t[..n];
      TrailingSpace(s[n..]);
      assert s[n..][..|s[n..]| - 1] == t[n..];
    }
  }

  lemma SameBlank(s: string, t: string, n: nat)
    requires n == FirstBlank(s) && s != "" && t == s[..|s| - 1] && IsSpace(s[|s| - 1])
    ensures FirstBlank(t) == n
  {
    hide IsSpace;
    assert n <= |t|;
    var m := FirstBlank(t);
    assert forall k :: 0 <= k < |t| ==> t[k] == s[k];
  }

  lemma TidyIsSpaced(s: string)
    ensures Collapse(Strip(s)) == Spaced(Words(s)) && (Spaced(Words(s)) == "" <==> Words(s) == [])
  {
    WordsOfStrip(s);
    CollapseIsSpaced(Strip(s));
    WordsAreSolid(s);
  }

  function Each<A, B>(f: A -> B, xs: seq<A>): (out: seq<B>)
    ensures |out| == |xs|
  {
    seq(|xs|, k requires 0 <= k < |xs| => f(xs[k]))
  }

  lemma EachConcat<A, B>(f: A -> B, a: seq<A>, b: seq<A>)
    ensures Each(f, a + b) == Each(f, a) + Each(f, b)
  {
  }

  lemma EachFew<A, B>(f: A -> B, x: A)
    ensures Each(f, []) == [] && Each(f, [x]) == [f(x)]
  {
  }

  lemma {:induction false} PartsAreSpaced(s: string)
    ensures Parts(s) == Each(Spaced, ListWords(s))
    decreases |s|
  {
    hide Words, Spaced, Collapse, Strip, Find, Each;
    var n := Find(s, ',');
    var words := Words(s[..n]);
    TidyIsSpaced(s[..n]);
    EachFew(Spaced, words);
    if n < |s| {
      var rest := ListWords(s[n + 1..]);
      PartsAreSpaced(s[n + 1..]);
      assert ([s[..n]] + Split(s[n + 1..]))[1..] == Split(s[n + 1..]);
      EachConcat(Spaced, [words], rest);
      assert [] + rest == rest && [] + Each(Spaced, rest) == Each(Spaced, rest);
    } else {
      assert s[..n] == s && [s][1..] == [] && Tidied([]) == [];
      assert [words] + [] == [words] && [Spaced(words)] + [] == [Spaced(words)];
    }
  }

  lemma WordsOfEach(lists: seq<seq<string>>)
    requires forall i, k :: 0 <= i < |lists| && 0 <= k < |lists[i]| ==> Solid(lists[i][k])
    ensures Each(Words, Each(Spaced, lists)) == lists
  {
    hide Words, Spaced, Solid;
    forall i | 0 <= i < |lists|
      ensures Words(Spaced(lists[i])) == lists[i]
    {
      WordsOfSpaced(lists[i]);
    }
  }

  lemma {:induction false} ListWordsAreSolid(s: string)
    ensures forall i, k :: 0 <= i < |ListWords(s)| && 0 <= k < |ListWords(s)[i]| ==> Solid(ListWords(s)[i][k])
    decreases |s|
  {
    hide Words, Solid, Find;
    var n := Find(s, ',');
    WordsAreSolid(s[..n]);
    if n < |s| {
      ListWordsAreSolid(s[n + 1..]);
    }
  }

  lemma TakeOut<T>(a: seq<T>, k: nat)
    requires k < |a|
    ensures multiset(a) == multiset(a[..k] + a[k + 1..]) + multiset{a[k]}
    ensures multiset(a[..k] + a[k + 1..]) == multiset(a) - multiset{a[k]}
  {
    assert a == a[..k] + ([a[k]] + a[k + 1..]);
  }

  lemma EachWithout<A, B>(f: A -> B, a: seq<A>, k: nat)
    requires k < |a|
    ensures Each(f, a[..k] + a[k + 1..]) == Each(f, a)[..k] + Each(f, a)[k + 1..] && Each(f, a)[k] == f(a[k])
  {
  }

  lemma BackIn<A, B>(f: A -> B, a: seq<A>, j: nat, b: seq<A>, k: nat)
    requires j < |a| && k < |b| && a[j] == b[k]
    requires multiset(Each(f, a[..j] + a[j + 1..])) == multiset(Each(f, b[..k] + b[k + 1..]))
    ensures multiset(Each(f, a)) == multiset(Each(f, b))
  {
    hide Each;
    EachWithout(f, a, j);
    EachWithout(f, b, k);
    TakeOut(Each(f, a), j);
    TakeOut(Each(f, b), k);
  }

  lemma Where<T>(a: seq<T>, x: T) returns (k: nat)
    requires x in multiset(a)
    ensures k < |a| && a[k] == x
  {
    assert x in a;
    k :| k < |a| && a[k] == x;
  }

  /** What occurs equally often does so under any reading. */
  lemma {:induction false} SameEach<A, B>(f: A -> B, a: seq<A>, b: seq<A>)
    requires multiset(a) == multiset(b)
    ensures multiset(Each(f, a)) == multiset(Each(f, b))
    decreases |a|
  {
    hide Each;
    SameLength(a, b);
    if a == [] {
      assert b == [];
    } else {
      var k := Where(b, a[0]);
      Without(a, 0, b, k);
      SameEach(f, a[..0] + a[1..], b[..k] + b[k + 1..]);
      BackIn(f, a, 0, b, k);
    }
  }

  lemma SameLength<T>(a: seq<T>, b: seq<T>)
    requires multiset(a) == multiset(b)
    ensures |a| == |b| && forall k :: 0 <= k < |a| ==> a[k] in multiset(b)
  {
    assert |a| == |multiset(a)| == |multiset(b)| == |b|;
    assert forall k :: 0 <= k < |a| ==> a[k] in multiset(a);
  }

  lemma Without<T>(a: seq<T>, j: nat, b: seq<T>, k: nat)
    requires multiset(a) == multiset(b) && j < |a| && k < |b| && a[j] == b[k]
    ensures multiset(a[..j] + a[j + 1..]) == multiset(b[..k] + b[k + 1..])
  {
    TakeOut(a, j);
    TakeOut(b, k);
  }

  /** In words: two selector lists are one group exactly when their parts between commas, leaving out blank ones, are
      the same lists of words between blanks, each as often, in any order. */
  lemma SameGroupByWords(a: string, b: string)
    ensures Normalize(a) == Normalize(b) <==> multiset(ListWords(a)) == multiset(ListWords(b))
  {
    hide Normalize, Parts, ListWords, Words, Spaced;
    SameGroupExactly(a, b);
    PartsAreSpaced(a);
    PartsAreSpaced(b);
    ListWordsAreSolid(a);
    ListWordsAreSolid(b);
    WordsOfEach(ListWords(a));
    WordsOfEach(ListWords(b));
    if multiset(ListWords(a)) == multiset(ListWords(b)) {
      SameEach(Spaced, ListWords(a), ListWords(b));
    }
    if multiset(Parts(a)) == multiset(Parts(b)) {
      SameEach(Words, Parts(a), Parts(b));
    }
  }
}
