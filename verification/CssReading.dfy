/** What a browser reads, as against what the script reads: comments, strings and brackets, the case of custom
    properties, and importance at a declaration's end. */
module CssReading {
  import opened PythonText
  import opened CssText
  import opened CssRescan
  import opened CssFile
  import opened Wrappers
  import C = CssCascade
  import M = CssMeaning
  import S = CssShown

  // ----- A piece of a body -----

  function Prefixed(first: string, rest: Option<string>): Option<string> {
    if rest.None? then None else Some(first + rest.value)
  }

  predicate InString(open: seq<char>) {
    open != [] && open[|open| - 1] in {'"', '\''}
  }

  /** A bracket that closes nothing. */
  predicate Stuck(c: char, open: seq<char>) {
    c in {')', ']'} && (open == [] || open[|open| - 1] != c)
  }

  /** The closing marks still missing after a character. */
  function Opened(c: char, open: seq<char>): seq<char> {
    if open != [] && c == open[|open| - 1] && c in {'"', '\'', ')', ']'} then open[..|open| - 1]
    else if InString(open) then open
    else if c in {'"', '\''} then open + [c]
    else if c == '(' then open + [')']
    else if c == '[' then open + [']']
    else open
  }

  /** The text from `i` on without its comments, where `open` are the closing marks still missing. There is none when a
      comment, a string or a bracket stays open, or a backslash escapes a blank: then what follows is part of it. */
  function Cleaned(s: string, i: nat, open: seq<char>): Option<string>
    requires i <= |s|
    decreases |s| - i
  {
    if i == |s| then (if open == [] then Some("") else None)
    else if s[i] == '\\' then
      if i + 1 < |s| && !IsSpace(s[i + 1]) then Prefixed(s[i..i + 2], Cleaned(s, i + 2, open)) else None
    else if !InString(open) && CommentAt(s, i) then
      if CommentClose(s, i + 2) < |s| then Cleaned(s, AfterComment(s, i), open) else None
    else if !InString(open) && Stuck(s[i], open) then None
    else Prefixed([s[i]], Cleaned(s, i + 1, Opened(s[i], open)))
  }

  /** Custom properties keep their case. */
  function PropOf(name: string): string {
    if "--" <= name then name else Lower(name)
  }

  predicate EndsImportant(value: string) {
    && |value| >= 9 && Lower(value[|value| - 9..]) == "important"
    && var rest := Strip(value[..|value| - 9]);
       rest != "" && rest[|rest| - 1] == '!'
  }

  function Bare(value: string): string {
    if EndsImportant(value) then
      var rest := Strip(value[..|value| - 9]);
      Strip(rest[..|rest| - 1])
    else value
  }

  /** The declaration in a text without comments, if there is one. */
  function ReadText(text: string): (decls: seq<C.Decl>)
    ensures |decls| <= 1
  {
    var n := Find(text, ':');
    if n == |text| || Strip(text[..n]) == "" then []
    else
      var value := Strip(text[n + 1..]);
      [C.Decl(PropOf(Strip(text[..n])), Bare(value), EndsImportant(value), 0)]
  }

  function ReadPiece(piece: string): (decls: seq<C.Decl>)
    ensures |decls| <= 1
  {
    match Cleaned(piece, 0, []) case None => [] case Some(text) => ReadText(Strip(text))
  }

  // ----- Blanks around a piece -----

  lemma {:induction false} CleanedShift(a: string, i: nat, b: string, j: nat, open: seq<char>)
    requires SameAfter(a, i, b, j)
    ensures i <= |a| && j <= |b| && Cleaned(a, i, open) == Cleaned(b, j, open)
    decreases |a| - i
  {
    hide CommentAt, AfterComment, CommentClose, Prefixed, IsSpace, SameAfter, InString, Stuck, Opened;
    SameBounds(a, i, b, j);
    if i < |a| {
      SameOn(a, i, b, j, 0);
      SameOn(a, i, b, j, 1);
      if a[i] == '\\' {
        if i + 1 < |a| {
          SameOn(a, i + 1, b, j + 1, 0);
          SameOn(a, i, b, j, 2);
          CleanedShift(a, i + 2, b, j + 2, open);
        }
      } else if !InString(open) && CommentAt(a, i) {
        CommentLength(a, i);
        CommentShift(a, i, b, j);
        SameOn(a, i, b, j, 2);
        CommentCloseShift(a, i + 2, b, j + 2);
        CleanedShift(a, AfterComment(a, i), b, AfterComment(b, j), open);
      } else {
        CleanedShift(a, i + 1, b, j + 1, Opened(a[i], open));
      }
    }
  }

  lemma CommentLength(s: string, i: nat)
    requires CommentAt(s, i)
    ensures i + 1 < |s|
  {
  }

  lemma LeadingBlank(s: string)
    requires s != "" && IsSpace(s[0])
    ensures Cleaned(s, 0, []) == Prefixed([s[0]], Cleaned(s[1..], 0, []))
  {
    BlankIsPlain(s[0]);
    assert s[1..][0..] == s[1..];
    CleanedShift(s, 1, s[1..], 0, []);
    hide IsSpace;
  }

  lemma BlankIsPlain(c: char)
    requires IsSpace(c)
    ensures c !in {'\\', '"', '\'', '(', ')', '[', ']', '/'}
  {
  }

  function Suffixed(first: Option<string>, last: char): Option<string> {
    if first.None? then None else Some(first.value + [last])
  }

  lemma PrefixedSuffixed(a: string, first: Option<string>, last: char)
    ensures Prefixed(a, Suffixed(first, last)) == Suffixed(Prefixed(a, first), last)
  {
    if first.Some? {
      assert a + (first.value + [last]) == (a + first.value) + [last];
    }
  }

  lemma {:induction false} CommentCloseBlank(s: string, c: char, i: nat)
    requires i <= |s| && IsSpace(c)
    ensures var k := CommentClose(s, i);
            CommentClose(s + [c], i) == if k == |s| then |s| + 1 else k
    decreases |s| - i
  {
    assert !IsSpace('/');
    hide IsSpace;
    if i + 1 < |s| {
      CommentCloseBlank(s, c, i + 1);
    }
  }

  lemma CommentAtBlank(s: string, c: char, i: nat)
    requires i < |s| && IsSpace(c)
    ensures CommentAt(s + [c], i) == CommentAt(s, i)
    ensures CommentAt(s, i) && CommentClose(s, i + 2) < |s| ==>
              CommentClose(s + [c], i + 2) < |s| && AfterComment(s + [c], i) == AfterComment(s, i) <= |s|
    ensures CommentAt(s, i) && CommentClose(s, i + 2) == |s| ==> CommentClose(s + [c], i + 2) == |s + [c]|
  {
    assert !IsSpace('*');
    hide IsSpace, CommentClose;
    if CommentAt(s, i) {
      CommentCloseBlank(s, c, i + 2);
    }
  }

  /** A blank at the end stays a blank at the end. */
  lemma {:induction false} TrailingBlank(s: string, c: char, i: nat, open: seq<char>)
    requires i <= |s| && IsSpace(c)
    ensures Cleaned(s + [c], i, open) == Suffixed(Cleaned(s, i, open), c)
    decreases |s| - i
  {
    var t := s + [c];
    if i == |s| {
      BlankAlone(s, c, open);
    } else {
      assert t[i] == s[i] && (i + 1 < |s| ==> t[i + 1] == s[i + 1] && t[i..i + 2] == s[i..i + 2]);
      CommentAtBlank(s, c, i);
      hide IsSpace, CommentAt, AfterComment, CommentClose, Prefixed, Suffixed, InString, Stuck, Opened;
      SuffixedNone(c);
      if s[i] == '\\' {
        if i + 1 < |s| {
          TrailingBlank(s, c, i + 2, open);
          PrefixedSuffixed(s[i..i + 2], Cleaned(s, i + 2, open), c);
        }
      } else if !InString(open) && CommentAt(s, i) {
        if CommentClose(s, i + 2) < |s| {
          TrailingBlank(s, c, AfterComment(s, i), open);
        }
      } else {
        TrailingBlank(s, c, i + 1, Opened(s[i], open));
        PrefixedSuffixed([s[i]], Cleaned(s, i + 1, Opened(s[i], open)), c);
      }
    }
  }

  lemma BlankAlone(s: string, c: char, open: seq<char>)
    requires IsSpace(c)
    ensures Cleaned(s + [c], |s|, open) == Suffixed(Cleaned(s, |s|, open), c)
  {
    var t := s + [c];
    assert t[|s|] == c && Cleaned(t, |t|, open) == if open == [] then Some("") else None;
    assert [c] + "" == "" + [c];
    assert c !in {'\\', '"', '\'', '(', ')', '[', ']', '/'};
  }

  lemma SuffixedNone(c: char)
    ensures Suffixed(None, c) == None
  {
  }

  lemma StripEnds(w: char, s: string)
    requires IsSpace(w)
    ensures Strip([w] + s) == Strip(s) && Strip(s + [w]) == Strip(s)
    decreases |s|
  {
    hide IsSpace;
    assert ([w] + s)[1..] == s;
    if s == "" {
      assert s + [w] == [w];
      assert [w][1..] == "";
    } else if IsSpace(s[0]) {
      assert (s + [w])[1..] == s[1..] + [w];
      StripEnds(w, s[1..]);
    } else {
      assert (s + [w])[..|s|] == s;
    }
  }

  /** Blanks around a piece change nothing in it. */
  lemma {:induction false} CleanedStrip(piece: string)
    ensures var x, y := Cleaned(piece, 0, []), Cleaned(Strip(piece), 0, []);
            x.Some? == y.Some? && (x.Some? ==> Strip(x.value) == Strip(y.value))
    decreases |piece|
  {
    hide IsSpace, Cleaned;
    if piece != "" {
      var n := |piece| - 1;
      if IsSpace(piece[0]) {
        LeadingBlank(piece);
        CleanedStrip(piece[1..]);
        var rest := Cleaned(piece[1..], 0, []);
        if rest.Some? {
          StripEnds(piece[0], rest.value);
        }
      } else if IsSpace(piece[n]) {
        assert piece == piece[..n] + [piece[n]];
        TrailingBlank(piece[..n], piece[n], 0, []);
        CleanedStrip(piece[..n]);
        var rest := Cleaned(piece[..n], 0, []);
        if rest.Some? {
          StripEnds(piece[n], rest.value);
        }
      }
    }
  }

  lemma ReadStripped(piece: string)
    ensures ReadPiece(Strip(piece)) == ReadPiece(piece)
    ensures Cleaned(Strip(piece), 0, []).Some? == Cleaned(piece, 0, []).Some?
  {
    hide Strip, Cleaned, ReadText;
    CleanedStrip(piece);
  }

  // ----- Where a declaration ends -----

  /** A declaration's end, with the closing marks missing there; or none, when a comment stays open or a backslash
      escapes a blank. */
  datatype End = End(at: nat, open: seq<char>) | Unfinished

  /** The end of the declaration that the text goes on with: a semicolon outside comments, strings and brackets. */
  function Ends(s: string, i: nat, open: seq<char>): (r: End)
    requires i <= |s|
    ensures r.End? ==> i <= r.at <= |s| && (r.at < |s| ==> s[r.at] == ';' && r.open == [])
    decreases |s| - i
  {
    if i == |s| then End(i, open)
    else if s[i] == '\\' then (if i + 1 < |s| && !IsSpace(s[i + 1]) then Ends(s, i + 2, open) else Unfinished)
    else if !InString(open) && CommentAt(s, i) then
      (if CommentClose(s, i + 2) < |s| then Ends(s, AfterComment(s, i), open) else Unfinished)
    else if open == [] && s[i] == ';' then End(i, [])
    else Ends(s, i + 1, Opened(s[i], open))
  }

  function MovedEnd(r: End, offset: int): End {
    match r case Unfinished => Unfinished case End(at, open) => End(Move(at, offset), open)
  }

  /** One step of it. */
  lemma EndsStep(s: string, i: nat, open: seq<char>)
    requires i < |s|
    ensures Ends(s, i, open) ==
            if s[i] == '\\' then (if i + 1 < |s| && !IsSpace(s[i + 1]) then Ends(s, i + 2, open) else Unfinished)
            else if !InString(open) && CommentAt(s, i) then
              (if CommentClose(s, i + 2) < |s| then Ends(s, AfterComment(s, i), open) else Unfinished)
            else if open == [] && s[i] == ';' then End(i, [])
            else Ends(s, i + 1, Opened(s[i], open))
  {
    hide AfterComment, CommentClose, IsSpace, InString, Opened;
  }

  /** Texts that agree from here on agree on the next two characters, and after them. */
  lemma SameNext(a: string, i: nat, b: string, j: nat)
    requires SameAfter(a, i, b, j) && i < |a|
    ensures |a| - i == |b| - j && a[i] == b[j] && CommentAt(a, i) == CommentAt(b, j) && SameAfter(a, i + 1, b, j + 1)
    ensures i + 1 < |a| ==> a[i + 1] == b[j + 1] && SameAfter(a, i + 2, b, j + 2)
  {
    SameOn(a, i, b, j, 0);
    SameOn(a, i, b, j, 1);
    hide SameAfter, CommentAt;
    if i + 1 < |a| {
      SameOn(a, i + 1, b, j + 1, 0);
      SameOn(a, i, b, j, 2);
    }
  }

  /** And after a comment. */
  lemma SameAfterComment(a: string, i: nat, b: string, j: nat)
    requires SameAfter(a, i, b, j) && CommentAt(a, i) && CommentAt(b, j)
    ensures AfterComment(b, j) == AfterComment(a, i) + j - i && SameAfter(a, AfterComment(a, i), b, AfterComment(b, j))
    ensures CommentClose(b, j + 2) == CommentClose(a, i + 2) + j - i
  {
    hide AfterComment, CommentClose, SameAfter;
    CommentLength(a, i);
    CommentShift(a, i, b, j);
    SameOn(a, i, b, j, 2);
    CommentCloseShift(a, i + 2, b, j + 2);
  }

  lemma {:induction false} EndsShift(a: string, i: nat, b: string, j: nat, open: seq<char>)
    requires SameAfter(a, i, b, j)
    ensures i <= |a| && j <= |b| && Ends(b, j, open) == MovedEnd(Ends(a, i, open), j - i)
    decreases |a| - i
  {
    hide CommentAt, AfterComment, CommentClose, IsSpace, SameAfter, InString, Opened;
    SameBounds(a, i, b, j);
    if i < |a| {
      EndsStep(a, i, open);
      EndsStep(b, j, open);
      hide Ends;
      SameNext(a, i, b, j);
      if a[i] == '\\' {
        if i + 1 < |a| {
          EndsShift(a, i + 2, b, j + 2, open);
        }
      } else if !InString(open) && CommentAt(a, i) {
        SameAfterComment(a, i, b, j);
        EndsShift(a, AfterComment(a, i), b, AfterComment(b, j), open);
      } else {
        EndsShift(a, i + 1, b, j + 1, Opened(a[i], open));
      }
    }
  }

  /** A text that closes everything ends as well where more follows after a semicolon. */
  lemma {:induction false} EndsWithin(t: string, s: string, i: nat, open: seq<char>)
    requires i <= |t| <= |s| && SameBefore(t, s, |t|) && (|t| < |s| ==> s[|t|] == ';')
    requires Ends(t, i, open) == End(|t|, [])
    ensures Ends(s, i, open) == End(|t|, [])
    decreases |t| - i
  {
    hide AfterComment, CommentClose, IsSpace, SameBefore, InString, Opened;
    if i < |t| {
      SameAt(t, s, |t|, i);
      if t[i] == '\\' {
        SameAt(t, s, |t|, i + 1);
        EndsWithin(t, s, i + 2, open);
      } else if !InString(open) && CommentAt(t, i) {
        CommentWithin(t, s, i);
        EndsWithin(t, s, AfterComment(t, i), open);
      } else {
        EndsWithin(t, s, i + 1, Opened(t[i], open));
      }
    }
  }

  lemma CommentWithin(t: string, s: string, i: nat)
    requires |t| <= |s| && SameBefore(t, s, |t|) && CommentAt(t, i) && CommentClose(t, i + 2) < |t|
    ensures CommentAt(s, i) && CommentClose(s, i + 2) == CommentClose(t, i + 2) < |s|
    ensures AfterComment(s, i) == AfterComment(t, i)
  {
    hide CommentClose, SameBefore;
    SameAt(t, s, |t|, i);
    CommentClosePrefix(t, s, i + 2, |t|);
  }

  /** And a declaration taken out of its body still ends where it did. */
  lemma {:induction false} EndsAlone(s: string, o: nat, i: nat, open: seq<char>, j: nat, left: seq<char>)
    requires o <= i <= |s| && Ends(s, i, open) == End(j, left)
    ensures i <= j <= |s| && Ends(s[o..j], i - o, open) == End(j - o, left)
    decreases |s| - i
  {
    hide AfterComment, CommentClose, IsSpace, InString, Opened, Ends, CommentAt;
    var t := s[o..j];
    if i == j {
      EndsHere(s, i, open, left);
      EndsLast(t, open);
    } else {
      EndsStep(s, i, open);
      EndsStep(t, i - o, open);
      CharsAlone(s, o, i, j);
      if s[i] == '\\' {
        EndsAlone(s, o, i + 2, open, j, left);
      } else if !InString(open) && CommentAt(s, i) {
        EndsAlone(s, o, AfterComment(s, i), open, j, left);
        CommentAlone(s, o, i, j);
      } else {
        EndsAlone(s, o, i + 1, Opened(s[i], open), j, left);
      }
    }
  }

  lemma EndsHere(s: string, i: nat, open: seq<char>, left: seq<char>)
    requires i <= |s| && Ends(s, i, open) == End(i, left)
    ensures open == left
  {
    hide AfterComment, CommentClose, IsSpace, InString, Opened;
  }

  lemma EndsLast(s: string, open: seq<char>)
    ensures Ends(s, |s|, open) == End(|s|, open)
  {
  }

  lemma CharsAlone(s: string, o: nat, i: nat, j: nat)
    requires o <= i < j <= |s|
    ensures var t := s[o..j];
            && t[i - o] == s[i] && (CommentAt(t, i - o) ==> CommentAt(s, i))
            && (i + 1 < j ==> t[i + 1 - o] == s[i + 1])
  {
  }

  lemma CommentAlone(s: string, o: nat, i: nat, j: nat)
    requires o <= i <= j <= |s| && CommentAt(s, i) && CommentClose(s, i + 2) < |s| && AfterComment(s, i) <= j
    ensures var t := s[o..j];
            && CommentAt(t, i - o) && CommentClose(t, i + 2 - o) < |t|
            && AfterComment(t, i - o) == AfterComment(s, i) - o
  {
    hide CommentClose;
    var t, head := s[o..j], s[..j];
    assert SameBefore(s, head, j) && SameAfter(head, i + 2, t, i + 2 - o) by {
      hide CommentAt, AfterComment;
      assert s[..j] == head[..j] && head[i + 2..] == t[i + 2 - o..];
    }
    hide SameBefore, SameAfter;
    CommentClosePrefix(s, head, i + 2, j);
    CommentCloseShift(head, i + 2, t, i + 2 - o);
  }

  // ----- Blanks around it -----

  lemma {:induction false} EndsTrailing(s: string, c: char, i: nat, open: seq<char>, left: seq<char>)
    requires i <= |s| && IsSpace(c) && Ends(s + [c], i, open) == End(|s| + 1, left)
    ensures Ends(s, i, open) == End(|s|, left)
    decreases |s| - i
  {
    var t := s + [c];
    BlankIsPlain(c);
    if i == |s| {
      assert t[i] == c && Opened(c, open) == open && !CommentAt(t, i);
    } else {
      assert t[i] == s[i] && (i + 1 < |s| ==> t[i + 1] == s[i + 1]);
      CommentAtBlank(s, c, i);
      hide IsSpace, CommentAt, AfterComment, CommentClose, InString, Opened;
      if s[i] == '\\' {
        assert t[|s|] == c;
        EndsTrailing(s, c, i + 2, open, left);
      } else if !InString(open) && CommentAt(s, i) {
        EndsTrailing(s, c, AfterComment(s, i), open, left);
      } else {
        EndsTrailing(s, c, i + 1, Opened(s[i], open), left);
      }
    }
  }

  lemma EndsLeading(s: string)
    requires s != "" && IsSpace(s[0]) && Ends(s, 0, []) == End(|s|, [])
    ensures Ends(s[1..], 0, []) == End(|s| - 1, [])
  {
    BlankIsPlain(s[0]);
    assert s[0] != ';' by {
      assert !IsSpace(';');
    }
    assert s[1..][0..] == s[1..];
    EndsShift(s, 1, s[1..], 0, []);
    hide IsSpace;
  }

  lemma {:induction false} EndsStripped(s: string)
    requires Ends(s, 0, []) == End(|s|, [])
    ensures Ends(Strip(s), 0, []) == End(|Strip(s)|, [])
    decreases |s|
  {
    hide IsSpace, Ends;
    if s != "" {
      var n := |s| - 1;
      if IsSpace(s[0]) {
        EndsLeading(s);
        EndsStripped(s[1..]);
      } else if IsSpace(s[n]) {
        assert s == s[..n] + [s[n]];
        EndsTrailing(s[..n], s[n], 0, [], []);
        EndsStripped(s[..n]);
      }
    }
  }

  // ----- A body -----

  predicate Flat(body: string) {
    forall k :: 0 <= k < |body| ==> body[k] != '{' && body[k] != '}'
  }

  /** From `i` on, every comment, string and bracket is closed. */
  predicate Closed(body: string, i: nat)
    requires i <= |body|
    decreases |body| - i
  {
    i == |body|
    || (Ends(body, i, []).End? && Ends(body, i, []).open == [] && Closed(body, Next(body, Ends(body, i, []).at)))
  }

  /** No nested rule, and nothing left open. */
  predicate Plain(body: string) {
    Flat(body) && Closed(body, 0)
  }

  /** A bracket stays open to the end. */
  predicate Gapes(body: string, i: nat)
    requires i <= |body|
    decreases |body| - i
  {
    && i < |body| && Ends(body, i, []).End?
    && var end := Ends(body, i, []);
       if end.open != [] then !InString(end.open) else Gapes(body, Next(body, end.at))
  }

  function ReadPieces(body: string, i: nat): seq<C.Decl>
    requires i <= |body|
    decreases |body| - i
  {
    if i == |body| || Ends(body, i, []).Unfinished? then []
    else
      var j := Ends(body, i, []).at;
      ReadPiece(body[i..j]) + ReadPieces(body, Next(body, j))
  }

  lemma {:induction false} ClosedIsShut(body: string, i: nat)
    requires i <= |body| && Closed(body, i)
    ensures !Gapes(body, i)
    decreases |body| - i
  {
    hide Ends;
    if i < |body| {
      ClosedIsShut(body, Next(body, Ends(body, i, []).at));
    }
  }

  /** A bracket that stays open takes in everything after it, to the end of the stylesheet. */
  predicate Swallows(body: string) {
    Flat(body) && Gapes(body, 0)
  }

  /** How a browser tells selectors apart, and how it reads the other bodies, for example those with nested rules or an
      open string in them: as it likes. */
  datatype Browser = Browser(home: (string, string) -> C.Group, other: string -> seq<C.Decl>)

  function Read(w: Browser, body: string): seq<C.Decl> {
    if Plain(body) || Swallows(body) then ReadPieces(body, 0) else w.other(body)
  }

  function Home(w: Browser, leaf: Leaf): C.Group {
    w.home(leaf.context, leaf.prelude)
  }

  function Says(w: Browser, leaf: Leaf): seq<M.Item> {
    M.RuleItems(0, Home(w, leaf), Read(w, leaf.body))
  }

  function SaysAll(w: Browser, leaves: seq<Leaf>): seq<M.Item> {
    if leaves == [] then []
    else Says(w, leaves[0]) + if Swallows(leaves[0].body) then [] else SaysAll(w, leaves[1..])
  }

  /** What an element computes from a stylesheet in the browser. */
  function Sees(w: Browser, css: string, e: M.Element, prop: string): Option<C.Decl>
    requires Accepted(css)
  {
    S.Computed(e, prop, SaysAll(w, Views(css, Rules(css).value)))
  }

  lemma SaysOne(w: Browser, leaf: Leaf)
    ensures SaysAll(w, [leaf]) == Says(w, leaf) && SaysAll(w, []) == []
  {
    hide Says, Swallows;
    assert [leaf][1..] == [];
  }

  lemma {:induction false} SaysConcat(w: Browser, a: seq<Leaf>, b: seq<Leaf>)
    requires forall k :: 0 <= k < |a| ==> !Swallows(a[k].body)
    ensures SaysAll(w, a + b) == SaysAll(w, a) + SaysAll(w, b)
  {
    hide Says, Swallows;
    if a == [] {
      assert a + b == b;
    } else {
      assert (a + b)[1..] == a[1..] + b;
      SaysConcat(w, a[1..], b);
    }
  }

  // ----- A body put together -----

  lemma {:induction false} PiecesShift(a: string, i: nat, b: string, j: nat)
    requires SameAfter(a, i, b, j)
    ensures i <= |a| && j <= |b| && ReadPieces(b, j) == ReadPieces(a, i) && Closed(b, j) == Closed(a, i)
    decreases |a| - i
  {
    hide Ends, SameAfter, ReadPiece;
    SameBounds(a, i, b, j);
    if i < |a| {
      EndsShift(a, i, b, j, []);
      var end := Ends(a, i, []);
      if end.End? {
        PiecesStep(a, i);
        PiecesStep(b, j);
        hide ReadPieces, Closed;
        SameOn(a, i, b, j, end.at - i);
        SameOn(a, i, b, j, Next(a, end.at) - i);
        PiecesShift(a, Next(a, end.at), b, Next(b, Ends(b, j, []).at));
      }
    }
  }

  lemma PiecesStep(s: string, i: nat)
    requires i < |s| && Ends(s, i, []).End?
    ensures var end := Ends(s, i, []);
            && ReadPieces(s, i) == ReadPiece(s[i..end.at]) + ReadPieces(s, Next(s, end.at))
            && Closed(s, i) == (end.open == [] && Closed(s, Next(s, end.at)))
  {
    hide Ends, ReadPiece;
  }

  /** One text that closes everything. */
  lemma OnePiece(t: string)
    requires t != "" && Ends(t, 0, []) == End(|t|, [])
    ensures Closed(t, 0) && ReadPieces(t, 0) == ReadPiece(t)
  {
    hide Ends, ReadPiece;
    assert t[0..|t|] == t;
  }

  /** And more after it. */
  lemma FirstPiece(t: string, rest: string)
    requires t != "" && Ends(t, 0, []) == End(|t|, [])
    ensures var s := t + (";" + rest);
            Closed(s, 0) == Closed(rest, 0) && ReadPieces(s, 0) == ReadPiece(t) + ReadPieces(rest, 0)
  {
    hide Ends, ReadPiece;
    var s := t + (";" + rest);
    assert s[..|t|] == t == t[..|t|] && s[|t|] == ';';
    EndsWithin(t, s, 0, []);
    assert s[0..|t|] == t;
    assert s[|t| + 1..] == rest == rest[0..];
    PiecesShift(s, |t| + 1, rest, 0);
  }
}
