/** What a tenant's `.env` says after a deployment, over the placement's own fields and the file's own password. */
module TenantEnvValues {
  import opened PythonText
  import opened TenantEnv
  import opened TenantEnvFile
  import opened Wrappers

  // ----- Reading a line's key -----

  /** The text is the key with blanks around it. */
  ghost predicate Trims(s: string, key: string, a: nat) {
    && a + |key| <= |s| && s[a..a + |key|] == key
    && forall k :: 0 <= k < |s| && !(a <= k < a + |key|) ==> IsSpace(s[k])
  }

  /** The line's text up to its first `=`, or all of it without one, is the key with blanks around it. */
  ghost predicate KeyIs(line: string, key: string) {
    exists n, a ::
      && 0 <= n <= |line| && '=' !in line[..n] && (n == |line| || line[n] == '=')
      && Trims(line[..n], key, a)
  }

  lemma {:induction false} StripTrims(s: string) returns (a: nat)
    ensures Trims(s, Strip(s), a)
    decreases |s|
  {
    if s == "" {
      a := 0;
    } else if IsSpace(s[0]) {
      a := StripTrims(s[1..]);
      TrimsAfter(s, Strip(s), a);
      a := a + 1;
    } else if IsSpace(s[|s| - 1]) {
      a := StripTrims(s[..|s| - 1]);
      TrimsBefore(s, Strip(s), a);
    } else {
      a := 0;
      assert s[0..0 + |s|] == s;
    }
  }

  lemma TrimsAfter(s: string, key: string, a: nat)
    requires s != "" && IsSpace(s[0]) && Trims(s[1..], key, a)
    ensures Trims(s, key, a + 1)
  {
    hide IsSpace;
    var t := s[1..];
    assert s[a + 1..a + 1 + |key|] == t[a..a + |key|] && forall k :: 0 < k < |s| ==> s[k] == t[k - 1];
  }

  lemma TrimsBefore(s: string, key: string, a: nat)
    requires s != "" && IsSpace(s[|s| - 1]) && Trims(s[..|s| - 1], key, a)
    ensures Trims(s, key, a)
  {
    hide IsSpace;
    var t := s[..|s| - 1];
    assert s[a..a + |key|] == t[a..a + |key|] && forall k :: 0 <= k < |t| ==> s[k] == t[k];
  }

  lemma TrimsOnce(s: string, x: string, a: nat, y: string, b: nat)
    requires Trims(s, x, a) && Trims(s, y, b) && y != "" && !IsSpace(y[0]) && !IsSpace(y[|y| - 1])
    requires x != "" ==> !IsSpace(x[0]) && !IsSpace(x[|x| - 1])
    ensures x == y
  {
    hide IsSpace;
    assert s[b] == y[0] && s[b + |y| - 1] == y[|y| - 1];
    assert x != "" ==> s[a] == x[0] && s[a + |x| - 1] == x[|x| - 1];
  }

  lemma {:induction false} StripEnds(s: string)
    ensures Strip(s) != "" ==> !IsSpace(Strip(s)[0]) && !IsSpace(Strip(s)[|Strip(s)| - 1])
    decreases |s|
  {
    hide IsSpace;
    if s != "" {
      if IsSpace(s[0]) {
        StripEnds(s[1..]);
      } else if IsSpace(s[|s| - 1]) {
        StripEnds(s[..|s| - 1]);
      }
    }
  }

  lemma {:induction false} BeforeEqIs(line: string)
    ensures var n := |BeforeEq(line)|;
            && n <= |line| && BeforeEq(line) == line[..n] && '=' !in line[..n] && (n == |line| || line[n] == '=')
  {
    if line != "" && line[0] != '=' {
      BeforeEqIs(line[1..]);
      var n := |BeforeEq(line)|;
      assert line[..n] == [line[0]] + line[1..][..n - 1];
    }
  }

  lemma KeyIsExactly(line: string, key: string)
    requires Plain(key)
    ensures Key(line) == key <==> KeyIs(line, key)
  {
    hide Strip, IsSpace, BeforeEq;
    BeforeEqIs(line);
    var n := |BeforeEq(line)|;
    StripEnds(line[..n]);
    var a := StripTrims(line[..n]);
    if KeyIs(line, key) {
      var m, b :| 0 <= m <= |line| && '=' !in line[..m] && (m == |line| || line[m] == '=') && Trims(line[..m], key, b);
      OneEq(line, n, m);
      TrimsOnce(line[..n], Strip(line[..n]), a, key, b);
    }
  }

  lemma OneEq(line: string, n: nat, m: nat)
    requires n <= |line| && '=' !in line[..n] && (n == |line| || line[n] == '=')
    requires m <= |line| && '=' !in line[..m] && (m == |line| || line[m] == '=')
    ensures n == m
  {
  }

  /** The characters that end a line. */
  lemma BreaksAre(c: char)
    ensures IsBreak(c) <==> c in ['\n', '\U{b}', '\U{c}', '\r', '\U{1c}', '\U{1d}', '\U{1e}', '\U{85}', '\U{2028}',
                                  '\U{2029}']
  {
  }

  // ----- Reading a value -----

  /** The first line that begins with the key and `=`. */
  ghost predicate FirstOf(lines: seq<string>, key: string, k: int) {
    0 <= k < |lines| && key + "=" <= lines[k] && forall j :: 0 <= j < k ==> !(key + "=" <= lines[j])
  }

  /** The text without the blanks around it. */
  ghost predicate TrimsTo(s: string, value: string) {
    && (exists a: nat :: Trims(s, value, a))
    && (value != "" ==> !IsSpace(value[0]) && !IsSpace(value[|value| - 1]))
  }

  /** A value is what follows the key and `=` on the first line that begins with them, without the blanks around it, and
      nothing without such a line. */
  lemma ReadEnvValueExactly(lines: seq<string>, key: string)
    ensures (forall k :: !FirstOf(lines, key, k)) ==> ReadEnvValue(lines, key) == ""
    ensures forall k :: FirstOf(lines, key, k) ==> TrimsTo(lines[k][|key| + 1..], ReadEnvValue(lines, key))
  {
    hide IsSpace, Strip;
    SuffixesFirst(lines, key);
    var found := Suffixes(lines, key + "=");
    if found != [] {
      StripEnds(found[0]);
      var a := StripTrims(found[0]);
      assert TrimsTo(found[0], Strip(found[0]));
    }
  }

  lemma {:induction false} SuffixesFirst(lines: seq<string>, key: string)
    ensures var found := Suffixes(lines, key + "=");
            && (found == [] <==> forall k :: !FirstOf(lines, key, k))
            && forall k :: FirstOf(lines, key, k) ==> found != [] && found[0] == lines[k][|key| + 1..]
  {
    if lines != [] {
      var n := |lines| - 1;
      var init := lines[..n];
      SuffixesFirst(init, key);
      forall k | 0 <= k < n
        ensures FirstOf(lines, key, k) <==> FirstOf(init, key, k)
      {
        assert forall j :: 0 <= j <= k ==> lines[j] == init[j];
      }
      FirstAtEnd(lines, key);
    }
  }

  lemma FirstAtEnd(lines: seq<string>, key: string)
    requires lines != []
    ensures var n := |lines| - 1;
            FirstOf(lines, key, n) <==> key + "=" <= lines[n] && forall k :: !FirstOf(lines[..n], key, k)
  {
    var n := |lines| - 1;
    var init := lines[..n];
    if FirstOf(lines, key, n) {
      forall k | 0 <= k < n
        ensures !FirstOf(init, key, k)
      {
        assert lines[k] == init[k];
      }
    }
    if key + "=" <= lines[n] && forall k :: !FirstOf(init, key, k) {
      NoneBegins(init, key, n);
    }
  }

  lemma {:induction false} NoneBegins(lines: seq<string>, key: string, n: nat)
    requires n <= |lines| && forall k :: !FirstOf(lines, key, k)
    ensures forall j :: 0 <= j < n ==> !(key + "=" <= lines[j])
  {
    if n > 0 {
      NoneBegins(lines, key, n - 1);
      assert !FirstOf(lines, key, n - 1);
    }
  }

  // ----- What the file says -----

  /** Some line gives the key this value, and every line of the key does. */
  ghost predicate Says(lines: seq<string>, key: string, value: string) {
    && (key + "=" + value) in lines
    && forall k :: 0 <= k < |lines| && KeyIs(lines[k], key) ==> lines[k] == key + "=" + value
  }

  lemma SaysByKey(lines: seq<string>, key: string, value: string)
    requires Plain(key) && HasKey(lines, key)
    requires forall k :: 0 <= k < |lines| && Key(lines[k]) == key ==> lines[k] == Line(key, value)
    ensures Says(lines, key, value)
  {
    hide Key, KeyIs, Plain;
    forall k | 0 <= k < |lines|
      ensures Key(lines[k]) == key <==> KeyIs(lines[k], key)
    {
      KeyIsExactly(lines[k], key);
    }
    var k :| 0 <= k < |lines| && Key(lines[k]) == key;
    assert lines[k] == key + "=" + value;
  }

  lemma {:induction false} MissingSays(p: Placement, password: string, lines: seq<string>, keys: seq<string>, k: nat)
    requires forall j :: 0 <= j < |keys| ==> keys[j] in KEYS
    requires k < |Missing(p, password, lines, keys)|
    ensures var line := Missing(p, password, lines, keys)[k];
            Key(line) in KEYS && line == Line(Key(line), Value(p, password, Key(line)))
  {
    hide Key, Value, HasKey, Line;
    var rest := Missing(p, password, lines, keys[1..]);
    if HasKey(lines, keys[0]) {
      MissingSays(p, password, lines, keys[1..], k);
    } else if k > 0 {
      MissingSays(p, password, lines, keys[1..], k - 1);
    } else {
      KeysArePlain(keys[0]);
      KeyOfLine(keys[0], Value(p, password, keys[0]));
    }
  }

  /** A converged line of a managed key gives the key's value. */
  lemma ConvergedSays(p: Placement, password: string, lines: seq<string>, k: nat)
    requires k < |ConvergedLines(p, password, lines)|
    ensures var line := ConvergedLines(p, password, lines)[k];
            Key(line) in KEYS ==> line == Line(Key(line), Value(p, password, Key(line)))
  {
    hide Key, Value, Line;
    if k < |lines| {
      ConvergedTwice(p, p, password, lines[k]);
    } else {
      MissingSays(p, password, lines, KEYS, k - |lines|);
    }
  }

  lemma OtherLines(t: Tokens, lines: seq<string>, pad: seq<string>)
    requires pad in [[], [""]]
    ensures forall k :: 0 <= k < |pad + TokenLines(t, lines)| ==> Key((pad + TokenLines(t, lines))[k]) !in KEYS
  {
    assert Key("") == "";
    assert forall key :: key in KEYS ==> key != "" && key != AREA && key != MANAGEMENT by {
      KeysApart();
    }
    hide TokenLines, Key;
    TokenKeys(t, lines);
  }

  lemma KeysApart()
    ensures forall key :: key in KEYS ==> key != "" && key != AREA && key != MANAGEMENT
  {
  }

  lemma DeployedSays(p: Placement, t: Tokens, text: string, key: string)
    requires Sound(p, t) && PipelineText(p, t, text).Ok? && key in KEYS
    ensures Says(SplitLines(PipelineText(p, t, text).value), key,
                 Value(p, ReadEnvValue(SplitLines(text), PASSWORD), key))
  {
    hide SplitLines, PipelineText, ReadEnvValue, Sound, Key, Says, Value, ConvergedLines, TokenLines, KEYS, Line;
    var lines := SplitLines(text);
    var password, pad, tokens := ReadEnvValue(lines, PASSWORD), Padding(p, t, text), TokenLines(t, lines);
    var converged, out := ConvergedLines(p, password, lines), SplitLines(PipelineText(p, t, text).value);
    DeployedLines(p, t, text);
    PadKeys(p, password, lines, pad, tokens);
    OtherLines(t, lines, pad);
    assert out == converged + (pad + tokens);
    forall k | 0 <= k < |out| && Key(out[k]) == key
      ensures out[k] == Line(key, Value(p, password, key))
    {
      if k < |converged| {
        ConvergedSays(p, password, lines, k);
      }
    }
    ManagedKey(key);
    SaysByKey(out, key, Value(p, password, key));
  }

  lemma ManagedKey(key: string)
    requires key in KEYS
    ensures Plain(key) && exists k :: 0 <= k < |KEYS| && KEYS[k] == key
  {
    KeysArePlain(key);
  }

  // ----- The plan's values -----

  /** The database, which is also its user. */
  function Database(p: Placement): string {
    match p case Dedicated => "crowdrelay" case SharedPg(database, _) => database
  }

  function Host(p: Placement): string {
    match p case Dedicated => "postgres" case SharedPg(_, host) => host
  }

  function UrlText(user: string, password: string, host: string, database: string): string {
    "postgres://" + user + ":" + password + "@" + host + ":5432/" + database
  }

  /** The three managed keys say where the plan puts the database. */
  ghost predicate Follows(lines: seq<string>, p: Placement, password: string) {
    && Says(lines, "POSTGRES_DB", Database(p)) && Says(lines, "POSTGRES_USER", Database(p))
    && Says(lines, "CROWDRELAY_DATABASE_URL", UrlText(Database(p), password, Host(p), Database(p)))
  }

  lemma ValuesSpelled(p: Placement, password: string)
    ensures Value(p, password, DB) == Value(p, password, USER) == Database(p)
    ensures Value(p, password, URL) == UrlText(Database(p), password, Host(p), Database(p))
    ensures DB in KEYS && USER in KEYS && URL in KEYS
  {
    assert |DB| != |URL| && |USER| != |URL|;
  }

  /** After a deployment that succeeds, the managed keys of the file name the plan's database, as database and user, and
      the plan's host, with the password that the file had and still has; and each configured token stands in it
      once. */
  lemma DeployedValues(p: Placement, t: Tokens, text: string)
    requires Sound(p, t) && PipelineText(p, t, text).Ok?
    ensures var password, out := ReadEnvValue(SplitLines(text), "POSTGRES_PASSWORD"),
                                 SplitLines(PipelineText(p, t, text).value);
            && password != "" && ReadEnvValue(out, "POSTGRES_PASSWORD") == password
            && Follows(out, p, password)
            && (t.area != "" ==> Suffixes(out, "CROWDRELAY_CONTROL_PLANE_AREA_API_KEY=") == [t.area])
            && (t.management != "" ==> Suffixes(out, "CROWDRELAY_CONTROL_PLANE_API_KEY=") == [t.management])
  {
    hide SplitLines, PipelineText, ReadEnvValue, Sound, Says, Value, UrlText, Suffixes;
    var password := ReadEnvValue(SplitLines(text), PASSWORD);
    ValuesSpelled(p, password);
    DeployedSays(p, t, text, DB);
    DeployedSays(p, t, text, USER);
    DeployedSays(p, t, text, URL);
    DeployedSecrets(p, t, text);
    assert AREA + "=" == "CROWDRELAY_CONTROL_PLANE_AREA_API_KEY=";
    assert MANAGEMENT + "=" == "CROWDRELAY_CONTROL_PLANE_API_KEY=";
  }

  lemma DeployedSuffixes(p: Placement, t: Tokens, text: string, key: string)
    requires Sound(p, t) && PipelineText(p, t, text).Ok? && key in [PASSWORD, AREA, MANAGEMENT]
    ensures var lines := SplitLines(text);
            Suffixes(SplitLines(PipelineText(p, t, text).value), key + "=")
            == Suffixes(lines, key + "=")
               + (if key == AREA && TokenLine(lines, AREA, t.area) != [] then [t.area] else [])
               + (if key == MANAGEMENT && TokenLine(lines, MANAGEMENT, t.management) != [] then [t.management] else [])
  {
    hide SplitLines, PipelineText, Sound, ConvergedLines, Suffixes, Line, TokenLine, ReadEnvValue;
    var lines := SplitLines(text);
    var password, pad, tokens := ReadEnvValue(lines, PASSWORD), Padding(p, t, text), TokenLines(t, lines);
    DeployedLines(p, t, text);
    PadSuffixes(ConvergedLines(p, password, lines), pad, tokens, key);
    OutputSuffixes(p, password, t, lines, key);
  }

  lemma DeployedSecrets(p: Placement, t: Tokens, text: string)
    requires Sound(p, t) && PipelineText(p, t, text).Ok?
    ensures var password, out := ReadEnvValue(SplitLines(text), PASSWORD), SplitLines(PipelineText(p, t, text).value);
            && password != "" && ReadEnvValue(out, PASSWORD) == password
            && (t.area != "" ==> Suffixes(out, AREA + "=") == [t.area])
            && (t.management != "" ==> Suffixes(out, MANAGEMENT + "=") == [t.management])
  {
    hide SplitLines, PipelineText, Sound, Suffixes, Line, Pipeline, Strip;
    DeployedLines(p, t, text);
    ClosedForm(p, t, SplitLines(text));
    hide ConvergedLines;
    KeysDiffer();
    hide AREA, MANAGEMENT, PASSWORD;
    DeployedSuffixes(p, t, text, PASSWORD);
    DeployedSuffixes(p, t, text, AREA);
    DeployedSuffixes(p, t, text, MANAGEMENT);
  }

  lemma KeysDiffer()
    ensures AREA != MANAGEMENT && AREA != PASSWORD && MANAGEMENT != PASSWORD
  {
    assert |AREA| != |MANAGEMENT| && |AREA| != |PASSWORD| && |MANAGEMENT| != |PASSWORD|;
  }

  /** The managed keys that a file lacks are added after its last line, in a fixed order. */
  lemma AppendedInOrder(p: Placement, password: string, lines: seq<string>)
    requires forall k :: 0 <= k < |lines| ==> Key(lines[k]) !in KEYS
    ensures ConvergedLines(p, password, lines)
         == lines + ["POSTGRES_DB=" + Database(p), "POSTGRES_USER=" + Database(p),
                     "CROWDRELAY_DATABASE_URL=" + UrlText(Database(p), password, Host(p), Database(p))]
  {
    ValuesSpelled(p, password);
    assert DB + "=" == "POSTGRES_DB=" && USER + "=" == "POSTGRES_USER=" && URL + "=" == "CROWDRELAY_DATABASE_URL=";
    hide Key, Value, UrlText;
    assert ConvergedAll(p, password, lines) == lines;
    forall key | key in KEYS
      ensures !HasKey(lines, key)
    {
    }
    AllMissing(p, password, lines);
  }

  lemma AllMissing(p: Placement, password: string, lines: seq<string>)
    requires !HasKey(lines, DB) && !HasKey(lines, USER) && !HasKey(lines, URL)
    ensures Missing(p, password, lines, KEYS)
         == [Line(DB, Value(p, password, DB)), Line(USER, Value(p, password, USER)), Line(URL, Value(p, password, URL))]
  {
    hide HasKey, Value, Line;
    assert KEYS[1..] == [USER, URL] && [USER, URL][1..] == [URL] && [URL][1..] == [];
    assert Missing(p, password, lines, [URL]) == [Line(URL, Value(p, password, URL))];
    assert Missing(p, password, lines, [USER, URL])
        == [Line(USER, Value(p, password, USER)), Line(URL, Value(p, password, URL))];
  }

  /** A created file says so too, line by line. */
  lemma CreatedValues(p: Placement, t: Tokens, s: Secrets)
    ensures var lines := CreatedLines(p, t, s);
            && |lines| >= 8
            && lines[0] == "POSTGRES_DB=" + Database(p) && lines[1] == "POSTGRES_USER=" + Database(p)
            && lines[2] == "POSTGRES_PASSWORD=" + s.password
            && lines[3] == "CROWDRELAY_DATABASE_URL=" + UrlText(Database(p), s.password, Host(p), Database(p))
            && lines[4] == "CROWDRELAY_RESPONSE_ENCRYPTION_SECRET=" + s.response
            && lines[5] == "CROWDRELAY_ADMIN_API_KEY=" + s.admin && lines[6] == "CROWDRELAY_STAFF_API_KEY=" + s.staff
            && lines[7] == "CROWDRELAY_QR_SIGNING_SECRET=" + s.qr
            && lines[8..] == (if t.area == "" then [] else ["CROWDRELAY_CONTROL_PLANE_AREA_API_KEY=" + t.area])
                             + (if t.management == "" then [] else ["CROWDRELAY_CONTROL_PLANE_API_KEY=" + t.management])
  {
    ValuesSpelled(p, s.password);
    assert forall prefix :: Suffixes([], prefix) == [];
    hide Value, UrlText, Suffixes;
    var lines := CreatedLines(p, t, s);
    assert lines[8..] == TokenLines(t, []);
    assert DB + "=" == "POSTGRES_DB=" && USER + "=" == "POSTGRES_USER=" && PASSWORD + "=" == "POSTGRES_PASSWORD=";
    assert URL + "=" == "CROWDRELAY_DATABASE_URL=" && RESPONSE + "=" == "CROWDRELAY_RESPONSE_ENCRYPTION_SECRET=";
    assert ADMIN + "=" == "CROWDRELAY_ADMIN_API_KEY=" && STAFF + "=" == "CROWDRELAY_STAFF_API_KEY=";
    assert QR + "=" == "CROWDRELAY_QR_SIGNING_SECRET=";
    assert AREA + "=" == "CROWDRELAY_CONTROL_PLANE_AREA_API_KEY=";
    assert MANAGEMENT + "=" == "CROWDRELAY_CONTROL_PLANE_API_KEY=";
  }

  // ----- The URL taken apart -----

  datatype Url = Url(user: string, password: string, host: string, port: string, database: string)

  /** The last position of a character, or the length. */
  function FindLast(s: string, c: char): (n: nat)
    ensures n <= |s| && (n < |s| ==> s[n] == c && c !in s[n + 1..]) && (n == |s| ==> c !in s)
  {
    if s == "" then 0
    else if s[|s| - 1] == c then |s| - 1
    else
      var n, m := FindLast(s[..|s| - 1], c), |s| - 1;
      assert s == s[..m] + [s[m]];
      if n == m then |s|
      else
        assert s[n + 1..] == s[..m][n + 1..] + [s[m]];
        n
  }

  /** The user up to the first colon, the password up to the last `@`, then host, port and database. */
  function TakeApart(url: string): Option<Url> {
    if "postgres://" <= url then TakeRest(url[|"postgres://"|..]) else None
  }

  function TakeRest(rest: string): Option<Url> {
    var colon, at := Find(rest, ':'), FindLast(rest, '@');
    if colon < at < |rest| then TakePlace(rest[..colon], rest[colon + 1..at], rest[at + 1..]) else None
  }

  function TakePlace(user: string, password: string, place: string): Option<Url> {
    var colon := Find(place, ':');
    if colon == |place| then None
    else
      var tail := place[colon + 1..];
      var slash := Find(tail, '/');
      if slash == |tail| then None else Some(Url(user, password, place[..colon], tail[..slash], tail[slash + 1..]))
  }

  lemma FindAt(s: string, c: char, n: nat)
    requires n < |s| && s[n] == c && c !in s[..n]
    ensures Find(s, c) == n
  {
  }

  /** A database URL gives its parts back, whatever the password is. */
  lemma UrlTakenApart(user: string, password: string, host: string, database: string)
    requires ':' !in user && '@' !in host && ':' !in host && '@' !in database
    ensures TakeApart(UrlText(user, password, host, database)) == Some(Url(user, password, host, "5432", database))
  {
    hide UrlText, TakeRest, TakePlace;
    var place := PlaceText(host, database);
    UrlSplits(user, password, host, database);
    PlaceTaken(user, password, host, database);
    hide PlaceText;
    RestTaken(user, password, place);
  }

  function PlaceText(host: string, database: string): string {
    host + ":" + ("5432/" + database)
  }

  lemma PlaceTaken(user: string, password: string, host: string, database: string)
    requires '@' !in host && ':' !in host && '@' !in database
    ensures '@' !in PlaceText(host, database)
    ensures TakePlace(user, password, PlaceText(host, database)) == Some(Url(user, password, host, "5432", database))
  {
    hide Find;
    PlaceSplits(host, database);
  }

  lemma RestTaken(user: string, password: string, place: string)
    requires ':' !in user && '@' !in place
    ensures TakeRest(user + ":" + (password + "@" + place)) == TakePlace(user, password, place)
  {
    hide Find, FindLast, TakePlace;
    RestSplits(user, password, place);
  }

  lemma UrlSplits(user: string, password: string, host: string, database: string)
    ensures var url := UrlText(user, password, host, database);
            "postgres://" <= url
            && url[|"postgres://"|..] == user + ":" + (password + "@" + PlaceText(host, database))
  {
    var rest := user + ":" + (password + "@" + (host + ":" + ("5432/" + database)));
    assert ":5432/" == ":" + "5432/";
    assert UrlText(user, password, host, database) == "postgres://" + rest;
  }

  lemma RestSplits(user: string, password: string, place: string)
    requires ':' !in user && '@' !in place
    ensures var rest, at := user + ":" + (password + "@" + place), |user| + 1 + |password|;
            && Find(rest, ':') == |user| && FindLast(rest, '@') == at < |rest|
            && rest[..|user|] == user && rest[|user| + 1..at] == password && rest[at + 1..] == place
  {
    var rest, at := user + ":" + (password + "@" + place), |user| + 1 + |password|;
    assert rest[|user|] == ':' && rest[..|user|] == user && rest[|user| + 1..at] == password;
    assert rest[at] == '@' && rest[at + 1..] == place;
    FindAt(rest, ':', |user|);
    LastAt(rest, '@', at);
  }

  lemma PlaceSplits(host: string, database: string)
    requires '@' !in host && ':' !in host && '@' !in database
    ensures var tail := "5432/" + database;
            var place := host + ":" + tail;
            && '@' !in place && Find(place, ':') == |host| < |place| && place[..|host|] == host
            && place[|host| + 1..] == tail && Find(tail, '/') == 4 && tail[..4] == "5432" && tail[5..] == database
  {
    var tail := "5432/" + database;
    var place := host + ":" + tail;
    assert place[|host|] == ':' && place[..|host|] == host && place[|host| + 1..] == tail;
    FindAt(place, ':', |host|);
    assert tail[4] == '/' && tail[..4] == "5432" && tail[5..] == database;
    FindAt(tail, '/', 4);
    assert '@' !in "5432/" && '@' !in ":";
  }

  lemma LastAt(s: string, c: char, n: nat)
    requires n < |s| && s[n] == c && c !in s[n + 1..]
    ensures FindLast(s, c) == n
  {
  }
}
