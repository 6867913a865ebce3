/** The `.env` pipeline as it edits the file's text, related to the pipeline on lines. */
module TenantEnvFile {
  import opened PythonText
  import opened TenantEnv

  // ----- Splitting and joining -----

  lemma {:induction false} FirstBreakUnique(text: string, n: nat)
    requires n <= |text| && NoBreak(text[..n]) && (n < |text| ==> IsBreak(text[n]))
    ensures FirstBreak(text) == n
  {
  }

  /** A text that ends with a break splits independently of what follows. */
  lemma {:induction false} SplitAfterBreak(text: string, more: string)
    requires text != "" ==> IsBreak(text[|text| - 1])
    ensures SplitLines(text + more) == SplitLines(text) + SplitLines(more)
    decreases |text|
  {
    if text == "" {
      assert text + more == more;
    } else {
      hide *;
      var n := FirstBreak(text);
      BreakInside(text);
      SplitHead(text, more, n);
      SplitHead(text, "", n);
      assert text + "" == text && text[n + 1..] + "" == text[n + 1..];
      SplitAfterBreak(text[n + 1..], more);
      ConsConcat(text[..n], SplitLines(text[n + 1..]), SplitLines(more));
    }
  }

  lemma {:induction false} BreakInside(text: string)
    requires text != "" && IsBreak(text[|text| - 1])
    ensures FirstBreak(text) < |text|
  {
    hide IsBreak;
    assert text[..|text|] == text;
  }

  lemma {:induction false} SplitHead(text: string, more: string, n: nat)
    requires n < |text| && FirstBreak(text) == n
    ensures SplitLines(text + more) == [text[..n]] + SplitLines(text[n + 1..] + more)
  {
    assert (text + more)[..n] == text[..n] && (text + more)[n + 1..] == text[n + 1..] + more;
    FirstBreakUnique(text + more, n);
  }

  lemma ConsConcat(x: string, ys: seq<string>, zs: seq<string>)
    ensures [x] + (ys + zs) == ([x] + ys) + zs
  {
  }

  lemma {:induction false} SplitNoBreaks(text: string)
    ensures NoBreaks(SplitLines(text))
    decreases |text|
  {
    var n := FirstBreak(text);
    if n < |text| {
      SplitNoBreaks(text[n + 1..]);
    } else {
      assert text[..n] == text;
    }
  }

  /** A final newline ends the last line without adding one. */
  lemma {:induction false} SplitFinalNewline(text: string)
    requires text != "" && !IsBreak(text[|text| - 1])
    ensures SplitLines(text + "\n") == SplitLines(text)
    decreases |text|
  {
    var n := FirstBreak(text);
    if n < |text| {
      assert n + 1 < |text| && text[n + 1..][|text| - n - 2] == text[|text| - 1];
      hide *;
      SplitHead(text, "\n", n);
      SplitHead(text, "", n);
      assert text + "" == text && text[n + 1..] + "" == text[n + 1..];
      SplitFinalNewline(text[n + 1..]);
    } else {
      assert text[..n] == text;
      SplitOneLine(text);
    }
  }

  lemma {:induction false} SplitOneLine(line: string)
    requires NoBreak(line)
    ensures SplitLines(line + "\n") == [line]
  {
    var text := line + "\n";
    assert text[..|line|] == line;
    FirstBreakUnique(text, |line|);
    assert text[|line| + 1..] == "";
  }

  lemma {:induction false} SplitUnlines(lines: seq<string>)
    requires NoBreaks(lines)
    ensures SplitLines(Unlines(lines)) == lines
  {
    if lines != [] {
      SplitUnlines(lines[1..]);
      SplitOneLine(lines[0]);
      SplitAfterBreak(lines[0] + "\n", Unlines(lines[1..]));
    }
  }

  lemma {:induction false} UnlinesConcat(xs: seq<string>, ys: seq<string>)
    ensures Unlines(xs + ys) == Unlines(xs) + Unlines(ys)
  {
    if xs == [] {
      assert xs + ys == ys;
    } else {
      UnlinesConcat(xs[1..], ys);
      assert (xs + ys)[1..] == xs[1..] + ys;
    }
  }

  lemma {:induction false} UnlinesEnds(lines: seq<string>)
    ensures lines != [] ==> Unlines(lines) != "" && Unlines(lines)[|Unlines(lines)| - 1] == '\n'
  {
    if |lines| > 1 {
      UnlinesEnds(lines[1..]);
    } else if lines != [] {
      assert Unlines(lines) == lines[0] + "\n";
    }
  }

  lemma {:induction false} StripNoBreak(s: string)
    requires NoBreak(s)
    ensures NoBreak(Strip(s))
    decreases |s|
  {
    if s != "" {
      StripNoBreak(s[1..]);
      StripNoBreak(s[..|s| - 1]);
    }
  }

  // ----- The edits on text -----

  function ConvergeText(p: Placement, text: string): Result<string> {
    var lines := SplitLines(text);
    var password := ReadEnvValue(lines, PASSWORD);
    if password == "" then Err(MissingPassword)
    else
      var out := ConvergedLines(p, password, lines);
      Ok(if out == lines then text else Unlines(out))
  }

  /** What closes the last line before another is appended. */
  function Closing(text: string): string {
    if text != "" && text[|text| - 1] == '\n' then "" else "\n"
  }

  function EnsureText(text: string, key: string, token: string, error: Error): Result<string> {
    var existing := Suffixes(SplitLines(text), key + "=");
    if token == "" then Ok(text)
    else if existing == [] then
      Ok(text + Closing(text) + Line(key, token) + "\n")
    else if existing == [token] then Ok(text)
    else Err(error)
  }

  function PipelineText(p: Placement, t: Tokens, text: string): Result<string> {
    var converged := ConvergeText(p, text);
    if converged.Err? then converged
    else
      var area := EnsureText(converged.value, AREA, t.area, AreaTokenMismatch);
      if area.Err? then area else EnsureText(area.value, MANAGEMENT, t.management, ManagementTokenMismatch)
  }

  /** The file after the three steps, of which the first that fails writes nothing and stops the rest. */
  function TextLeft(p: Placement, t: Tokens, text: string): string {
    match ConvergeText(p, text)
    case Err(_) => text
    case Ok(converged) =>
      match EnsureText(converged, AREA, t.area, AreaTokenMismatch)
      case Err(_) => converged
      case Ok(area) =>
        match EnsureText(area, MANAGEMENT, t.management, ManagementTokenMismatch)
        case Err(_) => area
        case Ok(management) => management
  }

  // ----- The file as the functions mutate it -----

  /** The pass of `converge_secret_env` over the lines. */
  method ConvergePass(p: Placement, password: string, lines: seq<string>)
    returns (out: seq<string>, seen: set<string>, changed: bool)
    ensures out == ConvergedAll(p, password, lines)
    ensures changed <==> out != lines
    ensures forall key :: key in seen <==> key in KEYS && HasKey(lines, key)
  {
    hide Key, Value, Line, HasKey, ConvergedAll;
    out, seen, changed := [], {}, false;
    NoLines(p, password, lines);
    for i := 0 to |lines|
      invariant out == ConvergedAll(p, password, lines[..i])
      invariant changed <==> out != lines[..i]
      invariant forall key :: key in seen <==> key in KEYS && HasKey(lines[..i], key)
    {
      ghost var before, converged := lines[..i], out;
      var line := lines[i];
      assert lines[..i + 1] == before + [line];
      KeysAfter(before, line);
      ConvergedSnoc(p, password, before, line);
      SnocDiffers(converged, before, Converged(p, password, line), line);
      var key := Key(line);
      if key in KEYS {
        seen := seen + {key};
        var wanted := Line(key, Value(p, password, key));
        if line != wanted {
          out := out + [wanted];
          changed := true;
          continue;
        }
      }
      out := out + [line];
    }
    assert lines[..|lines|] == lines;
  }

  /** The expected keys that were not seen, appended in order. */
  method AppendMissing(p: Placement, password: string, lines: seq<string>, keys: seq<string>,
                       converged: seq<string>, seen: set<string>, rewritten: bool)
    returns (out: seq<string>, changed: bool)
    requires |converged| == |lines| && (rewritten <==> converged != lines)
    requires forall key :: key in keys ==> (key in seen <==> HasKey(lines, key))
    ensures out == converged + Missing(p, password, lines, keys)
    ensures changed <==> out != lines
  {
    hide Key, Value, Line, HasKey;
    out, changed := converged, rewritten;
    for j := 0 to |keys|
      invariant out == converged + Missing(p, password, lines, keys[..j])
      invariant |out| >= |lines| && (changed <==> out != lines)
    {
      var key := keys[j];
      ghost var before := out;
      assert Missing(p, password, lines, keys[..j + 1]) == Missing(p, password, lines, keys[..j])
             + if HasKey(lines, key) then [] else [Line(key, Value(p, password, key))] by {
        assert keys[..j + 1] == keys[..j] + [key];
        MissingConcat(p, password, lines, keys[..j], [key]);
      }
      if key !in seen {
        out := out + [Line(key, Value(p, password, key))];
        changed := true;
      }
    }
    assert keys[..|keys|] == keys;
  }

  lemma NoLines(p: Placement, password: string, lines: seq<string>)
    ensures ConvergedAll(p, password, lines[..0]) == lines[..0] == [] && forall key :: !HasKey(lines[..0], key)
  {
  }

  lemma ConvergedSnoc(p: Placement, password: string, lines: seq<string>, line: string)
    ensures ConvergedAll(p, password, lines + [line])
         == ConvergedAll(p, password, lines) + [Converged(p, password, line)]
  {
    hide Converged;
  }

  lemma SnocDiffers(xs: seq<string>, ys: seq<string>, x: string, y: string)
    requires |xs| == |ys|
    ensures xs + [x] == ys + [y] <==> xs == ys && x == y
  {
    assert (xs + [x])[..|xs|] == xs && (ys + [y])[..|ys|] == ys;
    assert (xs + [x])[|xs|] == x && (ys + [y])[|ys|] == y;
  }

  class TenantDir {
    var env: string
    var present: bool

    constructor ()
      ensures !present
    {
      env, present := "", false;
    }

    method WriteOnce(content: string)
      modifies this
      ensures present && env == if old(present) then old(env) else content
    {
      if present {
        return;
      }
      env, present := content, true;
    }

    /** `converge_secret_env`: one pass over the lines, then the keys that were not seen. */
    method ConvergeSecretEnv(p: Placement) returns (error: Result<()>)
      modifies this`env
      ensures error == match ConvergeText(p, old(env)) { case Err(e) => Err(e) case Ok(_) => Ok(()) }
      ensures env == match ConvergeText(p, old(env)) { case Err(_) => old(env) case Ok(text) => text }
    {
      var lines := SplitLines(env);
      var password := ReadEnvValue(lines, PASSWORD);
      if password == "" {
        return Err(MissingPassword);
      }
      var out, seen, changed := ConvergePass(p, password, lines);
      out, changed := AppendMissing(p, password, lines, KEYS, out, seen, changed);
      if changed {
        env := Unlines(out);
      }
      return Ok(());
    }

    /** `ensure_area_management_secret` and `ensure_management_secret`, which differ in key and error. */
    method EnsureSecret(key: string, token: string, error: Error) returns (r: Result<()>)
      modifies this`env
      ensures r == match EnsureText(old(env), key, token, error) { case Err(e) => Err(e) case Ok(_) => Ok(()) }
      ensures env == match EnsureText(old(env), key, token, error) { case Err(_) => old(env) case Ok(text) => text }
    {
      if token == "" {
        return Ok(());
      }
      var existing := Suffixes(SplitLines(env), key + "=");
      if existing != [] {
        if |existing| != 1 || existing[0] != token {
          return Err(error);
        }
        return Ok(());
      }
      env := env + Closing(env) + Line(key, token) + "\n";
      return Ok(());
    }

    /** The `.env` part of `prepare_files`; a failure keeps what the earlier steps wrote. */
    method Prepare(p: Placement, t: Tokens, created: string) returns (r: Result<()>)
      modifies this
      ensures present
      ensures var start := if old(present) then old(env) else created;
              && env == TextLeft(p, t, start)
              && match PipelineText(p, t, start)
                 case Ok(text) => r == Ok(()) && env == text
                 case Err(e) => r == Err(e)
    {
      WriteOnce(created);
      r := ConvergeSecretEnv(p);
      if r.Err? {
        return;
      }
      r := EnsureSecret(AREA, t.area, AreaTokenMismatch);
      if r.Err? {
        return;
      }
      r := EnsureSecret(MANAGEMENT, t.management, ManagementTokenMismatch);
    }
  }

  lemma KeysAfter(lines: seq<string>, line: string)
    ensures forall key :: HasKey(lines + [line], key) <==> HasKey(lines, key) || key == Key(line)
  {
    forall key
      ensures HasKey(lines + [line], key) <==> HasKey(lines, key) || key == Key(line)
    {
      if HasKey(lines, key) {
        var k :| 0 <= k < |lines| && Key(lines[k]) == key;
        assert (lines + [line])[k] == lines[k];
      }
      assert (lines + [line])[|lines|] == line;
    }
  }

  lemma {:induction false} MissingConcat(p: Placement, password: string, lines: seq<string>, xs: seq<string>,
                                         ys: seq<string>)
    ensures Missing(p, password, lines, xs + ys) == Missing(p, password, lines, xs) + Missing(p, password, lines, ys)
  {
    if xs == [] {
      assert xs + ys == ys;
    } else {
      MissingConcat(p, password, lines, xs[1..], ys);
      assert (xs + ys)[1..] == xs[1..] + ys;
      ConsConcat(Line(xs[0], Value(p, password, xs[0])), Missing(p, password, lines, xs[1..]), Missing(p, password,
                 lines, ys));
    }
  }

  // ----- The text follows the lines -----

  /** The last line is closed by a newline or not closed at all, but by no other break character. */
  predicate WellEnded(text: string) {
    text != "" && (text[|text| - 1] == '\n' || !IsBreak(text[|text| - 1]))
  }

  ghost predicate Sound(p: Placement, t: Tokens) {
    && (p.SharedPg? ==> NoBreak(p.database) && NoBreak(p.host))
    && NoBreak(t.area) && NoBreak(t.management)
  }

  lemma {:induction false} SuffixesNoBreaks(lines: seq<string>, prefix: string)
    requires NoBreaks(lines)
    ensures NoBreaks(Suffixes(lines, prefix))
  {
    if lines != [] {
      SuffixesNoBreaks(lines[..|lines| - 1], prefix);
    }
  }

  lemma {:induction false} MissingNoBreaks(p: Placement, t: Tokens, password: string, lines: seq<string>,
                                           keys: seq<string>)
    requires Sound(p, t) && NoBreak(password) && NoBreaks(keys)
    ensures NoBreaks(Missing(p, password, lines, keys))
  {
    hide HasKey;
    if keys != [] {
      MissingNoBreaks(p, t, password, lines, keys[1..]);
      ValueNoBreak(p, t, password, keys[0]);
    }
  }

  lemma {:induction false} ValueNoBreak(p: Placement, t: Tokens, password: string, key: string)
    requires Sound(p, t) && NoBreak(password) && NoBreak(key)
    ensures NoBreak(Line(key, Value(p, password, key)))
  {
    var name := if p.SharedPg? then p.database else "crowdrelay";
    var host := if p.SharedPg? then p.host else "postgres";
    assert NoBreak(name) && NoBreak(host);
    assert NoBreak("=") && NoBreak("postgres://") && NoBreak(":") && NoBreak("@") && NoBreak(":5432/");
    hide NoBreak;
    NoBreakConcat("postgres://", name);
    NoBreakConcat("postgres://" + name, ":");
    NoBreakConcat("postgres://" + name + ":", password);
    NoBreakConcat("postgres://" + name + ":" + password, "@");
    NoBreakConcat("postgres://" + name + ":" + password + "@", host);
    NoBreakConcat("postgres://" + name + ":" + password + "@" + host, ":5432/");
    NoBreakConcat("postgres://" + name + ":" + password + "@" + host + ":5432/", name);
    NoBreakConcat(key, "=");
    NoBreakConcat(key + "=", Value(p, password, key));
  }

  lemma NoBreakConcat(a: string, b: string)
    requires NoBreak(a) && NoBreak(b)
    ensures NoBreak(a + b)
  {
  }

  lemma {:induction false} ConvergedNoBreaks(p: Placement, t: Tokens, lines: seq<string>)
    requires Sound(p, t) && NoBreaks(lines)
    ensures NoBreak(ReadEnvValue(lines, PASSWORD))
    ensures NoBreaks(ConvergedLines(p, ReadEnvValue(lines, PASSWORD), lines))
  {
    hide Key, Missing, Value;
    var password := ReadEnvValue(lines, PASSWORD);
    assert NoBreak(password) by {
      var found := Suffixes(lines, PASSWORD + "=");
      SuffixesNoBreaks(lines, PASSWORD + "=");
      if found != [] {
        StripNoBreak(found[0]);
      }
    }
    assert NoBreaks(KEYS);
    MissingNoBreaks(p, t, password, lines, KEYS);
    forall k | 0 <= k < |lines|
      ensures NoBreak(ConvergedAll(p, password, lines)[k])
    {
      if Key(lines[k]) in KEYS {
        ValueNoBreak(p, t, password, Key(lines[k]));
      }
    }
  }

  /** Appending a token line to text: one more line, after an empty one if the end was not clean. */
  lemma {:induction false} SplitAppended(text: string, line: string)
    requires text != "" && NoBreak(line)
    ensures SplitLines(text + Closing(text) + line + "\n")
            == SplitLines(text) + (if WellEnded(text) then [] else [""]) + [line]
  {
    hide SplitLines, IsBreak;
    var last := text[|text| - 1];
    SplitOneLine(line);
    if last == '\n' {
      NewlineBreaks();
      SplitAfterBreak(text, line + "\n");
      assert text + "" + line + "\n" == text + (line + "\n");
    } else {
      var closed := text + "\n";
      NewlineBreaks();
      SplitAfterBreak(closed, line + "\n");
      assert closed + line + "\n" == closed + (line + "\n");
      if IsBreak(last) {
        SplitAfterBreak(text, "\n");
        SplitOneLine("");
        assert "" + "\n" == "\n";
      } else {
        SplitFinalNewline(text);
      }
    }
  }

  lemma NewlineBreaks()
    ensures IsBreak('\n')
  {
  }

  /** One token on text does what it does on lines, except that an unclean end adds an empty line. */
  lemma {:induction false} EnsureTextLines(text: string, key: string, token: string, error: Error)
    requires text != "" && key in [AREA, MANAGEMENT] && NoBreak(token)
    ensures
      var lines, r := SplitLines(text), EnsureText(text, key, token, error);
      if !TokenAccepted(lines, key, token) then r == Err(error)
      else if TokenLine(lines, key, token) == [] then r == Ok(text)
      else r.Ok? && WellEnded(r.value)
           && SplitLines(r.value) == lines + (if WellEnded(text) then [] else [""]) + [Line(key, token)]
  {
    hide SplitLines, Suffixes, Closing, Line, NoBreak;
    var lines := SplitLines(text);
    if TokenLine(lines, key, token) != [] {
      TokenLineNoBreak(key, token);
      SplitAppended(text, Line(key, token));
    }
  }

  lemma TokenLineNoBreak(key: string, token: string)
    requires key in [AREA, MANAGEMENT] && NoBreak(token)
    ensures NoBreak(Line(key, token))
  {
    AreaNoBreak();
    ManagementNoBreak();
    assert NoBreak("=");
    hide NoBreak;
    NoBreakConcat(key, "=");
    NoBreakConcat(key + "=", token);
  }

  lemma AreaNoBreak()
    ensures NoBreak(AREA)
  {
  }

  lemma ManagementNoBreak()
    ensures NoBreak(MANAGEMENT)
  {
  }

  /** The lines of the edited file are the edited lines, exactly when the file ends cleanly, or is
      rewritten by convergence, or receives no token. */
  lemma {:induction false} PipelineTextLines(p: Placement, t: Tokens, text: string)
    requires Sound(p, t) && text != ""
    ensures
      var lines := SplitLines(text);
      var password := ReadEnvValue(lines, PASSWORD);
      match Pipeline(p, t, lines)
      case Err(e) => PipelineText(p, t, text) == Err(e)
      case Ok(out) =>
        && PipelineText(p, t, text).Ok?
        && (SplitLines(PipelineText(p, t, text).value) == out
            <==> WellEnded(text) || ConvergedLines(p, password, lines) != lines || TokenLines(t, lines) == [])
  {
    hide SplitLines, ConvergedLines, ReadEnvValue, Pipeline, EnsureText, WellEnded, TokenAccepted, TokenLines, Sound;
    var lines := SplitLines(text);
    var password := ReadEnvValue(lines, PASSWORD);
    ClosedForm(p, t, lines);
    if password != "" {
      var converged := ConvergedLines(p, password, lines);
      var text1 := ConvergeText(p, text).value;
      assert && SplitLines(text1) == converged && text1 != ""
             && (WellEnded(text1) <==> WellEnded(text) || converged != lines) by {
        ConvergeTextLines(p, t, text);
      }
      TokensOnText(p, t, text1, lines, converged, password);
    }
  }

  lemma {:induction false} ConvergeTextLines(p: Placement, t: Tokens, text: string)
    requires Sound(p, t) && text != ""
    ensures
      var lines := SplitLines(text);
      var converged := ConvergedLines(p, ReadEnvValue(lines, PASSWORD), lines);
      ConvergeText(p, text).Ok? ==>
        && SplitLines(ConvergeText(p, text).value) == converged && ConvergeText(p, text).value != ""
        && (WellEnded(ConvergeText(p, text).value) <==> WellEnded(text) || converged != lines)
  {
    hide SplitLines, ConvergedLines, ReadEnvValue;
    var lines := SplitLines(text);
    var converged := ConvergedLines(p, ReadEnvValue(lines, PASSWORD), lines);
    SplitNoBreaks(text);
    ConvergedNoBreaks(p, t, lines);
    SplitUnlines(converged);
    UnlinesEnds(converged);
    ConvergedNonEmpty(p, ReadEnvValue(lines, PASSWORD), lines);
  }

  lemma ConvergedNonEmpty(p: Placement, password: string, lines: seq<string>)
    ensures ConvergedLines(p, password, lines) != []
  {
    OutputHasKeys(p, password, Tokens("", ""), lines);
    assert HasKey(ConvergedLines(p, password, lines) + TokenLines(Tokens("", ""), lines), KEYS[0]);
  }

  lemma {:induction false} TokensOnText(p: Placement, t: Tokens, text: string, lines: seq<string>,
                                        converged: seq<string>, password: string)
    requires Sound(p, t) && text != "" && SplitLines(text) == converged == ConvergedLines(p, password, lines)
    ensures
      var area := EnsureText(text, AREA, t.area, AreaTokenMismatch);
      var r := if area.Err? then area else EnsureText(area.value, MANAGEMENT, t.management, ManagementTokenMismatch);
      if !TokenAccepted(lines, AREA, t.area) then r == Err(AreaTokenMismatch)
      else if !TokenAccepted(lines, MANAGEMENT, t.management) then r == Err(ManagementTokenMismatch)
      else
        && r.Ok?
        && SplitLines(r.value)
           == converged + (if WellEnded(text) || TokenLines(t, lines) == [] then [] else [""]) + TokenLines(t, lines)
        && (WellEnded(text) ==> WellEnded(r.value))
        && (TokenLines(t, lines) == [] ==> r.value == text)
  {
    hide SplitLines, Suffixes, ConvergedLines, EnsureText, WellEnded;
    ConvergedLinesSuffixes(p, password, lines, AREA);
    ConvergedLinesSuffixes(p, password, lines, MANAGEMENT);
    EnsureTextLines(text, AREA, t.area, AreaTokenMismatch);
    var area := EnsureText(text, AREA, t.area, AreaTokenMismatch);
    if area.Ok? {
      var lines' := SplitLines(area.value);
      assert Suffixes(lines', MANAGEMENT + "=") == Suffixes(lines, MANAGEMENT + "=") by {
        if TokenLine(lines, AREA, t.area) != [] {
          var pad := if WellEnded(text) then [] else [""];
          SuffixesConcat(converged + pad, [Line(AREA, t.area)], MANAGEMENT + "=");
          SuffixesConcat(converged, pad, MANAGEMENT + "=");
          TokenLineSuffixes(AREA, t.area, MANAGEMENT);
          EmptyLineSuffixes(MANAGEMENT + "=");
        }
      }
      NonEmptyText(area.value);
      EnsureTextLines(area.value, MANAGEMENT, t.management, ManagementTokenMismatch);
    }
  }

  lemma EmptyLineSuffixes(prefix: string)
    requires prefix != ""
    ensures Suffixes([""], prefix) == [] && Suffixes([], prefix) == []
  {
    assert [""][..0] == [];
  }

  lemma NonEmptyText(text: string)
    ensures WellEnded(text) ==> text != ""
  {
  }

  // ----- Redeployments -----

  /** The empty line that a token's closing newline adds after another break character. */
  function Padding(p: Placement, t: Tokens, text: string): seq<string> {
    var lines := SplitLines(text);
    if || WellEnded(text) || ConvergedLines(p, ReadEnvValue(lines, PASSWORD), lines) != lines
       || TokenLines(t, lines) == []
    then []
    else [""]
  }

  /** The lines of a redeployed file, for every file. */
  lemma {:induction false} DeployedLines(p: Placement, t: Tokens, text: string)
    requires Sound(p, t) && PipelineText(p, t, text).Ok?
    ensures
      var lines, out := SplitLines(text), PipelineText(p, t, text).value;
      && text != "" && out != "" && Pipeline(p, t, lines).Ok?
      && SplitLines(out)
         == ConvergedLines(p, ReadEnvValue(lines, PASSWORD), lines) + Padding(p, t, text) + TokenLines(t, lines)
      && (WellEnded(text) ==> WellEnded(out))
  {
    var lines := SplitLines(text);
    var password := ReadEnvValue(lines, PASSWORD);
    NoPassword(text);
    hide SplitLines, ConvergedLines, ReadEnvValue, EnsureText, TokenAccepted, TokenLines, Sound, WellEnded, Pipeline;
    ClosedForm(p, t, lines);
    ConvergeTextLines(p, t, text);
    var converged := ConvergedLines(p, password, lines);
    TokensOnText(p, t, ConvergeText(p, text).value, lines, converged, password);
    var out := PipelineText(p, t, text).value;
    ConvergedNonEmpty(p, password, lines);
    NothingSplits(out);
  }

  lemma NoPassword(text: string)
    ensures text == "" ==> SplitLines(text) == [] && ReadEnvValue(SplitLines(text), PASSWORD) == ""
  {
    assert Suffixes([], PASSWORD + "=") == [];
  }

  lemma NothingSplits(text: string)
    ensures SplitLines(text) != [] ==> text != ""
  {
  }

  /** An empty line between the converged lines and the tokens is read over, and stays. */
  lemma {:induction false} PaddedLines(a: Placement, b: Placement, t: Tokens, lines: seq<string>, pad: seq<string>)
    requires Pipeline(a, t, lines).Ok? && pad in [[], [""]]
    ensures
      var password := ReadEnvValue(lines, PASSWORD);
      var padded := ConvergedLines(a, password, lines) + pad + TokenLines(t, lines);
      var result := ConvergedLines(b, password, lines) + pad + TokenLines(t, lines);
      && ReadEnvValue(padded, PASSWORD) == password && TokenLines(t, padded) == []
      && ConvergedLines(b, password, padded) == result && Pipeline(b, t, padded) == Ok(result)
  {
    var password := ReadEnvValue(lines, PASSWORD);
    var tokens := TokenLines(t, lines);
    var padded, plain := ConvergedLines(a, password, lines) + pad + tokens, ConvergedLines(a, password, lines) + tokens;
    hide ConvergedLines, TokenLines, TokenAccepted, ReadEnvValue, Pipeline, HasKey;
    ClosedForm(a, t, lines);
    OutputIsSettled(a, t, lines);
    PadSuffixes(ConvergedLines(a, password, lines), pad, tokens, PASSWORD);
    PadSuffixes(ConvergedLines(a, password, lines), pad, tokens, AREA);
    PadSuffixes(ConvergedLines(a, password, lines), pad, tokens, MANAGEMENT);
    SameSuffixes(t, plain, padded);
    ClosedForm(b, t, padded);
    PadConverged(a, b, password, t, lines, pad);
    var result := ConvergedLines(b, password, lines) + pad + tokens;
    assert result + [] == result;
  }

  lemma PadSuffixes(xs: seq<string>, pad: seq<string>, ys: seq<string>, key: string)
    requires pad in [[], [""]]
    ensures Suffixes(xs + pad + ys, key + "=") == Suffixes(xs + ys, key + "=")
  {
    hide Suffixes;
    SuffixesConcat(xs + pad, ys, key + "=");
    SuffixesConcat(xs, pad, key + "=");
    SuffixesConcat(xs, ys, key + "=");
    EmptyLineSuffixes(key + "=");
    assert pad == [] ==> xs + pad == xs;
  }

  /** The password and the tokens are read from three prefixes only. */
  lemma SameSuffixes(t: Tokens, xs: seq<string>, ys: seq<string>)
    requires forall key :: key in [PASSWORD, AREA, MANAGEMENT] ==> Suffixes(xs, key + "=") == Suffixes(ys, key + "=")
    ensures ReadEnvValue(xs, PASSWORD) == ReadEnvValue(ys, PASSWORD) && TokenLines(t, xs) == TokenLines(t, ys)
    ensures TokenAccepted(xs, AREA, t.area) == TokenAccepted(ys, AREA, t.area)
    ensures TokenAccepted(xs, MANAGEMENT, t.management) == TokenAccepted(ys, MANAGEMENT, t.management)
  {
    hide Suffixes, Line;
    assert Suffixes(xs, PASSWORD + "=") == Suffixes(ys, PASSWORD + "=");
    assert Suffixes(xs, AREA + "=") == Suffixes(ys, AREA + "=");
    assert Suffixes(xs, MANAGEMENT + "=") == Suffixes(ys, MANAGEMENT + "=");
  }

  lemma PadConverged(a: Placement, b: Placement, password: string, t: Tokens, lines: seq<string>, pad: seq<string>)
    requires pad in [[], [""]]
    ensures ConvergedLines(b, password, ConvergedLines(a, password, lines) + pad + TokenLines(t, lines))
            == ConvergedLines(b, password, lines) + pad + TokenLines(t, lines)
  {
    hide HasKey, Key, Value, Missing, TokenLines, Converged;
    var head, tokens, none := ConvergedLines(a, password, lines), TokenLines(t, lines), Tokens("", "");
    var padded := head + pad + tokens;
    ConvergedAllConcat(b, password, head + pad, tokens);
    ConvergedAllConcat(b, password, head, pad);
    TokenLinesConverged(b, password, t, lines);
    EmptyLineConverged(b, password);
    OutputConverged(a, b, password, none, lines);
    NoTokens(lines);
    assert head + TokenLines(none, lines) == head;
    var settled := ConvergedLines(b, password, lines);
    assert settled + TokenLines(none, lines) == settled;
    PadKeys(a, password, lines, pad, tokens);
    NothingMissing(b, password, padded, KEYS);
    assert ConvergedAll(b, password, padded) + [] == ConvergedAll(b, password, padded);
  }

  lemma NoTokens(lines: seq<string>)
    ensures TokenLines(Tokens("", ""), lines) == []
  {
    hide Suffixes;
  }

  lemma EmptyLineConverged(p: Placement, password: string)
    ensures ConvergedAll(p, password, [""]) == [""] && ConvergedAll(p, password, []) == []
  {
    assert Key("") == "";
  }

  lemma PadKeys(p: Placement, password: string, lines: seq<string>, pad: seq<string>, tokens: seq<string>)
    ensures forall k :: 0 <= k < |KEYS| ==> HasKey(ConvergedLines(p, password, lines) + pad + tokens, KEYS[k])
  {
    var none := Tokens("", "");
    NoTokens(lines);
    OutputHasKeys(p, password, none, lines);
    hide Key, ConvergedLines, TokenLines;
    var head := ConvergedLines(p, password, lines);
    assert head + [] == head;
    forall k | 0 <= k < |KEYS|
      ensures HasKey(head + pad + tokens, KEYS[k])
    {
      var j :| 0 <= j < |head| && Key(head[j]) == KEYS[k];
      assert (head + pad + tokens)[j] == head[j];
    }
  }

  /** Redeploying through one placement to another leaves the same lines as going there directly, if and only if the
      file does not end in a break other than a newline, receives no token, or is rewritten by both placements or
      neither. */
  lemma {:induction false} DeployAbsorbs(a: Placement, b: Placement, t: Tokens, text: string)
    requires Sound(a, t) && Sound(b, t) && PipelineText(a, t, text).Ok?
    ensures
      var lines := SplitLines(text);
      var password := ReadEnvValue(lines, PASSWORD);
      var through, direct := PipelineText(b, t, PipelineText(a, t, text).value), PipelineText(b, t, text);
      && through.Ok? && direct.Ok?
      && (SplitLines(through.value) == SplitLines(direct.value) <==>
          || WellEnded(text) || TokenLines(t, lines) == []
          || (ConvergedLines(a, password, lines) != lines <==> ConvergedLines(b, password, lines) != lines))
  {
    var lines, out := SplitLines(text), PipelineText(a, t, text).value;
    var password, tokens := ReadEnvValue(lines, PASSWORD), TokenLines(t, lines);
    var pad, pad' := Padding(a, t, text), Padding(b, t, text);
    hide SplitLines, Pipeline, Sound, WellEnded, PipelineText, ConvergedLines, ReadEnvValue, TokenLines;
    DeployedLines(a, t, text);
    BothDeploy(a, b, t, text);
    DeployedLines(b, t, text);
    PaddedLines(a, b, t, lines, pad);
    PipelineTextLines(b, t, out);
    var result := ConvergedLines(b, password, lines);
    assert |result + pad + tokens| == |result| + |pad| + |tokens|;
    assert |result + pad' + tokens| == |result| + |pad'| + |tokens|;
  }

  /** Success depends on the file alone. */
  lemma BothDeploy(a: Placement, b: Placement, t: Tokens, text: string)
    requires Sound(a, t) && Sound(b, t) && text != "" && PipelineText(a, t, text).Ok?
    ensures PipelineText(b, t, text).Ok?
  {
    hide SplitLines, Sound, WellEnded, PipelineText, ConvergedLines, ReadEnvValue, TokenLines, Pipeline, TokenAccepted;
    PipelineTextLines(a, t, text);
    PipelineTextLines(b, t, text);
    ClosedForm(a, t, SplitLines(text));
    ClosedForm(b, t, SplitLines(text));
  }

  /** Redeploying unchanged writes nothing, whatever the file: it is already its own result, byte for byte. */
  lemma {:induction false} RedeployIsNoop(p: Placement, t: Tokens, text: string)
    requires Sound(p, t) && PipelineText(p, t, text).Ok?
    ensures PipelineText(p, t, PipelineText(p, t, text).value) == PipelineText(p, t, text)
  {
    var lines, out, pad := SplitLines(text), PipelineText(p, t, text).value, Padding(p, t, text);
    hide SplitLines, Pipeline, Sound, WellEnded, PipelineText, ConvergedLines, ReadEnvValue, TokenLines;
    DeployedLines(p, t, text);
    PaddedLines(p, p, t, lines, pad);
    SettledText(p, t, out);
  }

  lemma {:induction false} SettledText(p: Placement, t: Tokens, text: string)
    requires Sound(p, t) && text != ""
    requires Pipeline(p, t, SplitLines(text)) == Ok(SplitLines(text)) && TokenLines(t, SplitLines(text)) == []
    ensures PipelineText(p, t, text) == Ok(text)
  {
    var lines := SplitLines(text);
    var password := ReadEnvValue(lines, PASSWORD);
    var converged := ConvergedLines(p, password, lines);
    assert converged + [] == converged;
    hide SplitLines, ConvergedLines, ReadEnvValue, EnsureText, TokenAccepted, TokenLines, Sound, Pipeline;
    ClosedForm(p, t, lines);
    TokensOnText(p, t, text, lines, converged, password);
  }

  /** Files made of newline-closed lines, as the provisioner creates them. */
  predicate Canonical(text: string) {
    Unlines(SplitLines(text)) == text
  }

  lemma {:induction false} OutputCanonical(p: Placement, t: Tokens, text: string)
    requires Sound(p, t) && WellEnded(text) && Canonical(text) && PipelineText(p, t, text).Ok?
    ensures Canonical(PipelineText(p, t, text).value)
  {
    var lines := SplitLines(text);
    var password := ReadEnvValue(lines, PASSWORD);
    hide SplitLines, ConvergedLines, ReadEnvValue, Unlines, WellEnded, EnsureText;
    NonEmptyText(text);
    ConvergeTextLines(p, t, text);
    var text1 := ConvergeText(p, text).value;
    EnsureCanonical(text1, AREA, t.area, AreaTokenMismatch);
    EnsureCanonical(EnsureText(text1, AREA, t.area, AreaTokenMismatch).value, MANAGEMENT, t.management,
                    ManagementTokenMismatch);
  }

  lemma {:induction false} EnsureCanonical(text: string, key: string, token: string, error: Error)
    requires text != "" && Canonical(text) && key in [AREA, MANAGEMENT] && NoBreak(token)
    requires EnsureText(text, key, token, error).Ok?
    ensures
      var r := EnsureText(text, key, token, error).value;
      r != "" && Unlines(SplitLines(r)) == r
  {
    var lines := SplitLines(text);
    UnlinesEnds(lines);
    assert Closing(text) == "" && WellEnded(text);
    EnsureTextLines(text, key, token, error);
    hide *;
    assert lines + [] + [Line(key, token)] == lines + [Line(key, token)];
    UnlinesSnoc(lines, Line(key, token));
    EnsuredValue(text, key, token, error);
  }

  lemma EnsuredValue(text: string, key: string, token: string, error: Error)
    requires EnsureText(text, key, token, error).Ok?
    ensures EnsureText(text, key, token, error).value ==
            if TokenLine(SplitLines(text), key, token) == [] then text
            else text + Closing(text) + Line(key, token) + "\n"
  {
    hide SplitLines, Suffixes, Closing, Line;
  }

  lemma {:induction false} UnlinesSnoc(lines: seq<string>, line: string)
    ensures Unlines(lines + [line]) == Unlines(lines) + "" + line + "\n"
  {
    UnlinesConcat(lines, [line]);
    assert [line][1..] == [] && Unlines([line]) == line + "\n" + Unlines([]);
    assert Unlines(lines) + (line + "\n" + "") == Unlines(lines) + "" + line + "\n";
  }

  /** On such files the absorption is byte for byte, so moving to another placement and back
      restores the very same file. */
  lemma {:induction false} DeployAbsorbsExactly(a: Placement, b: Placement, t: Tokens, text: string)
    requires Sound(a, t) && Sound(b, t) && WellEnded(text) && Canonical(text) && PipelineText(a, t, text).Ok?
    ensures PipelineText(b, t, PipelineText(a, t, text).value) == PipelineText(b, t, text)
  {
    hide SplitLines, Sound, WellEnded, PipelineText, Unlines;
    DeployAbsorbs(a, b, t, text);
    DeployedLines(a, t, text);
    OutputCanonical(a, t, text);
    OutputCanonical(b, t, PipelineText(a, t, text).value);
    OutputCanonical(b, t, text);
  }

  // ----- What is never touched, and what a new tenant starts from -----

  /** The lines whose key the plan does not manage, in order. */
  function Unmanaged(lines: seq<string>): seq<string> {
    if lines == [] then []
    else
      var rest := Unmanaged(lines[..|lines| - 1]);
      if Key(lines[|lines| - 1]) in KEYS then rest else rest + [lines[|lines| - 1]]
  }

  lemma {:induction false} UnmanagedConcat(xs: seq<string>, ys: seq<string>)
    ensures Unmanaged(xs + ys) == Unmanaged(xs) + Unmanaged(ys)
  {
    hide Key;
    if ys == [] {
      assert xs + ys == xs;
    } else {
      UnmanagedConcat(xs, ys[..|ys| - 1]);
      assert (xs + ys)[..|xs + ys| - 1] == xs + ys[..|ys| - 1];
    }
  }

  lemma {:induction false} UnmanagedConverged(p: Placement, password: string, lines: seq<string>)
    ensures Unmanaged(ConvergedAll(p, password, lines)) == Unmanaged(lines)
  {
    hide Key, Value, Line;
    if lines != [] {
      var init, last := lines[..|lines| - 1], lines[|lines| - 1];
      UnmanagedConverged(p, password, init);
      ConvergedTwice(p, p, password, last);
      assert ConvergedAll(p, password, lines)[..|lines| - 1] == ConvergedAll(p, password, init);
    }
  }

  lemma {:induction false} UnmanagedNone(lines: seq<string>)
    requires forall k :: 0 <= k < |lines| ==> Key(lines[k]) in KEYS
    ensures Unmanaged(lines) == []
  {
    hide Key;
    if lines != [] {
      UnmanagedNone(lines[..|lines| - 1]);
    }
  }

  lemma {:induction false} MissingUnmanaged(p: Placement, password: string, lines: seq<string>)
    ensures Unmanaged(Missing(p, password, lines, KEYS)) == []
  {
    hide Key, Value, Line, HasKey, Unmanaged;
    MissingKeys(p, password, lines, KEYS);
    UnmanagedNone(Missing(p, password, lines, KEYS));
  }

  lemma UnmanagedOne(line: string)
    requires Key(line) in [AREA, MANAGEMENT]
    ensures Unmanaged([line]) == [line] && Unmanaged([]) == []
  {
    hide Key;
    assert [line][..0] == [];
  }

  lemma {:induction false} UnmanagedTokens(t: Tokens, lines: seq<string>)
    ensures Unmanaged(TokenLines(t, lines)) == TokenLines(t, lines)
  {
    KeysArePlain(AREA);
    KeysArePlain(MANAGEMENT);
    KeyOfLine(AREA, t.area);
    KeyOfLine(MANAGEMENT, t.management);
    hide Key, Line;
    var area, management := TokenLine(lines, AREA, t.area), TokenLine(lines, MANAGEMENT, t.management);
    UnmanagedConcat(area, management);
    UnmanagedOne(Line(AREA, t.area));
    UnmanagedOne(Line(MANAGEMENT, t.management));
    hide Unmanaged;
  }

  /** Every line the plan does not manage, credentials included, is kept verbatim and in order; the
      only additions are the two token lines. */
  lemma {:induction false} SecretsKeptVerbatim(p: Placement, t: Tokens, lines: seq<string>)
    requires Pipeline(p, t, lines).Ok?
    ensures Unmanaged(Pipeline(p, t, lines).value) == Unmanaged(lines) + TokenLines(t, lines)
  {
    var password := ReadEnvValue(lines, PASSWORD);
    var missing := Missing(p, password, lines, KEYS);
    MissingUnmanaged(p, password, lines);
    hide Key, Pipeline, Missing, TokenLines, TokenAccepted, ReadEnvValue, ConvergedAll, Unmanaged;
    ClosedForm(p, t, lines);
    UnmanagedConcat(ConvergedLines(p, password, lines), TokenLines(t, lines));
    UnmanagedConcat(ConvergedAll(p, password, lines), missing);
    UnmanagedConverged(p, password, lines);
    UnmanagedTokens(t, lines);
  }

  /** The random secrets of a new tenant. */
  datatype Secrets = Secrets(password: string, response: string, admin: string, staff: string, qr: string)

  const RESPONSE := "CROWDRELAY_RESPONSE_ENCRYPTION_SECRET"
  const ADMIN := "CROWDRELAY_ADMIN_API_KEY"
  const STAFF := "CROWDRELAY_STAFF_API_KEY"
  const QR := "CROWDRELAY_QR_SIGNING_SECRET"

  /** `create_secret_env`, line by line: the database, its password, the rest, the tokens. */
  function CreatedLines(p: Placement, t: Tokens, s: Secrets): seq<string> {
    CreatedHead(p, s) + [Line(PASSWORD, s.password)] + CreatedTail(p, s) + TokenLines(t, [])
  }

  function CreatedHead(p: Placement, s: Secrets): seq<string> {
    [Line(DB, Value(p, s.password, DB)), Line(USER, Value(p, s.password, USER))]
  }

  function CreatedTail(p: Placement, s: Secrets): seq<string> {
    [Line(URL, Value(p, s.password, URL)), Line(RESPONSE, s.response), Line(ADMIN, s.admin),
     Line(STAFF, s.staff), Line(QR, s.qr)]
  }

  lemma {:induction false} HeadKeys(p: Placement, s: Secrets)
    ensures |CreatedHead(p, s)| == 2 && Key(CreatedHead(p, s)[0]) == DB && Key(CreatedHead(p, s)[1]) == USER
    ensures ConvergedAll(p, s.password, CreatedHead(p, s)) == CreatedHead(p, s)
  {
    KeysArePlain(DB);
    KeysArePlain(USER);
    hide Key, Line, Value, Plain;
    KeyOfLine(DB, Value(p, s.password, DB));
    KeyOfLine(USER, Value(p, s.password, USER));
  }

  lemma OthersArePlain(key: string)
    requires key in [RESPONSE, ADMIN, STAFF, QR]
    ensures Plain(key) && key !in [DB, USER, URL, PASSWORD, AREA, MANAGEMENT]
  {
  }

  lemma TailLine(p: Placement, password: string, key: string, value: string)
    requires key in [RESPONSE, ADMIN, STAFF, QR]
    ensures Key(Line(key, value)) == key && key !in [PASSWORD, AREA, MANAGEMENT]
    ensures Converged(p, password, Line(key, value)) == Line(key, value)
  {
    OthersArePlain(key);
    hide Key, Line, Value, Plain;
    KeyOfLine(key, value);
  }

  lemma UrlLine(p: Placement, password: string)
    ensures Key(Line(URL, Value(p, password, URL))) == URL && URL !in [PASSWORD, AREA, MANAGEMENT]
    ensures Converged(p, password, Line(URL, Value(p, password, URL))) == Line(URL, Value(p, password, URL))
  {
    KeysArePlain(URL);
    hide Key, Line, Value, Plain;
    KeyOfLine(URL, Value(p, password, URL));
  }

  lemma {:induction false} TailKeys(p: Placement, s: Secrets)
    ensures |CreatedTail(p, s)| == 5 && Key(CreatedTail(p, s)[0]) == URL
    ensures forall k :: 0 <= k < 5 ==> Key(CreatedTail(p, s)[k]) !in [PASSWORD, AREA, MANAGEMENT]
    ensures ConvergedAll(p, s.password, CreatedTail(p, s)) == CreatedTail(p, s)
  {
    hide Key, Line, Value, Plain, Converged;
    UrlLine(p, s.password);
    TailLine(p, s.password, RESPONSE, s.response);
    TailLine(p, s.password, ADMIN, s.admin);
    TailLine(p, s.password, STAFF, s.staff);
    TailLine(p, s.password, QR, s.qr);
  }

  /** Only the password and token lines answer to their keys. */
  lemma {:induction false} CreatedSuffixes(p: Placement, t: Tokens, s: Secrets, key: string)
    requires key in [PASSWORD, AREA, MANAGEMENT]
    ensures Suffixes(CreatedLines(p, t, s), key + "=")
            == Suffixes([Line(PASSWORD, s.password)], key + "=") + Suffixes(TokenLines(t, []), key + "=")
  {
    hide Key, TokenLines, Plain, CreatedHead, CreatedTail, Line, Suffixes, ConvergedAll;
    var head, password, tail := CreatedHead(p, s), [Line(PASSWORD, s.password)], CreatedTail(p, s);
    KeysArePlain(key);
    HeadKeys(p, s);
    TailKeys(p, s);
    SuffixesConcat(head + password + tail, TokenLines(t, []), key + "=");
    SuffixesConcat(head + password, tail, key + "=");
    SuffixesConcat(head, password, key + "=");
    SuffixesOfOthers(head, key);
    SuffixesOfOthers(tail, key);
  }

  lemma {:induction false} CreatedPassword(p: Placement, t: Tokens, s: Secrets)
    ensures Suffixes(CreatedLines(p, t, s), PASSWORD + "=") == [s.password]
  {
    CreatedSuffixes(p, t, s, PASSWORD);
    KeysArePlain(PASSWORD);
    TokenKeys(t, []);
    hide Key, TokenLines, Plain, CreatedLines;
    SuffixesOfOthers(TokenLines(t, []), PASSWORD);
    assert [Line(PASSWORD, s.password)][..0] == [];
    assert Line(PASSWORD, s.password)[|PASSWORD + "="|..] == s.password;
  }

  lemma {:induction false} CreatedToken(p: Placement, t: Tokens, s: Secrets, key: string)
    requires key in [AREA, MANAGEMENT]
    ensures Suffixes(CreatedLines(p, t, s), key + "=") == Suffixes(TokenLines(t, []), key + "=")
  {
    CreatedSuffixes(p, t, s, key);
    KeysArePlain(PASSWORD);
    KeysArePlain(key);
    KeyOfLine(PASSWORD, s.password);
    hide Key, TokenLines, Plain, CreatedLines, Line;
    SuffixesOfOthers([Line(PASSWORD, s.password)], key);
  }

  lemma {:induction false} TokenKeys(t: Tokens, lines: seq<string>)
    ensures forall k :: 0 <= k < |TokenLines(t, lines)| ==> Key(TokenLines(t, lines)[k]) in [AREA, MANAGEMENT]
  {
    hide Key, Line, Suffixes;
    KeysArePlain(AREA);
    KeysArePlain(MANAGEMENT);
    KeyOfLine(AREA, t.area);
    KeyOfLine(MANAGEMENT, t.management);
  }

  /** A freshly created file is already what the pipeline asks for. */
  lemma {:induction false} CreatedIsSettled(p: Placement, t: Tokens, s: Secrets)
    requires s.password != "" && Strip(s.password) == s.password
    ensures Pipeline(p, t, CreatedLines(p, t, s)) == Ok(CreatedLines(p, t, s))
    ensures TokenLines(t, CreatedLines(p, t, s)) == []
  {
    var lines := CreatedLines(p, t, s);
    CreatedPassword(p, t, s);
    CreatedAccepted(p, t, s, AREA);
    CreatedAccepted(p, t, s, MANAGEMENT);
    ClosedForm(p, t, lines);
    CreatedConverged(p, t, s);
    hide CreatedLines, Pipeline, ConvergedLines, TokenAccepted, TokenLine, Suffixes, Strip;
    assert lines + [] == lines;
  }

  /** As text: the first deployment writes the file once and then changes nothing in it. */
  lemma {:induction false} CreatedTextIsSettled(p: Placement, t: Tokens, s: Secrets)
    requires Sound(p, t) && s.password != "" && Strip(s.password) == s.password
    requires NoBreaks(CreatedLines(p, t, s))
    ensures PipelineText(p, t, Unlines(CreatedLines(p, t, s))) == Ok(Unlines(CreatedLines(p, t, s)))
    ensures WellEnded(Unlines(CreatedLines(p, t, s))) && Canonical(Unlines(CreatedLines(p, t, s)))
  {
    var lines := CreatedLines(p, t, s);
    assert lines != [];
    hide CreatedLines, Sound, Strip, Unlines, SplitLines, PipelineText, TokenLines, NoBreaks;
    CreatedIsSettled(p, t, s);
    SplitUnlines(lines);
    UnlinesEnds(lines);
    SettledText(p, t, Unlines(lines));
  }

  lemma {:induction false} CreatedAccepted(p: Placement, t: Tokens, s: Secrets, key: string)
    requires key in [AREA, MANAGEMENT]
    ensures
      var token := if key == AREA then t.area else t.management;
      TokenAccepted(CreatedLines(p, t, s), key, token) && TokenLine(CreatedLines(p, t, s), key, token) == []
  {
    CreatedToken(p, t, s, key);
    assert Suffixes([], AREA + "=") == [] && Suffixes([], MANAGEMENT + "=") == [];
    hide CreatedLines, Line;
    var area, management := TokenLine([], AREA, t.area), TokenLine([], MANAGEMENT, t.management);
    SuffixesConcat(area, management, key + "=");
    TokenLineSuffixes(AREA, t.area, key);
    TokenLineSuffixes(MANAGEMENT, t.management, key);
  }

  lemma {:induction false} CreatedConverged(p: Placement, t: Tokens, s: Secrets)
    ensures ConvergedLines(p, s.password, CreatedLines(p, t, s)) == CreatedLines(p, t, s)
  {
    var head, password, tail := CreatedHead(p, s), [Line(PASSWORD, s.password)], CreatedTail(p, s);
    var lines := CreatedLines(p, t, s);
    HeadKeys(p, s);
    TailKeys(p, s);
    KeysArePlain(PASSWORD);
    KeyOfLine(PASSWORD, s.password);
    assert lines[0] == head[0] && lines[1] == head[1] && lines[3] == tail[0];
    hide Key, Value, TokenLines, CreatedHead, CreatedTail, Line;
    assert HasKey(lines, DB) && HasKey(lines, USER) && HasKey(lines, URL);
    NothingMissing(p, s.password, lines, KEYS);
    ConvergedAllConcat(p, s.password, head + password + tail, TokenLines(t, []));
    ConvergedAllConcat(p, s.password, head + password, tail);
    ConvergedAllConcat(p, s.password, head, password);
    TokenLinesConverged(p, s.password, t, []);
    assert ConvergedAll(p, s.password, password) == password;
  }

  lemma SplitOneBreak(line: string, c: char)
    requires NoBreak(line) && IsBreak(c)
    ensures SplitLines(line + [c]) == [line]
  {
    var text := line + [c];
    assert text[..|line|] == line;
    FirstBreakUnique(text, |line|);
    assert text[|line| + 1..] == "";
  }

  /** A new tenant's file whose last newline became a form feed. */
  function FormFeedFile(p: Placement, s: Secrets): string {
    var lines := CreatedLines(p, Tokens("", ""), s);
    if lines == [] then "" else Unlines(lines[..|lines| - 1]) + lines[|lines| - 1] + "\U{c}"
  }

  lemma FormFeedLines(p: Placement, s: Secrets)
    requires NoBreaks(CreatedLines(p, Tokens("", ""), s))
    ensures SplitLines(FormFeedFile(p, s)) == CreatedLines(p, Tokens("", ""), s) && !WellEnded(FormFeedFile(p, s))
  {
    hide Value, Line, SplitLines, Unlines;
    var lines := CreatedLines(p, Tokens("", ""), s);
    assert lines != [];
    hide CreatedLines;
    var init, last := lines[..|lines| - 1], lines[|lines| - 1];
    assert NoBreaks(init);
    SplitUnlines(init);
    UnlinesEnds(init);
    NoLinesNoText();
    SplitOneBreak(last, '\U{c}');
    SplitAfterBreak(Unlines(init), last + "\U{c}");
    assert Unlines(init) + last + "\U{c}" == Unlines(init) + (last + "\U{c}");
    assert init + [last] == lines;
  }

  lemma NoLinesNoText()
    ensures Unlines([]) == ""
  {
  }

  /** Where absorption fails: with a form feed at the end and a token to add, going through the tenant's own placement
      leaves an empty line that going straight to another one does not. */
  lemma {:induction false} FormFeedExample(a: Placement, b: Placement, t: Tokens, s: Secrets)
    requires Sound(a, t) && Sound(b, t) && s.password != "" && Strip(s.password) == s.password
    requires NoBreaks(CreatedLines(a, Tokens("", ""), s)) && t.area != ""
    requires Value(a, s.password, DB) != Value(b, s.password, DB)
    ensures
      var text := FormFeedFile(a, s);
      && PipelineText(a, t, text).Ok? && PipelineText(b, t, text).Ok?
      && var through := PipelineText(b, t, PipelineText(a, t, text).value);
         through.Ok? && SplitLines(through.value) != SplitLines(PipelineText(b, t, text).value)
  {
    var none, text := Tokens("", ""), FormFeedFile(a, s);
    var lines := CreatedLines(a, none, s);
    FormFeedLines(a, s);
    CreatedPassword(a, none, s);
    CreatedConverged(a, none, s);
    CreatedLacksTokens(a, t, s);
    MovesDatabase(a, b, s);
    hide CreatedLines, SplitLines, FormFeedFile, ConvergedLines, WellEnded, Sound, PipelineText, Pipeline, Suffixes,
      Strip, Value;
    assert ReadEnvValue(lines, PASSWORD) == s.password;
    hide ReadEnvValue;
    NoPassword(text);
    ClosedForm(a, t, lines);
    PipelineTextLines(a, t, text);
    DeployAbsorbs(a, b, t, text);
  }

  lemma CreatedLacksTokens(p: Placement, t: Tokens, s: Secrets)
    ensures var lines := CreatedLines(p, Tokens("", ""), s);
            && TokenAccepted(lines, AREA, t.area) && TokenAccepted(lines, MANAGEMENT, t.management)
            && (t.area != "" ==> TokenLines(t, lines) != [])
  {
    var none := Tokens("", "");
    CreatedToken(p, none, s, AREA);
    CreatedToken(p, none, s, MANAGEMENT);
    NoTokens([]);
    hide CreatedLines, Line;
    assert Suffixes([], AREA + "=") == [] && Suffixes([], MANAGEMENT + "=") == [];
  }

  lemma MovesDatabase(a: Placement, b: Placement, s: Secrets)
    requires Value(a, s.password, DB) != Value(b, s.password, DB)
    ensures var lines := CreatedLines(a, Tokens("", ""), s);
            ConvergedLines(b, s.password, lines) != lines
  {
    var lines := CreatedLines(a, Tokens("", ""), s);
    HeadKeys(a, s);
    assert lines[0] == Line(DB, Value(a, s.password, DB));
    hide Key, Value, CreatedLines, Missing;
    assert ConvergedLines(b, s.password, lines)[0] == Line(DB, Value(b, s.password, DB));
    assert Line(DB, Value(a, s.password, DB))[|DB| + 1..] == Value(a, s.password, DB);
    assert Line(DB, Value(b, s.password, DB))[|DB| + 1..] == Value(b, s.password, DB);
  }
}
