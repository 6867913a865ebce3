/** The tenant's write-once `.env`: placement-derived lines follow the plan, tokens are added once,
    and every other line stays. A file is the text `read_text` returns for it. */
module TenantEnv {
  import opened PythonText

  datatype Result<T> = Ok(value: T) | Err(error: Error)
  datatype Error = MissingPassword | AreaTokenMismatch | ManagementTokenMismatch

  /** Where the tenant's database lives. */
  datatype Placement = Dedicated | SharedPg(database: string, host: string)

  /** The tokens derived from the configured master keys for this tenant; empty when not configured. */
  datatype Tokens = Tokens(area: string, management: string)

  const DB := "POSTGRES_DB"
  const USER := "POSTGRES_USER"
  const URL := "CROWDRELAY_DATABASE_URL"
  const PASSWORD := "POSTGRES_PASSWORD"
  const AREA := "CROWDRELAY_CONTROL_PLANE_AREA_API_KEY"
  const MANAGEMENT := "CROWDRELAY_CONTROL_PLANE_API_KEY"
  const KEYS := [DB, USER, URL]

  // ----- Python's text operations -----

  /** The characters `str.splitlines` breaks on. */
  predicate IsBreak(c: char) {
    '\n' <= c <= '\r' || '\U{1c}' <= c <= '\U{1e}' || c == '\U{85}' || c == '\U{2028}' || c == '\U{2029}'
  }

  predicate NoBreak(s: string) {
    forall k :: 0 <= k < |s| ==> !IsBreak(s[k])
  }

  predicate NoBreaks(lines: seq<string>) {
    forall k :: 0 <= k < |lines| ==> NoBreak(lines[k])
  }

  function FirstBreak(text: string): (n: nat)
    ensures n <= |text| && NoBreak(text[..n])
    ensures n < |text| ==> IsBreak(text[n])
  {
    if text == "" || IsBreak(text[0]) then 0
    else
      assert text[..1 + FirstBreak(text[1..])] == [text[0]] + text[1..][..FirstBreak(text[1..])];
      1 + FirstBreak(text[1..])
  }

  function SplitLines(text: string): (lines: seq<string>)
    decreases |text|
  {
    var n := FirstBreak(text);
    if text == "" then []
    else if n == |text| then [text]
    else [text[..n]] + SplitLines(text[n + 1..])
  }

  /** `"\n".join(lines) + "\n"`, for a nonempty list. */
  function Unlines(lines: seq<string>): string {
    if lines == [] then "" else lines[0] + "\n" + Unlines(lines[1..])
  }

  /** The part of a line before its first `=`. */
  function BeforeEq(line: string): string {
    if line == "" || line[0] == '=' then "" else [line[0]] + BeforeEq(line[1..])
  }

  function Key(line: string): string {
    Strip(BeforeEq(line))
  }

  function Line(key: string, value: string): string {
    key + "=" + value
  }

  /** What follows the prefix, on each line that starts with it. */
  function Suffixes(lines: seq<string>, prefix: string): seq<string> {
    if lines == [] then []
    else
      var rest := Suffixes(lines[..|lines| - 1], prefix);
      if prefix <= lines[|lines| - 1] then rest + [lines[|lines| - 1][|prefix|..]] else rest
  }

  function ReadEnvValue(lines: seq<string>, key: string): string {
    var found := Suffixes(lines, key + "=");
    if found == [] then "" else Strip(found[0])
  }

  // ----- What the plan asks for -----

  function Value(p: Placement, password: string, key: string): string {
    var name := if p.SharedPg? then p.database else "crowdrelay";
    var host := if p.SharedPg? then p.host else "postgres";
    if key == URL then "postgres://" + name + ":" + password + "@" + host + ":5432/" + name else name
  }

  /** One line after convergence. */
  function Converged(p: Placement, password: string, line: string): string {
    if Key(line) in KEYS then Line(Key(line), Value(p, password, Key(line))) else line
  }

  function ConvergedAll(p: Placement, password: string, lines: seq<string>): (out: seq<string>)
    ensures |out| == |lines|
  {
    seq(|lines|, k requires 0 <= k < |lines| => Converged(p, password, lines[k]))
  }

  predicate HasKey(lines: seq<string>, key: string) {
    exists k :: 0 <= k < |lines| && Key(lines[k]) == key
  }

  /** The lines appended for the expected keys not present, in order. */
  function Missing(p: Placement, password: string, lines: seq<string>, keys: seq<string>): seq<string> {
    if keys == [] then []
    else if HasKey(lines, keys[0]) then Missing(p, password, lines, keys[1..])
    else [Line(keys[0], Value(p, password, keys[0]))] + Missing(p, password, lines, keys[1..])
  }

  function ConvergedLines(p: Placement, password: string, lines: seq<string>): seq<string> {
    ConvergedAll(p, password, lines) + Missing(p, password, lines, KEYS)
  }

  /** `ensure_area_management_secret` and `ensure_management_secret` on lines. */
  function Ensured(lines: seq<string>, key: string, token: string, error: Error): Result<seq<string>> {
    var existing := Suffixes(lines, key + "=");
    if token == "" then Ok(lines)
    else if existing == [] then Ok(lines + [Line(key, token)])
    else if existing == [token] then Ok(lines)
    else Err(error)
  }

  /** The whole pipeline on lines: converge, then the two tokens. */
  function Pipeline(p: Placement, t: Tokens, lines: seq<string>): Result<seq<string>> {
    var password := ReadEnvValue(lines, PASSWORD);
    if password == "" then Err(MissingPassword)
    else
      var area := Ensured(ConvergedLines(p, password, lines), AREA, t.area, AreaTokenMismatch);
      if area.Err? then area
      else Ensured(area.value, MANAGEMENT, t.management, ManagementTokenMismatch)
  }

  // ----- Facts about single lines -----

  ghost predicate Plain(key: string) {
    key != "" && '=' !in key && !IsSpace(key[0]) && !IsSpace(key[|key| - 1])
  }

  lemma {:induction false} BeforeEqOfLine(key: string, value: string)
    requires '=' !in key
    ensures BeforeEq(key + "=" + value) == key
  {
    if key == "" {
      assert (key + "=" + value)[0] == '=';
    } else {
      BeforeEqOfLine(key[1..], value);
      assert (key + "=" + value)[1..] == key[1..] + "=" + value;
    }
  }

  lemma KeyOfLine(key: string, value: string)
    requires Plain(key)
    ensures Key(Line(key, value)) == key
  {
    BeforeEqOfLine(key, value);
  }

  lemma KeysArePlain(key: string)
    requires key in [DB, USER, URL, PASSWORD, AREA, MANAGEMENT]
    ensures Plain(key)
  {
  }

  /** A line that starts with a plain key and `=` has that key. */
  lemma KeyOfPrefix(line: string, key: string)
    requires Plain(key) && key + "=" <= line
    ensures Key(line) == key && line == Line(key, line[|key| + 1..])
  {
    assert line == (key + "=") + line[|key| + 1..];
    KeyOfLine(key, line[|key| + 1..]);
  }

  /** Converging a line never turns it into, or out of, a line of an unmanaged key. */
  lemma ConvergedKeepsPrefix(p: Placement, password: string, line: string, key: string)
    requires key in [PASSWORD, AREA, MANAGEMENT]
    ensures key + "=" <= Converged(p, password, line) <==> key + "=" <= line
    ensures key + "=" <= line ==> Converged(p, password, line) == line
  {
    KeysArePlain(key);
    if key + "=" <= line {
      KeyOfPrefix(line, key);
    }
    if Key(line) in KEYS {
      KeysArePlain(Key(line));
      KeyOfLine(Key(line), Value(p, password, Key(line)));
      if key + "=" <= Converged(p, password, line) {
        KeyOfPrefix(Converged(p, password, line), key);
      }
    }
  }

  lemma ConvergedTwice(a: Placement, b: Placement, password: string, line: string)
    ensures Converged(b, password, Converged(a, password, line)) == Converged(b, password, line)
    ensures Key(Converged(a, password, line)) == Key(line)
  {
    if Key(line) in KEYS {
      KeysArePlain(Key(line));
      KeyOfLine(Key(line), Value(a, password, Key(line)));
    }
  }

  // ----- Facts about lists of lines -----

  lemma {:induction false} SuffixesConcat(xs: seq<string>, ys: seq<string>, prefix: string)
    ensures Suffixes(xs + ys, prefix) == Suffixes(xs, prefix) + Suffixes(ys, prefix)
  {
    if ys == [] {
      assert xs + ys == xs;
    } else {
      SuffixesConcat(xs, ys[..|ys| - 1], prefix);
      assert (xs + ys)[..|xs + ys| - 1] == xs + ys[..|ys| - 1];
    }
  }

  lemma {:induction false} SuffixesConverged(p: Placement, password: string, lines: seq<string>, key: string)
    requires key in [PASSWORD, AREA, MANAGEMENT]
    ensures Suffixes(ConvergedAll(p, password, lines), key + "=") == Suffixes(lines, key + "=")
  {
    if lines != [] {
      var init := lines[..|lines| - 1];
      SuffixesConverged(p, password, init, key);
      ConvergedKeepsPrefix(p, password, lines[|lines| - 1], key);
      assert ConvergedAll(p, password, lines)[..|lines| - 1] == ConvergedAll(p, password, init);
    }
  }

  /** None of these lines starts with the prefix of another key. */
  lemma {:induction false} SuffixesOfOthers(lines: seq<string>, key: string)
    requires Plain(key) && forall k :: 0 <= k < |lines| ==> Key(lines[k]) != key
    ensures Suffixes(lines, key + "=") == []
  {
    if lines != [] {
      SuffixesOfOthers(lines[..|lines| - 1], key);
      if key + "=" <= lines[|lines| - 1] {
        KeyOfPrefix(lines[|lines| - 1], key);
      }
    }
  }

  lemma {:induction false} MissingKeys(p: Placement, password: string, lines: seq<string>, keys: seq<string>)
    requires forall k :: 0 <= k < |keys| ==> keys[k] in KEYS
    ensures var out := Missing(p, password, lines, keys);
            && (forall k :: 0 <= k < |out| ==> Key(out[k]) in KEYS)
            && (forall k :: 0 <= k < |keys| && !HasKey(lines, keys[k]) ==> HasKey(out, keys[k]))
  {
    hide Key, Value;
    if keys != [] {
      MissingKeys(p, password, lines, keys[1..]);
      var out, rest := Missing(p, password, lines, keys), Missing(p, password, lines, keys[1..]);
      KeysArePlain(keys[0]);
      KeyOfLine(keys[0], Value(p, password, keys[0]));
      var n := |out| - |rest|;
      forall k | 0 <= k < |keys| && !HasKey(lines, keys[k])
        ensures HasKey(out, keys[k])
      {
        if k == 0 {
          assert Key(out[0]) == keys[0];
        } else {
          assert keys[1..][k - 1] == keys[k];
          var j :| 0 <= j < |rest| && Key(rest[j]) == keys[k];
          assert out[j + n] == rest[j];
        }
      }
    }
  }

  lemma {:induction false} MissingConverged(a: Placement, b: Placement, password: string, lines: seq<string>,
                                            keys: seq<string>)
    requires forall k :: 0 <= k < |keys| ==> keys[k] in KEYS
    ensures ConvergedAll(b, password, Missing(a, password, lines, keys)) == Missing(b, password, lines, keys)
  {
    if keys != [] {
      var rest := Missing(a, password, lines, keys[1..]);
      MissingConverged(a, b, password, lines, keys[1..]);
      if !HasKey(lines, keys[0]) {
        var head := Line(keys[0], Value(a, password, keys[0]));
        assert Converged(b, password, head) == Line(keys[0], Value(b, password, keys[0])) by {
          KeysArePlain(keys[0]);
          KeyOfLine(keys[0], Value(a, password, keys[0]));
        }
        ConvergedAllConcat(b, password, [head], rest);
        assert ConvergedAll(b, password, [head]) == [Converged(b, password, head)];
      }
    }
  }

  lemma {:induction false} NothingMissing(p: Placement, password: string, lines: seq<string>, keys: seq<string>)
    requires forall k :: 0 <= k < |keys| ==> HasKey(lines, keys[k])
    ensures Missing(p, password, lines, keys) == []
  {
    if keys != [] {
      NothingMissing(p, password, lines, keys[1..]);
    }
  }

  // ----- The pipeline in closed form -----

  ghost predicate TokenAccepted(lines: seq<string>, key: string, token: string) {
    token == "" || Suffixes(lines, key + "=") == [] || Suffixes(lines, key + "=") == [token]
  }

  function TokenLine(lines: seq<string>, key: string, token: string): seq<string> {
    if token != "" && Suffixes(lines, key + "=") == [] then [Line(key, token)] else []
  }

  function TokenLines(t: Tokens, lines: seq<string>): seq<string> {
    TokenLine(lines, AREA, t.area) + TokenLine(lines, MANAGEMENT, t.management)
  }

  /** Convergence touches none of the lines that the password and the tokens are read from. */
  lemma ConvergedLinesSuffixes(p: Placement, password: string, lines: seq<string>, key: string)
    requires key in [PASSWORD, AREA, MANAGEMENT]
    ensures Suffixes(ConvergedLines(p, password, lines), key + "=") == Suffixes(lines, key + "=")
  {
    var missing := Missing(p, password, lines, KEYS);
    SuffixesConverged(p, password, lines, key);
    SuffixesConcat(ConvergedAll(p, password, lines), missing, key + "=");
    MissingKeys(p, password, lines, KEYS);
    KeysArePlain(key);
    SuffixesOfOthers(missing, key);
  }

  lemma TokenLineSuffixes(key: string, token: string, other: string)
    requires key in [AREA, MANAGEMENT] && other in [PASSWORD, AREA, MANAGEMENT]
    ensures Suffixes([Line(key, token)], other + "=") == if key == other then [token] else []
  {
    KeysArePlain(key);
    KeysArePlain(other);
    KeyOfLine(key, token);
    assert [Line(key, token)][..0] == [];
    if other + "=" <= Line(key, token) {
      KeyOfPrefix(Line(key, token), other);
    }
  }

  lemma EnsuredForm(current: seq<string>, lines: seq<string>, key: string, token: string, error: Error)
    requires Suffixes(current, key + "=") == Suffixes(lines, key + "=")
    ensures Ensured(current, key, token, error)
            == if TokenAccepted(lines, key, token) then Ok(current + TokenLine(lines, key, token)) else Err(error)
  {
    assert current + [] == current;
  }

  /** Success depends on the lines alone; the plan only decides what the managed lines say. */
  lemma ClosedForm(p: Placement, t: Tokens, lines: seq<string>)
    ensures
      var password := ReadEnvValue(lines, PASSWORD);
      Pipeline(p, t, lines) ==
      if password == "" then Err(MissingPassword)
      else if !TokenAccepted(lines, AREA, t.area) then Err(AreaTokenMismatch)
      else if !TokenAccepted(lines, MANAGEMENT, t.management) then Err(ManagementTokenMismatch)
      else Ok(ConvergedLines(p, password, lines) + TokenLines(t, lines))
  {
    var password := ReadEnvValue(lines, PASSWORD);
    var converged := ConvergedLines(p, password, lines);
    var area, management := TokenLine(lines, AREA, t.area), TokenLine(lines, MANAGEMENT, t.management);
    ConvergedLinesSuffixes(p, password, lines, AREA);
    EnsuredForm(converged, lines, AREA, t.area, AreaTokenMismatch);
    assert Suffixes(converged + area, MANAGEMENT + "=") == Suffixes(lines, MANAGEMENT + "=") by {
      ConvergedLinesSuffixes(p, password, lines, MANAGEMENT);
      SuffixesConcat(converged, area, MANAGEMENT + "=");
      TokenLineSuffixes(AREA, t.area, MANAGEMENT);
    }
    EnsuredForm(converged + area, lines, MANAGEMENT, t.management, ManagementTokenMismatch);
    assert (converged + area) + management == converged + TokenLines(t, lines);
  }

  /** Reading the pipeline's own output finds the same password, every key and every token. */
  lemma OutputIsSettled(p: Placement, t: Tokens, lines: seq<string>)
    requires Pipeline(p, t, lines).Ok?
    ensures
      var out := Pipeline(p, t, lines).value;
      && ReadEnvValue(out, PASSWORD) == ReadEnvValue(lines, PASSWORD)
      && TokenAccepted(out, AREA, t.area) && TokenAccepted(out, MANAGEMENT, t.management)
      && TokenLines(t, out) == []
      && forall k :: 0 <= k < |KEYS| ==> HasKey(out, KEYS[k])
  {
    ClosedForm(p, t, lines);
    var password := ReadEnvValue(lines, PASSWORD);
    var out := Pipeline(p, t, lines).value;
    assert ReadEnvValue(out, PASSWORD) == password by {
      OutputSuffixes(p, password, t, lines, PASSWORD);
    }
    assert TokenAccepted(out, AREA, t.area) && TokenLine(out, AREA, t.area) == [] by {
      OutputSuffixes(p, password, t, lines, AREA);
    }
    assert TokenAccepted(out, MANAGEMENT, t.management) && TokenLine(out, MANAGEMENT, t.management) == [] by {
      OutputSuffixes(p, password, t, lines, MANAGEMENT);
    }
    OutputHasKeys(p, password, t, lines);
  }

  lemma OutputSuffixes(p: Placement, password: string, t: Tokens, lines: seq<string>, key: string)
    requires key in [PASSWORD, AREA, MANAGEMENT]
    ensures Suffixes(ConvergedLines(p, password, lines) + TokenLines(t, lines), key + "=") ==
            Suffixes(lines, key + "=")
            + (if key == AREA && TokenLine(lines, AREA, t.area) != [] then [t.area] else [])
            + (if key == MANAGEMENT && TokenLine(lines, MANAGEMENT, t.management) != [] then [t.management] else [])
  {
    var converged, area, management :=
      ConvergedLines(p, password, lines), TokenLine(lines, AREA, t.area), TokenLine(lines, MANAGEMENT, t.management);
    ConvergedLinesSuffixes(p, password, lines, key);
    SuffixesConcat(converged, area + management, key + "=");
    SuffixesConcat(area, management, key + "=");
    TokenLineSuffixes(AREA, t.area, key);
    TokenLineSuffixes(MANAGEMENT, t.management, key);
  }

  lemma OutputHasKeys(p: Placement, password: string, t: Tokens, lines: seq<string>)
    ensures forall k :: 0 <= k < |KEYS| ==> HasKey(ConvergedLines(p, password, lines) + TokenLines(t, lines), KEYS[k])
  {
    hide Key, Value, Missing, TokenLines;
    var converged, missing := ConvergedAll(p, password, lines), Missing(p, password, lines, KEYS);
    var out := ConvergedLines(p, password, lines) + TokenLines(t, lines);
    MissingKeys(p, password, lines, KEYS);
    forall k | 0 <= k < |KEYS|
      ensures HasKey(out, KEYS[k])
    {
      if HasKey(lines, KEYS[k]) {
        var j :| 0 <= j < |lines| && Key(lines[j]) == KEYS[k];
        ConvergedTwice(p, p, password, lines[j]);
        assert Key(out[j]) == KEYS[k];
      } else {
        var j :| 0 <= j < |missing| && Key(missing[j]) == KEYS[k];
        assert out[|lines| + j] == missing[j];
      }
    }
  }

  lemma ConvergedAllConcat(p: Placement, password: string, xs: seq<string>, ys: seq<string>)
    ensures ConvergedAll(p, password, xs + ys) == ConvergedAll(p, password, xs) + ConvergedAll(p, password, ys)
  {
  }

  lemma TokenLinesConverged(p: Placement, password: string, t: Tokens, lines: seq<string>)
    ensures ConvergedAll(p, password, TokenLines(t, lines)) == TokenLines(t, lines)
  {
    KeysArePlain(AREA);
    KeysArePlain(MANAGEMENT);
    KeyOfLine(AREA, t.area);
    KeyOfLine(MANAGEMENT, t.management);
  }

  lemma ConvergedAllTwice(a: Placement, b: Placement, password: string, lines: seq<string>)
    ensures ConvergedAll(b, password, ConvergedAll(a, password, lines)) == ConvergedAll(b, password, lines)
  {
    forall k | 0 <= k < |lines|
      ensures Converged(b, password, Converged(a, password, lines[k])) == Converged(b, password, lines[k])
    {
      ConvergedTwice(a, b, password, lines[k]);
    }
  }

  /** Absorption: going through placement `a` first leaves no trace in what placement `b` produces. */
  lemma PipelineAbsorbs(a: Placement, b: Placement, t: Tokens, lines: seq<string>)
    requires Pipeline(a, t, lines).Ok?
    ensures Pipeline(b, t, Pipeline(a, t, lines).value) == Pipeline(b, t, lines)
  {
    var password := ReadEnvValue(lines, PASSWORD);
    var out := Pipeline(a, t, lines).value;
    ClosedForm(a, t, lines);
    ClosedForm(b, t, lines);
    ClosedForm(b, t, out);
    OutputIsSettled(a, t, lines);
    assert ConvergedLines(b, password, out) == ConvergedAll(b, password, out) by {
      NothingMissing(b, password, out, KEYS);
    }
    OutputConverged(a, b, password, t, lines);
    assert ConvergedAll(b, password, out) + [] == ConvergedAll(b, password, out);
  }

  lemma OutputConverged(a: Placement, b: Placement, password: string, t: Tokens, lines: seq<string>)
    ensures ConvergedAll(b, password, ConvergedLines(a, password, lines) + TokenLines(t, lines))
            == ConvergedLines(b, password, lines) + TokenLines(t, lines)
  {
    ConvergedAllConcat(b, password, ConvergedLines(a, password, lines), TokenLines(t, lines));
    ConvergedAllConcat(b, password, ConvergedAll(a, password, lines), Missing(a, password, lines, KEYS));
    TokenLinesConverged(b, password, t, lines);
    ConvergedAllTwice(a, b, password, lines);
    MissingConverged(a, b, password, lines, KEYS);
  }
}
