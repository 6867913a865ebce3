/** The roster's JSON text reads back as the roster: a reader of JSON beside the printer. */
module RosterText {
  import opened RuntimeEnv
  import opened RuntimeSettings
  import opened Wrappers

  // ----- A reader -----

  predicate NumberChar(c: char) {
    c in "0123456789+-.eInfityNa"
  }

  predicate StartsNumber(c: char) {
    c == '-' || '0' <= c <= '9' || c == 'N' || c == 'I'
  }

  /** How many characters at the beginning belong to a number. */
  function NumberRun(s: string): (n: nat)
    ensures n <= |s|
    ensures forall k :: 0 <= k < n ==> NumberChar(s[k])
  {
    if s == "" || !NumberChar(s[0]) then 0 else 1 + NumberRun(s[1..])
  }

  predicate AllDigits(s: string) {
    s != "" && forall k :: 0 <= k < |s| ==> '0' <= s[k] <= '9'
  }

  function DigitsValue(s: string): int
    requires forall k :: 0 <= k < |s| ==> '0' <= s[k] <= '9'
  {
    if s == "" then 0 else 10 * DigitsValue(s[..|s| - 1]) + (s[|s| - 1] as int - '0' as int)
  }

  function NumberOf(s: FloatText): Value {
    if AllDigits(s) then Int(DigitsValue(s))
    else if s != "" && s[0] == '-' && AllDigits(s[1..]) then Int(-DigitsValue(s[1..]))
    else Float(s)
  }

  /** A JSON value without blanks, and what follows it. */
  function ReadValue(s: string): (r: Option<(Value, string)>)
    ensures r.Some? ==> |r.value.1| < |s|
    decreases |s|, 0
  {
    if s == "" then None
    else if s[0] == '"' then
      match ReadString(s[1..]) case None => None case Some((text, rest)) => Some((Str(text), rest))
    else if s[0] == '[' then
      if "[]" <= s then Some((Arr([]), s[2..]))
      else match ReadItems(s[1..]) case None => None case Some((items, rest)) => Some((Arr(items), rest))
    else if s[0] == '{' then
      if "{}" <= s then Some((Obj([]), s[2..]))
      else match ReadFields(s[1..]) case None => None case Some((fields, rest)) => Some((Obj(fields), rest))
    else if s[0] == 'n' then (if "null" <= s then Some((Null, s[4..])) else None)
    else if s[0] == 't' then (if "true" <= s then Some((Bool(true), s[4..])) else None)
    else if s[0] == 'f' then (if "false" <= s then Some((Bool(false), s[5..])) else None)
    else
      var n := NumberRun(s);
      if n == 0 then None else Some((NumberOf(s[..n]), s[n..]))
  }

  /** Values up to the closing bracket. */
  function ReadItems(s: string): (r: Option<(seq<Value>, string)>)
    ensures r.Some? ==> |r.value.1| < |s|
    decreases |s|, 1
  {
    match ReadValue(s)
    case None => None
    case Some((v, rest)) =>
      if rest == "" then None
      else if rest[0] == ']' then Some(([v], rest[1..]))
      else if rest[0] != ',' then None
      else match ReadItems(rest[1..]) case None => None case Some((vs, after)) => Some(([v] + vs, after))
  }

  /** A key in quotes, a colon and a value. */
  function ReadField(s: string): (r: Option<(Field, string)>)
    ensures r.Some? ==> |r.value.1| < |s|
    decreases |s|, 1
  {
    if s == "" || s[0] != '"' then None
    else
      match ReadString(s[1..])
      case None => None
      case Some((key, rest)) =>
        if rest == "" || rest[0] != ':' then None
        else match ReadValue(rest[1..]) case None => None case Some((v, after)) => Some((Field(key, v), after))
  }

  /** Members up to the closing brace. */
  function ReadFields(s: string): (r: Option<(seq<Field>, string)>)
    ensures r.Some? ==> |r.value.1| < |s|
    decreases |s|, 2
  {
    match ReadField(s)
    case None => None
    case Some((f, rest)) =>
      if rest == "" then None
      else if rest[0] == '}' then Some(([f], rest[1..]))
      else if rest[0] != ',' then None
      else match ReadFields(rest[1..]) case None => None case Some((fs, after)) => Some(([f] + fs, after))
  }

  // ----- What reads back -----

  predicate Ends(rest: string) {
    rest == "" || rest[0] in ",]}"
  }

  ghost predicate ReadsAs(text: string, v: Value) {
    forall rest :: Ends(rest) ==> ReadValue(text + rest) == Some((v, rest))
  }

  ghost predicate FieldReadsAs(text: string, f: Field) {
    forall rest :: Ends(rest) ==> ReadField(text + rest) == Some((f, rest))
  }

  /** A float is printed with a point, an exponent or by name, so its text is no integer's. */
  predicate FloatForm(s: FloatText) {
    s != "" && StartsNumber(s[0]) && NumberOf(s).Float?
  }

  predicate FloatsPrint(v: Value) {
    match v
    case Float(repr) => FloatForm(repr)
    case Arr(items) => forall k :: 0 <= k < |items| ==> FloatsPrint(items[k])
    case Obj(fields) => forall k :: 0 <= k < |fields| ==> FloatsPrint(fields[k].value)
    case _ => true
  }

  // ----- Numbers -----

  lemma {:induction false} RunOf(s: string, rest: string)
    requires (forall k :: 0 <= k < |s| ==> NumberChar(s[k])) && Ends(rest)
    ensures NumberRun(s + rest) == |s| && (s + rest)[..|s|] == s && (s + rest)[|s|..] == rest
  {
    assert rest != "" ==> !NumberChar(rest[0]);
    hide NumberChar, Ends;
    if s == "" {
      assert s + rest == rest;
    } else {
      RunOf(s[1..], rest);
      assert (s + rest)[1..] == s[1..] + rest;
    }
  }

  lemma ReadNumber(s: string)
    requires s != "" && StartsNumber(s[0])
    ensures NumberRun(s) > 0 && ReadValue(s) == Some((NumberOf(s[..NumberRun(s)]), s[NumberRun(s)..]))
  {
    NumberStart(s[0]);
    hide NumberOf, ReadString, ReadItems, ReadFields, NumberChar;
  }

  lemma NumberStart(c: char)
    requires StartsNumber(c)
    ensures NumberChar(c) && c !in ['"', '[', '{', 'n', 't', 'f']
  {
    var all := "0123456789+-.eInfityNa";
    assert all[if c == '-' then 11 else if c == 'N' then 20 else if c == 'I' then 14 else c as int - '0' as int] == c;
  }

  lemma NumberReads(s: FloatText, v: Value)
    requires s != "" && StartsNumber(s[0]) && NumberOf(s) == v
    ensures ReadsAs(s, v)
  {
    forall rest | Ends(rest)
      ensures ReadValue(s + rest) == Some((v, rest))
    {
      hide ReadValue, NumberRun, NumberOf, Ends;
      RunOf(s, rest);
      assert (s + rest)[0] == s[0];
      ReadNumber(s + rest);
    }
  }

  lemma {:induction false} DecimalValue(n: nat)
    ensures AllDigits(Decimal(n)) && DigitsValue(Decimal(n)) == n
  {
    if n >= 10 {
      DecimalValue(n / 10);
      var d := Decimal(n);
      assert d[..|d| - 1] == Decimal(n / 10);
    }
  }

  lemma DigitsAreNumbers(s: string)
    requires AllDigits(s)
    ensures forall k :: 0 <= k < |s| ==> NumberChar(s[k])
  {
    forall k | 0 <= k < |s|
      ensures NumberChar(s[k])
    {
      DigitIsNumber(s[k]);
    }
  }

  lemma DigitIsNumber(c: char)
    requires '0' <= c <= '9'
    ensures NumberChar(c) && StartsNumber(c)
  {
    assert "0123456789+-.eInfityNa"[c as int - '0' as int] == c;
  }

  lemma IntReads(n: int)
    ensures ReadsAs(Signed(n), Int(n))
  {
    hide ReadsAs, Decimal, DigitsValue;
    if n < 0 {
      DecimalValue(-n);
      DigitsAreNumbers(Decimal(-n));
      assert "0123456789+-.eInfityNa"[11] == '-';
      assert Signed(n)[1..] == Decimal(-n);
      NumberReads(Signed(n), Int(n));
    } else {
      DecimalValue(n);
      DigitsAreNumbers(Decimal(n));
      DigitIsNumber(Decimal(n)[0]);
      NumberReads(Signed(n), Int(n));
    }
  }

  // ----- Strings and names -----

  lemma QuotedReads(text: string, rest: string)
    ensures var s := Enclose('"', Escape(text), '"') + rest;
            s != "" && s[0] == '"' && ReadString(s[1..]) == Some((text, rest))
  {
    var s := Enclose('"', Escape(text), '"') + rest;
    assert s[1..] == Escape(text) + "\"" + rest;
    hide Escape, ReadString;
    StringReadsBack(text, rest);
  }

  lemma StringReads(text: string)
    ensures ReadsAs(Enclose('"', Escape(text), '"'), Str(text))
  {
    hide Escape, ReadString, ReadItems, ReadFields, Enclose;
    forall rest | Ends(rest)
      ensures ReadValue(Enclose('"', Escape(text), '"') + rest) == Some((Str(text), rest))
    {
      QuotedReads(text, rest);
    }
  }

  lemma NamesRead()
    ensures ReadsAs("null", Null) && ReadsAs("true", Bool(true)) && ReadsAs("false", Bool(false))
  {
    forall rest | Ends(rest)
      ensures ReadValue("null" + rest) == Some((Null, rest))
      ensures ReadValue("true" + rest) == Some((Bool(true), rest))
      ensures ReadValue("false" + rest) == Some((Bool(false), rest))
    {
      assert ("null" + rest)[4..] == rest && ("true" + rest)[4..] == rest && ("false" + rest)[5..] == rest;
      assert ("null" + rest)[..4] == "null" && ("true" + rest)[..4] == "true" && ("false" + rest)[..5] == "false";
      assert ("null" + rest)[0] == 'n' && ("true" + rest)[0] == 't' && ("false" + rest)[0] == 'f';
    }
  }

  // ----- Lists and objects -----

  /** Texts with a comma between any two. */
  function Commas(texts: seq<string>): string {
    if texts == [] then ""
    else if |texts| == 1 then texts[0]
    else texts[0] + "," + Commas(texts[1..])
  }

  lemma {:induction false} CommasSnoc(texts: seq<string>, last: string)
    ensures Commas(texts + [last]) == if texts == [] then last else Commas(texts) + "," + last
  {
    var all := texts + [last];
    if texts == [] {
      assert all == [last];
    } else {
      assert all[1..] == texts[1..] + [last];
      CommasSnoc(texts[1..], last);
      if |texts| > 1 {
        assert texts[0] + "," + (Commas(texts[1..]) + "," + last) == Commas(texts) + "," + last;
      }
    }
  }

  /** A text that reads as a value is not empty and does not begin like an end. */
  lemma ReadsStart(text: string, v: Value)
    requires ReadsAs(text, v)
    ensures text != "" && !Ends(text)
  {
    hide ReadValue;
    assert Ends(",") && ReadValue(text + ",") == Some((v, ","));
    if Ends(text) {
      NoNumberEnds(text + ",");
    }
  }

  lemma NoNumberEnds(s: string)
    requires s != "" && Ends(s)
    ensures ReadValue(s).None?
  {
    hide ReadString, ReadItems, ReadFields, NumberOf;
  }

  lemma {:induction false} ItemsRead(texts: seq<string>, items: seq<Value>, rest: string)
    requires |texts| == |items| > 0 && forall k :: 0 <= k < |texts| ==> ReadsAs(texts[k], items[k])
    ensures ReadItems(Commas(texts) + "]" + rest) == Some((items, rest))
  {
    hide ReadValue;
    if |texts| == 1 {
      assert Commas(texts) + "]" + rest == texts[0] + ("]" + rest);
      assert ("]" + rest)[1..] == rest && Ends("]" + rest);
      assert items == [items[0]];
    } else {
      var more := Commas(texts[1..]) + "]" + rest;
      ItemsRead(texts[1..], items[1..], rest);
      assert Commas(texts) + "]" + rest == texts[0] + ("," + more);
      assert ("," + more)[1..] == more && Ends("," + more);
      assert items == [items[0]] + items[1..];
    }
  }

  lemma {:induction false} FieldsRead(texts: seq<string>, fields: seq<Field>, rest: string)
    requires |texts| == |fields| > 0 && forall k :: 0 <= k < |texts| ==> FieldReadsAs(texts[k], fields[k])
    ensures ReadFields(Commas(texts) + "}" + rest) == Some((fields, rest))
  {
    hide ReadField;
    if |texts| == 1 {
      assert Commas(texts) + "}" + rest == texts[0] + ("}" + rest);
      assert ("}" + rest)[1..] == rest && Ends("}" + rest);
      assert fields == [fields[0]];
    } else {
      var more := Commas(texts[1..]) + "}" + rest;
      FieldsRead(texts[1..], fields[1..], rest);
      assert Commas(texts) + "}" + rest == texts[0] + ("," + more);
      assert ("," + more)[1..] == more && Ends("," + more);
      assert fields == [fields[0]] + fields[1..];
    }
  }

  lemma MemberReads(key: string, text: string, v: Value)
    requires ReadsAs(text, v) && Printable(text)
    ensures FieldReadsAs(Member(key, text), Field(key, v))
  {
    hide Escape, ReadString, ReadValue, Enclose, Printable;
    forall rest | Ends(rest)
      ensures ReadField(Member(key, text) + rest) == Some((Field(key, v), rest))
    {
      var after := ":" + text + rest;
      QuotedReads(key, after);
      assert Member(key, text) + rest == Enclose('"', Escape(key), '"') + after;
      assert after[1..] == text + rest;
    }
  }

  // ----- The printer against the reader -----

  /** The texts of the first `n` items. */
  function ItemTexts(items: seq<Value>, n: nat): (texts: seq<string>)
    requires n <= |items|
    ensures |texts| == n && forall k :: 0 <= k < n ==> texts[k] == Dumps(items[k])
  {
    if n == 0 then [] else ItemTexts(items, n - 1) + [Dumps(items[n - 1])]
  }

  lemma {:induction false} ItemsListed(v: Value, n: nat)
    requires v.Arr? && n <= |v.items|
    ensures DumpsItems(v, n) == Commas(ItemTexts(v.items, n))
    decreases n
  {
    hide Dumps, Printable;
    if n > 0 {
      ItemsListed(v, n - 1);
      CommasSnoc(ItemTexts(v.items, n - 1), Dumps(v.items[n - 1]));
    }
  }

  function FieldText(f: Field): string {
    Member(f.key, Dumps(f.value))
  }

  lemma NextField(v: Value, n: nat)
    requires v.Obj? && n < |v.fields|
    ensures DumpsFields(v, n + 1)
         == if n == 0 then FieldText(v.fields[n]) else DumpsFields(v, n) + "," + FieldText(v.fields[n])
  {
    hide Dumps, Printable, Member;
  }

  /** The texts of the first `n` members. */
  function FieldTexts(fields: seq<Field>, n: nat): (texts: seq<string>)
    requires n <= |fields|
    ensures |texts| == n && forall k :: 0 <= k < n ==> texts[k] == FieldText(fields[k])
  {
    if n == 0 then [] else FieldTexts(fields, n - 1) + [FieldText(fields[n - 1])]
  }

  lemma {:induction false} FieldsListed(v: Value, n: nat)
    requires v.Obj? && n <= |v.fields|
    ensures DumpsFields(v, n) == Commas(FieldTexts(v.fields, n))
    decreases n
  {
    hide Dumps, Printable, FieldText, Member;
    if n > 0 {
      FieldsListed(v, n - 1);
      NextField(v, n - 1);
      hide DumpsFields;
      CommasSnoc(FieldTexts(v.fields, n - 1), FieldText(v.fields[n - 1]));
    }
  }

  /** What `json.dumps` writes for a value reads back as the value, whatever follows. */
  lemma {:induction false} DumpsReads(v: Value)
    requires FloatsPrint(v)
    ensures ReadsAs(Dumps(v), v)
    decreases v
  {
    hide ReadsAs;
    match v
    case Null => NamesRead();
    case Bool(_) => NamesRead();
    case Int(n) => IntReads(n);
    case Float(repr) => NumberReads(repr, v);
    case Str(text) => StringReads(text);
    case Arr(items) =>
      forall k | 0 <= k < |items|
        ensures ReadsAs(Dumps(items[k]), items[k])
      {
        DumpsReads(items[k]);
      }
      ArrayReads(v);
    case Obj(fields) =>
      forall k | 0 <= k < |fields|
        ensures ReadsAs(Dumps(fields[k].value), fields[k].value)
      {
        DumpsReads(fields[k].value);
      }
      ObjectReads(v);
  }

  lemma ArrayReads(v: Value)
    requires v.Arr? && forall k :: 0 <= k < |v.items| ==> ReadsAs(Dumps(v.items[k]), v.items[k])
    ensures ReadsAs(Dumps(v), v)
  {
    var items := v.items;
    var texts := ItemTexts(items, |items|);
    ItemsListed(v, |items|);
    assert Dumps(v) == "[" + Commas(texts) + "]";
    hide Dumps, DumpsItems, ReadString, ReadItems, ReadFields, NumberOf, NumberRun;
    forall rest | Ends(rest)
      ensures ReadValue("[" + Commas(texts) + "]" + rest) == Some((v, rest))
    {
      ListReads(texts, items, rest);
    }
  }

  lemma ListReads(texts: seq<string>, items: seq<Value>, rest: string)
    requires |texts| == |items| && forall k :: 0 <= k < |texts| ==> ReadsAs(texts[k], items[k])
    ensures ReadValue("[" + Commas(texts) + "]" + rest) == Some((Arr(items), rest))
  {
    hide ReadsAs, ReadString, ReadItems, ReadFields, NumberOf, NumberRun, Ends;
    var s := "[" + Commas(texts) + "]" + rest;
    if items == [] {
      assert s == "[]" + rest && s[2..] == rest;
    } else {
      assert s[1..] == Commas(texts) + "]" + rest;
      ItemsRead(texts, items, rest);
      CommasStart(texts, items);
      assert s[1] == Commas(texts)[0];
    }
  }

  lemma CommasStart(texts: seq<string>, items: seq<Value>)
    requires |texts| == |items| > 0 && ReadsAs(texts[0], items[0])
    ensures Commas(texts) != "" && Commas(texts)[0] != ']'
  {
    hide ReadsAs;
    ReadsStart(texts[0], items[0]);
    assert Commas(texts)[0] == texts[0][0];
  }

  lemma ObjectReads(v: Value)
    requires v.Obj? && forall k :: 0 <= k < |v.fields| ==> ReadsAs(Dumps(v.fields[k].value), v.fields[k].value)
    ensures ReadsAs(Dumps(v), v)
  {
    var fields := v.fields;
    var texts := FieldTexts(fields, |fields|);
    FieldsListed(v, |fields|);
    assert Dumps(v) == "{" + Commas(texts) + "}";
    hide Dumps, DumpsFields, ReadString, ReadItems, ReadFields, NumberOf, NumberRun, FieldReadsAs, Member, Printable;
    forall k | 0 <= k < |fields|
      ensures FieldReadsAs(texts[k], fields[k])
    {
      MemberReads(fields[k].key, Dumps(fields[k].value), fields[k].value);
    }
    forall rest | Ends(rest)
      ensures ReadValue("{" + Commas(texts) + "}" + rest) == Some((v, rest))
    {
      MembersRead(texts, fields, rest);
    }
  }

  lemma MembersRead(texts: seq<string>, fields: seq<Field>, rest: string)
    requires |texts| == |fields| && forall k :: 0 <= k < |texts| ==> FieldReadsAs(texts[k], fields[k])
    ensures ReadValue("{" + Commas(texts) + "}" + rest) == Some((Obj(fields), rest))
  {
    hide FieldReadsAs, ReadString, ReadItems, ReadFields, NumberOf, NumberRun, Ends;
    var s := "{" + Commas(texts) + "}" + rest;
    if fields == [] {
      assert s == "{}" + rest && s[2..] == rest;
    } else {
      assert s[1..] == Commas(texts) + "}" + rest;
      FieldsRead(texts, fields, rest);
      FieldStart(texts[0], fields[0]);
      assert s[1] == Commas(texts)[0] == texts[0][0];
    }
  }

  lemma FieldStart(text: string, f: Field)
    requires FieldReadsAs(text, f)
    ensures text != "" && text[0] == '"'
  {
    hide ReadString, ReadValue;
    assert Ends(",") && ReadField(text + ",") == Some((f, ","));
  }

  /** The roster's setting, read as JSON, is the roster. */
  lemma RosterReadsBack(members: Value)
    requires members.Arr? && members.items != [] && FloatsPrint(members)
    ensures |TeamSettings(members)| == 1 && ReadValue(TeamSettings(members)[0].value) == Some((members, ""))
  {
    DumpsReads(members);
    hide Dumps, ReadValue;
    assert Dumps(members) + "" == Dumps(members) && Ends("");
  }

  /** Different rosters are written as different texts. */
  lemma DumpsApart(v: Value, v': Value)
    requires FloatsPrint(v) && FloatsPrint(v')
    ensures Dumps(v) == Dumps(v') <==> v == v'
  {
    DumpsReads(v);
    DumpsReads(v');
    hide Dumps, ReadValue;
    assert Ends("") && Dumps(v) + "" == Dumps(v') + "" ==> Some((v, "")) == Some((v', ""));
    assert Dumps(v) + "" == Dumps(v) && Dumps(v') + "" == Dumps(v');
  }
}
