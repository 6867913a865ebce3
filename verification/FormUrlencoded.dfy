/** `application/x-www-form-urlencoded` serializing and parsing (sections 5.1 and 5.2 of the WHATWG URL
    Standard). Byte strings are strings of characters below U+0100. */
module FormUrlencoded {
  predicate IsByte(c: char) {
    c as int < 256
  }

  predicate Bytes(s: string) {
    forall k :: 0 <= k < |s| ==> IsByte(s[k])
  }

  // ----- Lossy UTF-8 decoding -----

  predicate In(c: char, lo: int, hi: int) {
    lo <= c as int <= hi
  }

  predicate Continuation(c: char) {
    In(c, 0x80, 0xBF)
  }

  /** May `c` follow the lead byte `lead`? The second byte excludes overlong forms, surrogates and
      code points above U+10FFFF. */
  predicate SecondByte(lead: char, c: char) {
    if lead as int == 0xE0 then In(c, 0xA0, 0xBF)
    else if lead as int == 0xED then In(c, 0x80, 0x9F)
    else if lead as int == 0xF0 then In(c, 0x90, 0xBF)
    else if lead as int == 0xF4 then In(c, 0x80, 0x8F)
    else Continuation(c)
  }

  /** The length of the sequence a lead byte announces; 0 for a byte that cannot lead. */
  function Announced(lead: char): nat {
    if In(lead, 0, 0x7F) then 1
    else if In(lead, 0xC2, 0xDF) then 2
    else if In(lead, 0xE0, 0xEF) then 3
    else if In(lead, 0xF0, 0xF4) then 4
    else 0
  }

  /** How many bytes at the front belong together: a whole sequence, or the longest invalid start. */
  function Taken(s: string): (n: nat)
    requires s != ""
    ensures 1 <= n <= |s| && n <= 4
  {
    var want := Announced(s[0]);
    if want < 2 || |s| < 2 || !SecondByte(s[0], s[1]) then 1
    else if want == 2 || |s| < 3 || !Continuation(s[2]) then 2
    else if want == 3 || |s| < 4 || !Continuation(s[3]) then 3
    else 4
  }

  /** The bytes at the front form one encoded character. */
  predicate Whole(s: string)
    requires s != ""
  {
    Taken(s) == Announced(s[0])
  }

  const REPLACEMENT := [0xEF as char, 0xBF as char, 0xBD as char]

  /** `String::from_utf8_lossy`: each ill-formed stretch becomes U+FFFD. */
  function Lossy(s: string): string
    decreases |s|
  {
    if s == "" then ""
    else (if Whole(s) then s[..Taken(s)] else REPLACEMENT) + Lossy(s[Taken(s)..])
  }

  /** Text is a byte string that decodes to itself, which is what a Rust `str` holds. */
  predicate Utf8(s: string) {
    Bytes(s) && Lossy(s) == s
  }

  lemma TakenPrefix(s: string, more: string)
    requires s != "" && |s| == Taken(s) == Announced(s[0])
    ensures Taken(s + more) == |s| && Whole(s + more)
  {
    assert forall k :: 0 <= k < |s| ==> (s + more)[k] == s[k];
  }

  /** Decoded text is valid, so decoding it again changes nothing. */
  lemma {:induction false} LossyTwice(s: string)
    ensures Lossy(Lossy(s)) == Lossy(s)
    decreases |s|
  {
    if s != "" {
      var n := Taken(s);
      var head, rest := if Whole(s) then s[..n] else REPLACEMENT, Lossy(s[n..]);
      LossyTwice(s[n..]);
      assert |head| == Taken(head) == Announced(head[0]) by {
        HeadIsWhole(s);
      }
      TakenPrefix(head, rest);
      assert (head + rest)[..|head|] == head && (head + rest)[|head|..] == rest;
    }
  }

  lemma HeadIsWhole(s: string)
    requires s != ""
    ensures Taken(REPLACEMENT) == 3 == Announced(REPLACEMENT[0])
    ensures Whole(s) ==> Taken(s[..Taken(s)]) == Taken(s) == Announced(s[0])
  {
    var n := Taken(s);
    assert forall k :: 0 <= k < n ==> s[..n][k] == s[k];
  }

  lemma {:induction false} LossyBytes(s: string)
    requires Bytes(s)
    ensures Bytes(Lossy(s))
    decreases |s|
  {
    if s != "" {
      LossyBytes(s[Taken(s)..]);
    }
  }

  // ----- Percent coding -----

  predicate Unchanged(c: char) {
    'a' <= c <= 'z' || 'A' <= c <= 'Z' || '0' <= c <= '9' || c in {'*', '-', '.', '_'}
  }

  function HexDigit(n: int): char
    requires 0 <= n < 16
  {
    "0123456789ABCDEF"[n]
  }

  function HexValue(c: char): (n: int)
    ensures -1 <= n < 16
  {
    if '0' <= c <= '9' then c as int - '0' as int
    else if 'A' <= c <= 'F' then c as int - 'A' as int + 10
    else if 'a' <= c <= 'f' then c as int - 'a' as int + 10
    else -1
  }

  function EncodeByte(c: char): string
    requires IsByte(c)
  {
    if Unchanged(c) then [c]
    else if c == ' ' then "+"
    else ['%', HexDigit(c as int / 16), HexDigit(c as int % 16)]
  }

  /** `byte_serialize`. */
  function Encode(s: string): (r: string)
    requires Bytes(s)
    ensures forall k :: 0 <= k < |r| ==> Unchanged(r[k]) || r[k] in {'+', '%'}
  {
    if s == "" then "" else
      HexDigits(s[0]);
      EncodeByte(s[0]) + Encode(s[1..])
  }

  lemma HexDigits(c: char)
    requires IsByte(c)
    ensures
      var high, low := HexDigit(c as int / 16), HexDigit(c as int % 16);
      && HexValue(high) == c as int / 16 && HexValue(low) == c as int % 16
      && Unchanged(high) && Unchanged(low)
  {
    HexRoundTrip(c as int / 16);
    HexRoundTrip(c as int % 16);
  }

  lemma HexRoundTrip(n: int)
    requires 0 <= n < 16
    ensures HexValue(HexDigit(n)) == n && Unchanged(HexDigit(n))
  {
  }

  /** `+` to space and percent-decoding; a `%` without two hexadecimal digits stays. */
  function Unescape(s: string): string {
    if s == "" then ""
    else if s[0] == '+' then " " + Unescape(s[1..])
    else if s[0] == '%' && |s| >= 3 && HexValue(s[1]) >= 0 && HexValue(s[2]) >= 0 then
      [(HexValue(s[1]) * 16 + HexValue(s[2])) as char] + Unescape(s[3..])
    else [s[0]] + Unescape(s[1..])
  }

  function Decode(s: string): string {
    Lossy(Unescape(s))
  }

  lemma {:induction false} UnescapeEncode(s: string)
    requires Bytes(s)
    ensures Unescape(Encode(s)) == s
  {
    if s != "" {
      hide Unescape, EncodeByte;
      UnescapeEncode(s[1..]);
      UnescapeOne(s[0], Encode(s[1..]));
      assert s == [s[0]] + s[1..];
    }
  }

  lemma UnescapeOne(c: char, rest: string)
    requires IsByte(c)
    ensures Unescape(EncodeByte(c) + rest) == [c] + Unescape(rest)
  {
    hide HexDigit, HexValue;
    if Unchanged(c) {
      assert ([c] + rest)[1..] == rest;
    } else if c == ' ' {
      assert ("+" + rest)[1..] == rest;
    } else {
      HexDigits(c);
      var high, low := HexDigit(c as int / 16), HexDigit(c as int % 16);
      assert (['%', high, low] + rest)[3..] == rest;
    }
  }

  lemma {:induction false} UnescapeBytes(s: string)
    requires Bytes(s)
    ensures Bytes(Unescape(s))
    decreases |s|
  {
    if s != "" {
      UnescapeBytes(s[1..]);
      if |s| >= 3 {
        UnescapeBytes(s[3..]);
      }
    }
  }

  /** Decoding always yields text, and decoding an encoded text gives it back. */
  lemma DecodeIsUtf8(s: string)
    requires Bytes(s)
    ensures Utf8(Decode(s))
  {
    UnescapeBytes(s);
    LossyTwice(Unescape(s));
    LossyBytes(Unescape(s));
  }

  lemma DecodeEncode(s: string)
    requires Utf8(s)
    ensures Decode(Encode(s)) == s
  {
    UnescapeEncode(s);
  }

  // ----- Pairs -----

  datatype Pair = Pair(key: string, value: string)

  /** The text before the first `c`, and what follows it. */
  function Before(s: string, c: char): (r: string)
    ensures |r| <= |s| && r == s[..|r|] && c !in r
    ensures |r| < |s| ==> s[|r|] == c
  {
    if s == "" || s[0] == c then "" else [s[0]] + Before(s[1..], c)
  }

  function After(s: string, c: char): (r: string)
    ensures |r| <= |s| && (s != "" ==> |r| < |s|)
  {
    if |Before(s, c)| < |s| then s[|Before(s, c)| + 1..] else ""
  }

  /** `form_urlencoded::parse`: sequences between `&`, empty ones skipped, split at the first `=`. */
  function Parse(s: string): seq<Pair>
    decreases |s|
  {
    if s == "" then []
    else
      ParseSequence(Before(s, '&')) + Parse(After(s, '&'))
  }

  function ParseSequence(sequence: string): seq<Pair> {
    if sequence == "" then [] else [Pair(Decode(Before(sequence, '=')), Decode(After(sequence, '=')))]
  }

  /** `Serializer::append_pair`. */
  function AppendPair(out: string, p: Pair): string
    requires Bytes(p.key) && Bytes(p.value)
  {
    out + (if out == "" then "" else "&") + Encode(p.key) + "=" + Encode(p.value)
  }

  ghost predicate TextPairs(pairs: seq<Pair>) {
    forall k :: 0 <= k < |pairs| ==> Utf8(pairs[k].key) && Utf8(pairs[k].value)
  }

  function Serialize(pairs: seq<Pair>): string
    requires forall k :: 0 <= k < |pairs| ==> Bytes(pairs[k].key) && Bytes(pairs[k].value)
  {
    if pairs == [] then "" else AppendPair(Serialize(pairs[..|pairs| - 1]), pairs[|pairs| - 1])
  }

  lemma {:induction false} BeforeUnique(s: string, c: char, n: nat)
    requires n <= |s| && c !in s[..n] && (n < |s| ==> s[n] == c)
    ensures Before(s, c) == s[..n]
    ensures After(s, c) == if n < |s| then s[n + 1..] else ""
  {
  }

  /** Where the first `&` of a joined text lies. */
  lemma {:induction false} SplitJoined(a: string, b: string)
    ensures
      var s := a + "&" + b;
      if '&' in a then Before(s, '&') == Before(a, '&') && After(s, '&') == After(a, '&') + "&" + b
      else Before(s, '&') == a && After(s, '&') == b && Before(a, '&') == a && After(a, '&') == ""
  {
    var s, n := a + "&" + b, |Before(a, '&')|;
    if '&' in a {
      assert a[..|a|] == a;
      assert s[..n] == Before(a, '&') && s[n + 1..] == a[n + 1..] + "&" + b;
      BeforeUnique(s, '&', n);
    } else {
      assert s[..|a|] == a && s[|a| + 1..] == b && a[..|a|] == a;
      BeforeUnique(s, '&', |a|);
      BeforeUnique(a, '&', |a|);
    }
  }

  lemma {:induction false} ParseConcat(a: string, b: string)
    ensures Parse(a + "&" + b) == Parse(a) + Parse(b)
    decreases |a|
  {
    hide ParseSequence, Before, After;
    SplitJoined(a, b);
    if '&' in a {
      ParseConcat(After(a, '&'), b);
      var first, rest := ParseSequence(Before(a, '&')), Parse(After(a, '&'));
      assert (first + rest) + Parse(b) == first + (rest + Parse(b));
    } else if a == "" {
      EmptySequence();
      assert [] + Parse(b) == Parse(b);
    } else {
      assert ParseSequence(a) + Parse("") == ParseSequence(a);
    }
  }

  lemma EmptySequence()
    ensures ParseSequence("") == []
  {
  }

  /** One serialized pair parses back to itself. */
  lemma {:induction false} ParsePair(p: Pair)
    requires Utf8(p.key) && Utf8(p.value)
    ensures Parse(Encode(p.key) + "=" + Encode(p.value)) == [p]
  {
    hide Encode, Decode, Before, After, Unchanged, Lossy, Bytes;
    var key, value := Encode(p.key), Encode(p.value);
    var s := key + "=" + value;
    DecodeEncode(p.key);
    DecodeEncode(p.value);
    EncodeHasNoSeparator(p.key);
    EncodeHasNoSeparator(p.value);
    ParseSplit(s, key, value);
    assert [Pair(Decode(key), Decode(value))] + Parse("") == [p];
  }

  lemma {:induction false} EncodeHasNoSeparator(s: string)
    requires Bytes(s)
    ensures '&' !in Encode(s) && '=' !in Encode(s)
  {
    hide Encode;
  }

  lemma {:induction false} ParseSplit(s: string, key: string, value: string)
    requires s == key + "=" + value && '&' !in s && '=' !in key
    ensures Before(s, '&') == s && After(s, '&') == "" && Before(s, '=') == key && After(s, '=') == value
  {
    assert s[..|s|] == s && s[..|key|] == key && s[|key| + 1..] == value;
    BeforeUnique(s, '&', |s|);
    BeforeUnique(s, '=', |key|);
  }

  /** Serialize-then-parse returns the same pairs, for every list of text pairs. */
  lemma {:induction false} ParseSerialize(pairs: seq<Pair>)
    requires TextPairs(pairs)
    ensures Parse(Serialize(pairs)) == pairs
  {
    hide Encode, Parse, Lossy, Bytes, AppendPair;
    if pairs == [] {
      ParseEmpty();
    } else {
      var init, last := pairs[..|pairs| - 1], pairs[|pairs| - 1];
      ParseSerialize(init);
      ParseAppended(Serialize(init), last);
      assert pairs == init + [last];
    }
  }

  /** Appending a pair to a query appends it to what the query reads as. */
  lemma ParseAppended(out: string, p: Pair)
    requires Utf8(p.key) && Utf8(p.value)
    ensures Parse(AppendPair(out, p)) == Parse(out) + [p]
  {
    hide Encode, Parse, Lossy, Bytes;
    ParsePair(p);
    var coded := Encode(p.key) + "=" + Encode(p.value);
    if out == "" {
      ParseEmpty();
      assert AppendPair(out, p) == coded;
    } else {
      assert AppendPair(out, p) == out + "&" + coded;
      ParseConcat(out, coded);
    }
  }

  lemma ParseEmpty()
    ensures Parse("") == []
  {
  }

  lemma {:induction false} ParseYieldsText(s: string)
    requires Bytes(s)
    ensures TextPairs(Parse(s))
    decreases |s|
  {
    hide Decode, Utf8, Before, After;
    if s != "" {
      var sequence := Before(s, '&');
      PartsAreBytes(s, '&');
      PartsAreBytes(sequence, '=');
      ParseYieldsText(After(s, '&'));
      DecodeIsUtf8(Before(sequence, '='));
      DecodeIsUtf8(After(sequence, '='));
    }
  }

  lemma PartsAreBytes(s: string, c: char)
    requires Bytes(s)
    ensures Bytes(Before(s, c)) && Bytes(After(s, c))
  {
  }

  // ----- Which characters stand for themselves -----

  /** A text without plus signs, in which no percent sign has two hexadecimal digits after it, stands for itself. */
  lemma {:induction false} UnescapePlain(s: string)
    requires '+' !in s
    requires forall k :: 0 <= k < |s| && s[k] == '%' ==>
               k + 2 >= |s| || s[k + 1] !in "0123456789abcdefABCDEF" || s[k + 2] !in "0123456789abcdefABCDEF"
    ensures Unescape(s) == s
  {
    if s != "" {
      var t := s[1..];
      HexDigitsAre();
      hide HexValue;
      forall k | 0 <= k < |t| && t[k] == '%'
        ensures k + 2 >= |t| || t[k + 1] !in "0123456789abcdefABCDEF" || t[k + 2] !in "0123456789abcdefABCDEF"
      {
        assert s[k + 1] == '%';
      }
      UnescapePlain(t);
      assert s == [s[0]] + t;
    }
  }

  lemma HexDigitsAre()
    ensures forall c :: HexValue(c) >= 0 <==> c in "0123456789abcdefABCDEF"
  {
  }

  /** Encoding leaves ASCII letters and digits and four marks alone, and makes a space a plus sign; any other byte
      becomes a percent sign and its two upper-case hexadecimal digits. */
  lemma EncodeByteExactly(c: char)
    requires IsByte(c)
    ensures EncodeByte(c) ==
            if 'a' <= c <= 'z' || 'A' <= c <= 'Z' || '0' <= c <= '9' || c in "*-._" then [c]
            else if c == ' ' then "+"
            else ['%', "0123456789ABCDEF"[c as int / 16], "0123456789ABCDEF"[c as int % 16]]
  {
  }

  // ----- What a query means -----

  /** Digits count from 0 to 15 in either case. */
  lemma HexValuesAre(n: nat)
    requires n < 16
    ensures HexValue("0123456789abcdef"[n]) == n && HexValue("0123456789ABCDEF"[n]) == n
  {
  }

  /** A plus sign is a space, a percent sign with two digits a byte, and what follows is read on its own. */
  lemma UnescapeFirst(high: nat, low: nat, rest: string)
    requires high < 16 && low < 16
    ensures Unescape("+" + rest) == " " + Unescape(rest)
    ensures Unescape(['%', "0123456789abcdef"[high], "0123456789ABCDEF"[low]] + rest)
         == [(16 * high + low) as char] + Unescape(rest)
  {
    HexValuesAre(high);
    HexValuesAre(low);
    hide HexValue;
    assert ("+" + rest)[1..] == rest;
    var s := ['%', "0123456789abcdef"[high], "0123456789ABCDEF"[low]] + rest;
    assert s[3..] == rest && s[1] == "0123456789abcdef"[high] && s[2] == "0123456789ABCDEF"[low];
  }

  /** The texts with an `&` after each but the last. */
  function Amped(parts: seq<string>): string
    requires parts != []
  {
    if |parts| == 1 then parts[0] else parts[0] + "&" + Amped(parts[1..])
  }

  /** What one text between `&` stands for: nothing when it is empty, and otherwise what comes before its first `=`, or
      all of it, with what follows. */
  ghost predicate StandsFor(part: string, pairs: seq<Pair>) {
    if part == "" then pairs == []
    else if '=' !in part then pairs == [Pair(Decode(part), Decode(""))]
    else exists n: nat :: n < |part| && part[n] == '=' && '=' !in part[..n]
                          && pairs == [Pair(Decode(part[..n]), Decode(part[n + 1..]))]
  }

  lemma SequenceStandsFor(part: string)
    ensures StandsFor(part, ParseSequence(part))
  {
    hide Decode;
    if part != "" {
      var n := |Before(part, '=')|;
      if '=' !in part {
        BeforeUnique(part, '=', |part|);
        assert part[..|part|] == part;
      } else {
        assert part[..|part|] == part;
      }
    }
  }

  function Flattened(lists: seq<seq<Pair>>): seq<Pair> {
    if lists == [] then [] else lists[0] + Flattened(lists[1..])
  }

  /** A query is read text by text between its `&`. */
  lemma {:induction false} ParseExactly(parts: seq<string>) returns (lists: seq<seq<Pair>>)
    requires parts != [] && forall k :: 0 <= k < |parts| ==> '&' !in parts[k]
    ensures |lists| == |parts| && forall k :: 0 <= k < |parts| ==> StandsFor(parts[k], lists[k])
    ensures Parse(Amped(parts)) == Flattened(lists)
  {
    hide StandsFor, ParseSequence;
    SequenceStandsFor(parts[0]);
    var first := ParseSequence(parts[0]);
    if |parts| == 1 {
      lists := [first];
      LastSequence(parts[0]);
      assert Flattened(lists[1..]) == [];
    } else {
      var more := ParseExactly(parts[1..]);
      lists := [first] + more;
      FirstSequence(parts[0], Amped(parts[1..]));
      assert lists[1..] == more;
    }
  }

  lemma LastSequence(part: string)
    requires '&' !in part
    ensures Parse(part) == ParseSequence(part) + []
  {
    if part != "" {
      BeforeUnique(part, '&', |part|);
      assert part[..|part|] == part;
    }
  }

  lemma FirstSequence(part: string, rest: string)
    requires '&' !in part
    ensures Parse(part + "&" + rest) == ParseSequence(part) + Parse(rest)
  {
    var s := part + "&" + rest;
    assert s[..|part|] == part && s[|part|] == '&' && s[|part| + 1..] == rest;
    BeforeUnique(s, '&', |part|);
  }
}
