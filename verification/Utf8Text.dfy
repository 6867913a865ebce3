/** That the byte strings which lossy decoding leaves alone are exactly the UTF-8 encodings of Unicode scalar values
    (section 3 of RFC 3629). */
module Utf8Text {
  import opened FormUrlencoded

  predicate Scalar(n: int) {
    0 <= n < 0xD800 || 0xE000 <= n < 0x110000
  }

  /** One scalar value in as many bytes as it needs. */
  function Encoded(n: int): (s: string)
    requires Scalar(n)
    ensures 1 <= |s| <= 4
  {
    if n < 0x80 then [n as char]
    else if n < 0x800 then [(0xC0 + n / 64) as char, (0x80 + n % 64) as char]
    else if n < 0x10000 then [(0xE0 + n / 4096) as char, (0x80 + n / 64 % 64) as char, (0x80 + n % 64) as char]
    else [(0xF0 + n / 262144) as char, (0x80 + n / 4096 % 64) as char, (0x80 + n / 64 % 64) as char,
          (0x80 + n % 64) as char]
  }

  predicate Scalars(ns: seq<int>) {
    forall k :: 0 <= k < |ns| ==> Scalar(ns[k])
  }

  function EncodedAll(ns: seq<int>): string
    requires Scalars(ns)
  {
    if ns == [] then "" else Encoded(ns[0]) + EncodedAll(ns[1..])
  }

  lemma SixBits(n: int)
    ensures n == 64 * (n / 64) + n % 64 && n / 64 == 64 * (n / 4096) + n / 64 % 64
    ensures n / 4096 == 64 * (n / 262144) + n / 4096 % 64
  {
    assert n / 64 / 64 == n / 4096 && n / 4096 / 64 == n / 262144;
  }

  lemma EncodedIsWhole(n: int, more: string)
    requires Scalar(n)
    ensures var s := Encoded(n) + more;
            && Taken(s) == |Encoded(n)| == Announced(s[0]) && s[..|Encoded(n)|] == Encoded(n)
            && s[|Encoded(n)|..] == more && Bytes(Encoded(n))
  {
    SixBits(n);
    var s := Encoded(n) + more;
    assert forall k :: 0 <= k < |Encoded(n)| ==> s[k] == Encoded(n)[k];
  }

  lemma {:induction false} EncodedIsText(ns: seq<int>)
    requires Scalars(ns)
    ensures Utf8(EncodedAll(ns))
  {
    if ns != [] {
      EncodedIsText(ns[1..]);
      var head, rest := Encoded(ns[0]), EncodedAll(ns[1..]);
      EncodedIsWhole(ns[0], rest);
      hide Encoded, Taken, Announced;
      assert Lossy(head + rest) == head + Lossy(rest);
    }
  }

  lemma ThreeParts(a: int, b: int, c: int)
    requires 0 <= b < 64 && 0 <= c < 64
    ensures var n := 4096 * a + 64 * b + c; n / 4096 == a && n / 64 == 64 * a + b && n / 64 % 64 == b && n % 64 == c
  {
    var n := 4096 * a + 64 * b + c;
    assert n == 64 * (64 * a + b) + c && n / 64 == 64 * a + b;
    assert n / 64 / 64 == n / 4096;
  }

  lemma FourParts(a: int, b: int, c: int, d: int)
    requires 0 <= b < 64 && 0 <= c < 64 && 0 <= d < 64
    ensures var n := 262144 * a + 4096 * b + 64 * c + d;
            n / 262144 == a && n / 4096 % 64 == b && n / 64 % 64 == c && n % 64 == d
  {
    var n := 262144 * a + 4096 * b + 64 * c + d;
    var m := 4096 * a + 64 * b + c;
    assert n == 64 * m + d && n / 64 == m;
    ThreeParts(a, b, c);
    assert n / 64 / 64 == n / 4096 && n / 64 / 4096 == n / 262144;
  }

  /** The scalar value of a whole sequence. */
  lemma WholeIsEncoded(s: string) returns (n: int)
    requires s != "" && Bytes(s) && Whole(s)
    ensures Scalar(n) && Encoded(n) == s[..Taken(s)]
  {
    if Taken(s) == 1 {
      n := s[0] as int;
      assert Encoded(n) == s[..1];
    } else if Taken(s) == 2 {
      n := 64 * (s[0] as int - 0xC0) + (s[1] as int - 0x80);
      assert Encoded(n) == s[..2];
    } else if Taken(s) == 3 {
      n := ThreeBytes(s);
    } else {
      n := FourBytes(s);
    }
  }

  lemma ThreeBytes(s: string) returns (n: int)
    requires s != "" && Whole(s) && Taken(s) == 3
    ensures Scalar(n) && Encoded(n) == s[..3]
  {
    var a, b, c := s[0] as int - 0xE0, s[1] as int - 0x80, s[2] as int - 0x80;
    assert 0 <= a < 16 && 0 <= b < 64 && 0 <= c < 64 && (a == 0 ==> b >= 32) && (a == 13 ==> b < 32);
    hide Taken, Announced, SecondByte;
    n := 4096 * a + 64 * b + c;
    ThreeParts(a, b, c);
    assert Encoded(n) == [s[0], s[1], s[2]];
  }

  lemma FourBytes(s: string) returns (n: int)
    requires s != "" && Whole(s) && Taken(s) == 4
    ensures Scalar(n) && Encoded(n) == s[..4]
  {
    var a, b := s[0] as int - 0xF0, s[1] as int - 0x80;
    var c, d := s[2] as int - 0x80, s[3] as int - 0x80;
    assert 0 <= a < 5 && 0 <= b < 64 && 0 <= c < 64 && 0 <= d < 64 && (a == 0 ==> b >= 16) && (a == 4 ==> b < 16);
    hide Taken, Announced, SecondByte;
    n := 262144 * a + 4096 * b + 64 * c + d;
    FourParts(a, b, c, d);
    assert Encoded(n) == [s[0], s[1], s[2], s[3]];
  }

  /** A text that lossy decoding leaves alone begins with a whole sequence. */
  lemma TextIsWhole(s: string)
    requires s != "" && Lossy(s) == s
    ensures Whole(s) && Lossy(s[Taken(s)..]) == s[Taken(s)..]
  {
    var n := Taken(s);
    assert s[..n] + Lossy(s[n..]) == s;
  }

  lemma {:induction false} TextIsEncoded(s: string) returns (ns: seq<int>)
    requires Utf8(s)
    ensures Scalars(ns) && s == EncodedAll(ns)
    decreases |s|
  {
    if s == "" {
      ns := [];
    } else {
      TextIsWhole(s);
      var n := WholeIsEncoded(s);
      hide Taken, Lossy, Encoded;
      var rest := TextIsEncoded(s[Taken(s)..]);
      ns := [n] + rest;
      assert ns[1..] == rest && s == s[..Taken(s)] + s[Taken(s)..];
    }
  }

  /** The texts are the encodings. */
  lemma Utf8Exactly(s: string)
    ensures Utf8(s) <==> exists ns :: Scalars(ns) && s == EncodedAll(ns)
  {
    hide Utf8, EncodedAll;
    if Utf8(s) {
      var ns := TextIsEncoded(s);
    }
    if ns :| Scalars(ns) && s == EncodedAll(ns) {
      EncodedIsText(ns);
    }
  }

  /** What replaces an ill-formed stretch is U+FFFD. */
  lemma ReplacementIs()
    ensures REPLACEMENT == Encoded(0xFFFD)
  {
  }
}
