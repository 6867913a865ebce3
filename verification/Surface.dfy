/** The table-driven operator surface: one table routes requests and admits their upstream paths. */
module Surface {
  import opened FormUrlencoded
  import opened Wrappers

  datatype Entry = Entry(method_: string, path: string, query: seq<string>, platformOnly: bool)

  const UPSTREAM_PREFIX := "/v1/control-plane/"
  const MAX_VALUE_BYTES: nat := 256
  const MAX_SLUG_BYTES: nat := 128

  // ----- Segments -----

  /** `str::split`. */
  function Split(s: string, c: char): (parts: seq<string>)
    ensures |parts| > 0
    decreases |s|
  {
    if c in s then [Before(s, c)] + Split(After(s, c), c) else [s]
  }

  function Join(parts: seq<string>, c: char): string
    requires |parts| > 0
  {
    if |parts| == 1 then parts[0] else parts[0] + [c] + Join(parts[1..], c)
  }

  predicate SlugByte(c: char) {
    'a' <= c <= 'z' || '0' <= c <= '9' || c == '_' || c == '-'
  }

  predicate SlugSegment(s: string) {
    0 < |s| <= MAX_SLUG_BYTES && forall k :: 0 <= k < |s| ==> SlugByte(s[k])
  }

  predicate Hyphenated(s: string) {
    |s| == 36 && forall k :: 0 <= k < 36 ==> if k in {8, 13, 18, 23} then s[k] == '-' else HexValue(s[k]) >= 0
  }

  /** What `Uuid::parse_str` accepts: 32 digits, or the hyphenated form bare, braced or as a URN. */
  predicate IsUuid(s: string) {
    || (|s| == 32 && forall k :: 0 <= k < 32 ==> HexValue(s[k]) >= 0)
    || Hyphenated(s)
    || (|s| == 38 && s[0] == '{' && s[37] == '}' && Hyphenated(s[1..37]))
    || (|s| == 45 && s[..9] == "urn:uuid:" && Hyphenated(s[9..]))
  }

  /** The name between braces, when the pattern is a parameter. */
  function ParamName(pattern: string): Option<string> {
    if |pattern| >= 2 && pattern[0] == '{' && pattern[|pattern| - 1] == '}' then Some(pattern[1..|pattern| - 1])
    else None
  }

  predicate EndsWithId(name: string) {
    |name| >= 3 && name[|name| - 3..] == "_id"
  }

  predicate SegmentFits(pattern: string, segment: string) {
    match ParamName(pattern)
    case Some(name) => if EndsWithId(name) then IsUuid(segment) else SlugSegment(segment)
    case None => pattern == segment
  }

  predicate AllFit(patterns: seq<string>, segments: seq<string>) {
    |patterns| == |segments| && forall k :: 0 <= k < |patterns| ==> SegmentFits(patterns[k], segments[k])
  }

  predicate FitsTemplate(template: string, path: string) {
    AllFit(Split(template, '/'), Split(path, '/'))
  }

  /** The loop over both iterators. */
  method Fits(template: string, path: string) returns (ok: bool)
    ensures ok == FitsTemplate(template, path)
  {
    hide Split, SegmentFits;
    var want, have := Split(template, '/'), Split(path, '/');
    var i := 0;
    while i < |want| && i < |have|
      invariant 0 <= i <= |want| && i <= |have|
      invariant forall k :: 0 <= k < i ==> SegmentFits(want[k], have[k])
    {
      if !SegmentFits(want[i], have[i]) {
        return false;
      }
      i := i + 1;
    }
    return i == |want| && i == |have|;
  }

  // ----- Routing -----

  function Find(table: seq<Entry>, method_: string, path: string): Option<Entry> {
    if table == [] then None
    else if table[0].method_ == method_ && FitsTemplate(table[0].path, path) then Some(table[0])
    else Find(table[1..], method_, path)
  }

  datatype QueryError = NotAccepted(key: string) | TooLong(key: string)

  datatype QueryResult = Query(text: string) | Refused(error: QueryError)

  predicate Accepted(entry: Entry, p: Pair) {
    p.key in entry.query && |p.value| <= MAX_VALUE_BYTES
  }

  /** `upstream_query`: every pair checked in turn, then re-encoded. */
  method UpstreamQuery(entry: Entry, raw: Option<string>) returns (r: QueryResult)
    requires raw.Some? ==> Bytes(raw.value)
    ensures r == QueryOf(entry, raw)
  {
    if raw.None? || raw.value == "" {
      return Query("");
    }
    ParseYieldsText(raw.value);
    r := Reencode(entry, Parse(raw.value));
  }

  method Reencode(entry: Entry, pairs: seq<Pair>) returns (r: QueryResult)
    requires forall k :: 0 <= k < |pairs| ==> Bytes(pairs[k].key) && Bytes(pairs[k].value)
    ensures r == match FirstError(entry, pairs) { case Some(e) => Refused(e) case None => Query(Serialize(pairs)) }
  {
    hide AppendPair, Bytes;
    var out := "";
    for i := 0 to |pairs|
      invariant forall k :: 0 <= k < i ==> Accepted(entry, pairs[k])
      invariant out == Serialize(pairs[..i])
    {
      var p := pairs[i];
      assert pairs[..i + 1][..i] == pairs[..i];
      if p.key !in entry.query {
        FirstRefused(entry, pairs, i);
        return Refused(NotAccepted(p.key));
      }
      if |p.value| > MAX_VALUE_BYTES {
        FirstRefused(entry, pairs, i);
        return Refused(TooLong(p.key));
      }
      out := AppendPair(out, p);
    }
    assert pairs[..|pairs|] == pairs;
    NoneRefused(entry, pairs);
    return Query(out);
  }

  /** The error of the first pair that is refused. */
  function FirstError(entry: Entry, pairs: seq<Pair>): Option<QueryError> {
    if pairs == [] then None
    else if pairs[0].key !in entry.query then Some(NotAccepted(pairs[0].key))
    else if |pairs[0].value| > MAX_VALUE_BYTES then Some(TooLong(pairs[0].key))
    else FirstError(entry, pairs[1..])
  }

  function QueryOf(entry: Entry, raw: Option<string>): QueryResult
    requires raw.Some? ==> Bytes(raw.value)
  {
    if raw.None? then Query("")
    else
      var pairs := Parse(raw.value);
      ParseYieldsText(raw.value);
      match FirstError(entry, pairs)
      case Some(e) => Refused(e)
      case None => Query(Serialize(pairs))
  }

  lemma {:induction false} FirstRefused(entry: Entry, pairs: seq<Pair>, i: nat)
    requires i < |pairs| && !Accepted(entry, pairs[i]) && forall k :: 0 <= k < i ==> Accepted(entry, pairs[k])
    ensures FirstError(entry, pairs)
            == Some(if pairs[i].key !in entry.query then NotAccepted(pairs[i].key) else TooLong(pairs[i].key))
  {
    if i > 0 {
      assert Accepted(entry, pairs[0]);
      FirstRefused(entry, pairs[1..], i - 1);
    }
  }

  lemma {:induction false} NoneRefused(entry: Entry, pairs: seq<Pair>)
    ensures FirstError(entry, pairs).None? <==> forall k :: 0 <= k < |pairs| ==> Accepted(entry, pairs[k])
  {
    if pairs != [] {
      NoneRefused(entry, pairs[1..]);
      assert forall k :: 1 <= k < |pairs| ==> pairs[k] == pairs[1..][k - 1];
    }
  }

  datatype Proxied = NotFound | Forbidden | BadQuery(error: QueryError) | Upstream(path: string)

  /** The path building of `proxy`. */
  function Proxy(table: seq<Entry>, method_: string, path: string, raw: Option<string>, platformLevel: bool): Proxied
    requires raw.Some? ==> Bytes(raw.value)
  {
    match Find(table, method_, path)
    case None => NotFound
    case Some(entry) =>
      if entry.platformOnly && !platformLevel then Forbidden
      else
        match QueryOf(entry, raw)
        case Refused(e) => BadQuery(e)
        case Query(query) =>
          Upstream(if query == "" then UPSTREAM_PREFIX + path else UPSTREAM_PREFIX + path + "?" + query)
  }

  /** `allows`: the allowlist hook, reading the same table. */
  predicate Allows(table: seq<Entry>, method_: string, full: string) {
    var path, query := Before(full, '?'), After(full, '?');
    UPSTREAM_PREFIX <= path &&
    match Find(table, method_, path[|UPSTREAM_PREFIX|..])
    case None => false
    case Some(entry) => query == "" || forall k :: 0 <= k < |Parse(query)| ==> Parse(query)[k].key in entry.query
  }

  // ----- Splitting and joining -----

  lemma {:induction false} SplitJoin(parts: seq<string>, c: char)
    requires |parts| > 0 && forall k :: 0 <= k < |parts| ==> c !in parts[k]
    ensures Split(Join(parts, c), c) == parts
  {
    if |parts| > 1 {
      hide Before, After;
      SplitJoin(parts[1..], c);
      FirstPart(parts[0], c, Join(parts[1..], c));
      assert [parts[0]] + parts[1..] == parts;
    }
  }

  lemma {:induction false} FirstPart(head: string, c: char, rest: string)
    requires c !in head
    ensures
      var s := head + [c] + rest;
      c in s && Before(s, c) == head && After(s, c) == rest
  {
    var s := head + [c] + rest;
    assert s[..|head|] == head && s[|head|] == c && s[|head| + 1..] == rest;
    BeforeUnique(s, c, |head|);
  }

  predicate Nowhere(parts: seq<string>, x: char) {
    forall k :: 0 <= k < |parts| ==> x !in parts[k]
  }

  lemma NowhereCons(head: string, rest: seq<string>, x: char)
    ensures Nowhere([head] + rest, x) <==> x !in head && Nowhere(rest, x)
  {
    var parts := [head] + rest;
    assert parts[0] == head && forall k :: 0 <= k < |rest| ==> parts[k + 1] == rest[k];
  }

  lemma {:induction false} JoinSplit(s: string, c: char)
    ensures Join(Split(s, c), c) == s
    ensures Nowhere(Split(s, c), c)
    decreases |s|
  {
    if c in s {
      var head, tail := Before(s, c), After(s, c);
      assert s[..|s|] == s;
      assert s == head + [c] + tail;
      hide Before, After, Nowhere;
      JoinSplit(tail, c);
      NowhereCons(head, Split(tail, c), c);
      assert ([head] + Split(tail, c))[1..] == Split(tail, c);
    } else {
      assert Split(s, c) == [s];
    }
  }

  /** A character other than the separator is absent from a text exactly when it is absent from its parts. */
  lemma {:induction false} SplitAbsent(s: string, c: char, x: char)
    requires x != c
    ensures x !in s <==> Nowhere(Split(s, c), x)
    decreases |s|
  {
    if c in s {
      var head, tail := Before(s, c), After(s, c);
      assert s[..|s|] == s;
      assert s == head + [c] + tail;
      hide Before, After, Nowhere;
      SplitAbsent(tail, c, x);
      NowhereCons(head, Split(tail, c), x);
    } else {
      assert Split(s, c)[0] == s;
    }
  }

  // ----- The router and the allowlist agree -----

  lemma {:induction false} FittingSegmentAbsent(pattern: string, segment: string)
    requires SegmentFits(pattern, segment) && '?' !in pattern
    ensures '?' !in segment
  {
    if IsUuid(segment) {
      UuidAbsent(segment);
    }
  }

  lemma UuidAbsent(s: string)
    requires IsUuid(s)
    ensures '?' !in s && '/' !in s
  {
    if |s| == 38 && s[0] == '{' && s[37] == '}' && Hyphenated(s[1..37]) {
      HyphenatedAbsent(s[1..37]);
      assert s == "{" + s[1..37] + "}";
    } else if |s| == 45 && s[..9] == "urn:uuid:" && Hyphenated(s[9..]) {
      HyphenatedAbsent(s[9..]);
      assert s == "urn:uuid:" + s[9..];
    } else if |s| == 36 {
      HyphenatedAbsent(s);
    }
  }

  lemma HyphenatedAbsent(s: string)
    requires Hyphenated(s)
    ensures '?' !in s && '/' !in s
  {
    forall k | 0 <= k < |s|
      ensures s[k] != '?' && s[k] != '/'
    {
      assert k in {8, 13, 18, 23} || HexValue(s[k]) >= 0;
    }
  }

  /** A path that fits a template without `?` contains none, so its query starts where it ends. */
  lemma {:induction false} FittingPathAbsent(template: string, path: string)
    requires FitsTemplate(template, path) && '?' !in template
    ensures '?' !in path
  {
    hide Split, SegmentFits;
    var want, have := Split(template, '/'), Split(path, '/');
    SplitAbsent(template, '/', '?');
    SplitAbsent(path, '/', '?');
    forall k | 0 <= k < |have|
      ensures '?' !in have[k]
    {
      assert '?' !in want[k];
      FittingSegmentAbsent(want[k], have[k]);
    }
  }

  ghost predicate PlainTable(table: seq<Entry>) {
    forall k :: 0 <= k < |table| ==> '?' !in table[k].path
  }

  lemma {:induction false} FoundFits(table: seq<Entry>, method_: string, path: string)
    requires Find(table, method_, path).Some?
    ensures
      var entry := Find(table, method_, path).value;
      entry in table && entry.method_ == method_ && FitsTemplate(entry.path, path)
  {
    hide FitsTemplate;
    if !(table[0].method_ == method_ && FitsTemplate(table[0].path, path)) {
      FoundFits(table[1..], method_, path);
    }
  }

  lemma PrefixIsPlain()
    ensures '?' !in UPSTREAM_PREFIX
  {
  }

  lemma UpstreamSplits(path: string, query: string)
    requires '?' !in path
    ensures
      var full := UPSTREAM_PREFIX + path + "?" + query;
      && Before(full, '?') == UPSTREAM_PREFIX + path && After(full, '?') == query
      && Before(UPSTREAM_PREFIX + path, '?') == UPSTREAM_PREFIX + path && After(UPSTREAM_PREFIX + path, '?') == ""
  {
    hide Before, After;
    var p := UPSTREAM_PREFIX + path;
    PrefixIsPlain();
    FirstPart(p, '?', query);
    assert p[..|p|] == p;
    BeforeUnique(p, '?', |p|);
  }

  /** Every upstream path the router builds is admitted by the allowlist: they cannot disagree. */
  lemma {:induction false} RoutedIsAllowed(table: seq<Entry>, method_: string, path: string, raw: Option<string>,
                                           platformLevel: bool)
    requires PlainTable(table) && (raw.Some? ==> Bytes(raw.value))
    requires Proxy(table, method_, path, raw, platformLevel).Upstream?
    ensures Allows(table, method_, Proxy(table, method_, path, raw, platformLevel).path)
  {
    hide Find, FitsTemplate, Bytes, Parse, Before, After, QueryOf;
    FoundFits(table, method_, path);
    var entry := Find(table, method_, path).value;
    FittingPathAbsent(entry.path, path);
    var query := QueryOf(entry, raw).text;
    UpstreamSplits(path, query);
    assert (UPSTREAM_PREFIX + path)[|UPSTREAM_PREFIX|..] == path;
    QueryKeysAccepted(entry, raw);
  }

  lemma {:induction false} QueryKeysAccepted(entry: Entry, raw: Option<string>)
    requires (raw.Some? ==> Bytes(raw.value)) && QueryOf(entry, raw).Query?
    ensures forall k :: 0 <= k < |Parse(QueryOf(entry, raw).text)| ==>
              Parse(QueryOf(entry, raw).text)[k].key in entry.query
  {
    if raw.Some? {
      ParseYieldsText(raw.value);
      hide Parse, Utf8;
      ParseSerialize(Parse(raw.value));
      NoneRefused(entry, Parse(raw.value));
    }
  }

  /** And the router refuses an admitted path only for an over-long value: for platform-level callers
      the allowlist admits exactly what the router serves, plus values over 256 bytes. */
  lemma {:induction false} AllowedIsRouted(table: seq<Entry>, method_: string, full: string)
    requires Bytes(full)
    ensures
      var path, query := Before(full, '?'), After(full, '?');
      Bytes(query) && (Allows(table, method_, full) <==>
        && UPSTREAM_PREFIX <= path
        && match Proxy(table, method_, path[|UPSTREAM_PREFIX|..], Some(query), true)
           case Upstream(_) => true
           case BadQuery(TooLong(_)) => QueryKeysFit(table, method_, path[|UPSTREAM_PREFIX|..], query)
           case _ => false)
  {
    PartsAreBytes(full, '?');
    var path, query := Before(full, '?'), After(full, '?');
    hide Find, Bytes, Before, After;
    if UPSTREAM_PREFIX <= path && Find(table, method_, path[|UPSTREAM_PREFIX|..]).Some? {
      KeysOrError(Find(table, method_, path[|UPSTREAM_PREFIX|..]).value, Parse(query));
      ParseEmpty();
    }
  }

  /** Every key of the query is one the matching entry names. */
  predicate QueryKeysFit(table: seq<Entry>, method_: string, path: string, query: string) {
    var found := Find(table, method_, path);
    found.Some? && forall k :: 0 <= k < |Parse(query)| ==> Parse(query)[k].key in found.value.query
  }

  lemma {:induction false} KeysOrError(entry: Entry, pairs: seq<Pair>)
    ensures
      var fit := forall k :: 0 <= k < |pairs| ==> pairs[k].key in entry.query;
      match FirstError(entry, pairs)
      case None => fit
      case Some(NotAccepted(_)) => !fit
      case Some(TooLong(_)) => true
  {
    if pairs != [] {
      KeysOrError(entry, pairs[1..]);
      assert forall k :: 1 <= k < |pairs| ==> pairs[k] == pairs[1..][k - 1];
    }
  }

  // ----- What a parameter takes -----

  predicate Digits32(d: string) {
    |d| == 32 && forall k :: 0 <= k < 32 ==> d[k] in "0123456789abcdefABCDEF"
  }

  /** Hyphens after the 8th, 12th, 16th and 20th digit. */
  function Dashed(d: string): (s: string)
    requires |d| == 32
    ensures |s| == 36
  {
    d[..8] + "-" + d[8..12] + "-" + d[12..16] + "-" + d[16..20] + "-" + d[20..]
  }

  /** An id parameter takes 32 hexadecimal digits, in either case: bare, hyphenated, hyphenated in braces, or hyphenated
      as a URN. */
  lemma UuidExactly(s: string)
    ensures IsUuid(s) <==>
            exists d :: Digits32(d) && s in [d, Dashed(d), "{" + Dashed(d) + "}", "urn:uuid:" + Dashed(d)]
  {
    hide Hyphenated, Dashed;
    HexDigitsAre();
    if |s| == 32 && forall k :: 0 <= k < 32 ==> HexValue(s[k]) >= 0 {
      assert Digits32(s);
    } else if Hyphenated(s) {
      var d := Undashed(s);
    } else if |s| == 38 && s[0] == '{' && s[37] == '}' && Hyphenated(s[1..37]) {
      var d := Undashed(s[1..37]);
      assert s == "{" + Dashed(d) + "}";
    } else if |s| == 45 && s[..9] == "urn:uuid:" && Hyphenated(s[9..]) {
      var d := Undashed(s[9..]);
      assert s == "urn:uuid:" + Dashed(d);
    }
    if d :| Digits32(d) && s in [d, Dashed(d), "{" + Dashed(d) + "}", "urn:uuid:" + Dashed(d)] {
      DashedIsHyphenated(d);
      assert ("{" + Dashed(d) + "}")[1..37] == Dashed(d);
      assert ("urn:uuid:" + Dashed(d))[..9] == "urn:uuid:" && ("urn:uuid:" + Dashed(d))[9..] == Dashed(d);
    }
  }

  lemma DashedIsHyphenated(d: string)
    requires Digits32(d)
    ensures Hyphenated(Dashed(d))
  {
    HexDigitsAre();
    hide HexValue;
    var s := Dashed(d);
    forall k | 0 <= k < 36
      ensures if k in {8, 13, 18, 23} then s[k] == '-' else HexValue(s[k]) >= 0
    {
      DashedAt(d, k);
    }
  }

  lemma DashedAt(d: string, k: nat)
    requires |d| == 32 && k < 36
    ensures Dashed(d)[k] == if k in {8, 13, 18, 23} then '-'
                            else d[k - if k < 8 then 0 else if k < 13 then 1 else if k < 18 then 2
                                       else if k < 23 then 3 else 4]
  {
  }

  lemma Undashed(s: string) returns (d: string)
    requires Hyphenated(s)
    ensures Digits32(d) && Dashed(d) == s
  {
    HexDigitsAre();
    hide HexValue;
    d := s[..8] + s[9..13] + s[14..18] + s[19..23] + s[24..];
    forall k | 0 <= k < 32
      ensures d[k] in "0123456789abcdefABCDEF"
    {
      var j := if k < 8 then k else if k < 12 then k + 1 else if k < 16 then k + 2 else if k < 20 then k + 3 else k + 4;
      assert d[k] == s[j];
    }
    forall k | 0 <= k < 36
      ensures Dashed(d)[k] == s[k]
    {
      DashedAt(d, k);
    }
  }

  /** Any other parameter takes 1 to 128 lower-case letters, digits, underscores and hyphens; a segment that is no
      parameter takes itself. */
  lemma SegmentExactly(name: string, pattern: string, segment: string)
    ensures SegmentFits("{" + name + "}", segment) <==>
            if |name| >= 3 && name[|name| - 3..] == "_id" then IsUuid(segment)
            else 1 <= |segment| <= 128
                 && forall k :: 0 <= k < |segment| ==> segment[k] in "abcdefghijklmnopqrstuvwxyz0123456789_-"
    ensures pattern == "" || pattern[0] != '{' ==> (SegmentFits(pattern, segment) <==> pattern == segment)
  {
    hide IsUuid;
    SlugBytesAre();
    hide SlugByte;
    var braced := "{" + name + "}";
    assert braced[1..|braced| - 1] == name;
  }

  lemma SlugBytesAre()
    ensures forall c :: SlugByte(c) <==> c in "abcdefghijklmnopqrstuvwxyz0123456789_-"
  {
  }

  // ----- Every answer -----

  predicate Serves(entry: Entry, method_: string, path: string) {
    entry.method_ == method_ && FitsTemplate(entry.path, path)
  }

  /** The first row that serves a request. */
  ghost predicate FirstServing(table: seq<Entry>, method_: string, path: string, k: int) {
    && 0 <= k < |table| && Serves(table[k], method_, path)
    && forall j :: 0 <= j < k ==> !Serves(table[j], method_, path)
  }

  lemma {:induction false} FindIsFirst(table: seq<Entry>, method_: string, path: string)
    ensures Find(table, method_, path).None? <==> forall k :: 0 <= k < |table| ==> !Serves(table[k], method_, path)
    ensures forall k :: FirstServing(table, method_, path, k) ==> Find(table, method_, path) == Some(table[k])
  {
    hide FitsTemplate;
    if table != [] && !Serves(table[0], method_, path) {
      var rest := table[1..];
      FindIsFirst(rest, method_, path);
      assert forall k :: 0 < k < |table| ==> table[k] == rest[k - 1];
      forall k | FirstServing(table, method_, path, k)
        ensures Find(table, method_, path) == Some(table[k])
      {
        assert FirstServing(rest, method_, path, k - 1);
      }
    }
  }

  /** The pairs of a request. */
  function Asked(raw: Option<string>): seq<Pair> {
    if raw.None? then [] else Parse(raw.value)
  }

  /** What is wrong with a pair that a row does not take. */
  function Refusal(entry: Entry, p: Pair): Option<QueryError> {
    if p.key !in entry.query then Some(NotAccepted(p.key))
    else if |p.value| > 256 then Some(TooLong(p.key))
    else None
  }

  ghost predicate FirstRefusal(entry: Entry, pairs: seq<Pair>, j: int) {
    && 0 <= j < |pairs| && Refusal(entry, pairs[j]).Some?
    && forall i :: 0 <= i < j ==> Refusal(entry, pairs[i]).None?
  }

  lemma {:induction false} FirstErrorIs(entry: Entry, pairs: seq<Pair>)
    ensures FirstError(entry, pairs).None? <==> forall j :: 0 <= j < |pairs| ==> Refusal(entry, pairs[j]).None?
    ensures forall j :: FirstRefusal(entry, pairs, j) ==> FirstError(entry, pairs) == Refusal(entry, pairs[j])
  {
    if pairs != [] && Refusal(entry, pairs[0]).None? {
      var rest := pairs[1..];
      FirstErrorIs(entry, rest);
      assert forall j :: 0 < j < |pairs| ==> pairs[j] == rest[j - 1];
      forall j | FirstRefusal(entry, pairs, j)
        ensures FirstError(entry, pairs) == Refusal(entry, pairs[j])
      {
        assert FirstRefusal(entry, rest, j - 1);
      }
    }
  }

  lemma SerializedNonempty(pairs: seq<Pair>)
    requires forall k :: 0 <= k < |pairs| ==> Bytes(pairs[k].key) && Bytes(pairs[k].value)
    ensures Serialize(pairs) == "" <==> pairs == []
  {
    hide Encode;
  }

  /** The four answers of the proxy, by the first row that serves the request, the caller and the pairs asked for. What
      is sent upstream is the prefix and the path, and after the first `?`, if there is one, a query that reads as the
      pairs asked for. */
  lemma ProxyExactly(table: seq<Entry>, method_: string, path: string, raw: Option<string>, platformLevel: bool, k: int)
    requires PlainTable(table) && (raw.Some? ==> Bytes(raw.value))
    ensures Proxy(table, method_, path, raw, platformLevel).NotFound?
            <==> forall j :: 0 <= j < |table| ==> !Serves(table[j], method_, path)
    ensures FirstServing(table, method_, path, k) ==>
              var answer, pairs := Proxy(table, method_, path, raw, platformLevel), Asked(raw);
              var forbidden := table[k].platformOnly && !platformLevel;
              && (answer == Forbidden <==> forbidden)
              && (forall j :: FirstRefusal(table[k], pairs, j) && !forbidden ==>
                    answer == BadQuery(Refusal(table[k], pairs[j]).value))
              && (answer.Upstream? <==>
                  !forbidden && forall j :: 0 <= j < |pairs| ==> Refusal(table[k], pairs[j]).None?)
              && (answer.Upstream? ==>
                    && Before(answer.path, '?') == "/v1/control-plane/" + path
                    && ('?' in answer.path <==> pairs != []) && Parse(After(answer.path, '?')) == pairs)
  {
    hide Find, Serves, Bytes, Parse, Before, After, FirstError, Serialize;
    FindIsFirst(table, method_, path);
    if FirstServing(table, method_, path, k) {
      FirstErrorIs(table[k], Asked(raw));
      if Proxy(table, method_, path, raw, platformLevel).Upstream? {
        UpstreamReads(table, k, method_, path, raw, platformLevel);
      }
    }
  }

  lemma UpstreamReads(table: seq<Entry>, k: nat, method_: string, path: string, raw: Option<string>,
                      platformLevel: bool)
    requires PlainTable(table) && (raw.Some? ==> Bytes(raw.value)) && k < |table| && Serves(table[k], method_, path)
    requires Find(table, method_, path) == Some(table[k])
    requires Proxy(table, method_, path, raw, platformLevel).Upstream?
    ensures var full, pairs := Proxy(table, method_, path, raw, platformLevel).path, Asked(raw);
            && Before(full, '?') == "/v1/control-plane/" + path
            && ('?' in full <==> pairs != []) && Parse(After(full, '?')) == pairs
  {
    var entry, pairs := table[k], Asked(raw);
    ParseEmpty();
    if raw.Some? {
      ParseYieldsText(raw.value);
    } else {
      assert Serialize(pairs) == "";
    }
    hide Find, FitsTemplate, Bytes, Parse, Before, After, FirstError;
    FittingPathAbsent(entry.path, path);
    PairsReadBack(raw);
    var query := QueryOf(entry, raw).text;
    UpstreamSplits(path, query);
    var bare := UPSTREAM_PREFIX + path;
    assert '?' !in bare by {
      PrefixIsPlain();
    }
    assert query != "" ==> (bare + "?" + query)[|bare|] == '?';
  }

  lemma PairsReadBack(raw: Option<string>)
    requires raw.Some? ==> Bytes(raw.value)
    ensures var pairs := Asked(raw);
            && (forall k :: 0 <= k < |pairs| ==> Bytes(pairs[k].key) && Bytes(pairs[k].value))
            && (Serialize(pairs) == "" <==> pairs == []) && Parse(Serialize(pairs)) == pairs
  {
    if raw.Some? {
      ParseYieldsText(raw.value);
      hide Parse, Utf8;
      ParseSerialize(Parse(raw.value));
      SerializedNonempty(Parse(raw.value));
    } else {
      ParseEmpty();
    }
  }

  // ----- When the order of the table matters -----

  predicate SegmentsOverlap(a: string, b: string) {
    if ParamName(a).None? then SegmentFits(b, a)
    else if ParamName(b).None? then SegmentFits(a, b)
    else true
  }

  predicate PatternsOverlap(a: seq<string>, b: seq<string>) {
    |a| == |b| && forall k :: 0 <= k < |a| ==> SegmentsOverlap(a[k], b[k])
  }

  /** A lowercase UUID, which every parameter accepts, whether it wants a UUID or a slug. */
  const SAMPLE := "0190a0b0-0000-7000-8000-000000000001"

  lemma SampleFits(pattern: string)
    requires ParamName(pattern).Some?
    ensures SegmentFits(pattern, SAMPLE) && '/' !in SAMPLE
  {
    assert Hyphenated(SAMPLE);
    assert SlugSegment(SAMPLE);
  }

  /** A segment fitting both patterns, when there is one. */
  function CommonSegment(a: string, b: string): string {
    if ParamName(a).None? then a else if ParamName(b).None? then b else SAMPLE
  }

  lemma CommonSegmentFits(a: string, b: string)
    ensures SegmentsOverlap(a, b) ==> SegmentFits(a, CommonSegment(a, b)) && SegmentFits(b, CommonSegment(a, b))
    ensures '/' !in a && '/' !in b ==> '/' !in CommonSegment(a, b)
    ensures forall s :: SegmentFits(a, s) && SegmentFits(b, s) ==> SegmentsOverlap(a, b)
  {
    if ParamName(a).Some? && ParamName(b).Some? {
      SampleFits(a);
      SampleFits(b);
    }
  }

  /** Two templates share a path exactly when they have as many segments and overlap in each. */
  lemma {:induction false} OverlapExactly(a: string, b: string)
    ensures (exists path :: FitsTemplate(a, path) && FitsTemplate(b, path))
            <==> PatternsOverlap(Split(a, '/'), Split(b, '/'))
  {
    hide Split, SegmentFits, SegmentsOverlap, CommonSegment;
    var p, q := Split(a, '/'), Split(b, '/');
    JoinSplit(a, '/');
    JoinSplit(b, '/');
    if path :| FitsTemplate(a, path) && FitsTemplate(b, path) {
      forall k | 0 <= k < |p|
        ensures SegmentsOverlap(p[k], q[k])
      {
        CommonSegmentFits(p[k], q[k]);
        assert SegmentFits(p[k], Split(path, '/')[k]) && SegmentFits(q[k], Split(path, '/')[k]);
      }
    }
    if PatternsOverlap(p, q) {
      var common := seq(|p|, k requires 0 <= k < |p| && |p| == |q| => CommonSegment(p[k], q[k]));
      forall k | 0 <= k < |p|
        ensures SegmentFits(p[k], common[k]) && SegmentFits(q[k], common[k]) && '/' !in common[k]
      {
        CommonSegmentFits(p[k], q[k]);
      }
      SplitJoin(common, '/');
      assert FitsTemplate(a, Join(common, '/')) && FitsTemplate(b, Join(common, '/'));
    }
  }

  ghost predicate NoOverlap(table: seq<Entry>) {
    forall i, j :: 0 <= i < j < |table| && table[i].method_ == table[j].method_ ==>
      !PatternsOverlap(Split(table[i].path, '/'), Split(table[j].path, '/'))
  }

  /** Without overlaps, `find` returns the one entry that fits, wherever it stands in the table. */
  lemma {:induction false} OrderNeverMatters(table: seq<Entry>, k: nat, path: string)
    requires NoOverlap(table) && k < |table| && FitsTemplate(table[k].path, path)
    ensures Find(table, table[k].method_, path) == Some(table[k])
  {
    hide Split, PatternsOverlap, FitsTemplate;
    if k > 0 {
      if table[0].method_ == table[k].method_ && FitsTemplate(table[0].path, path) {
        OverlapExactly(table[0].path, table[k].path);
      }
      OrderNeverMatters(table[1..], k - 1, path);
    }
  }
}
