/** The rendered `tenant.env`: what `safe_plan` accepts, the ordered map built from a plan, and reading the file
    back. */
module RuntimeEnv {
  import opened PythonText
  import opened Wrappers
  import DatabaseName

  // ----- Plans as JSON -----

  /** How Python prints a float. */
  type FloatText = s: string | forall k :: 0 <= k < |s| ==> s[k] in "0123456789+-.eInfityNa" witness "0.0"

  /** JSON values; objects keep their order, as Python dictionaries do. */
  datatype Value =
    | Null
    | Bool(b: bool)
    | Int(n: int)
    | Float(repr: FloatText)
    | Str(s: string)
    | Arr(items: seq<Value>)
    | Obj(fields: seq<Field>)

  datatype Field = Field(key: string, value: Value)

  /** `dict.get`; an absent key and a null are both `Null`. */
  function Get(v: Value, key: string): Value {
    if v.Obj? then GetField(v.fields, key) else Null
  }

  function GetField(fields: seq<Field>, key: string): Value {
    if fields == [] then Null
    else if fields[0].key == key then fields[0].value
    else GetField(fields[1..], key)
  }

  predicate Has(fields: seq<Field>, key: string) {
    fields != [] && (fields[0].key == key || Has(fields[1..], key))
  }

  function KeySet(fields: seq<Field>): set<string> {
    set k | 0 <= k < |fields| :: fields[k].key
  }

  // ----- `json.dumps` with compact separators -----

  predicate Printable(s: string) {
    forall k :: 0 <= k < |s| ==> ' ' <= s[k] <= '~'
  }

  function Hex(n: nat): (c: char)
    requires n < 16
    ensures ' ' <= c <= '~'
  {
    if n < 10 then '0' + n as char else 'a' + (n - 10) as char
  }

  function Unicode(n: nat): (r: string)
    requires n < 0x10000
    ensures Printable(r)
  {
    ['\\', 'u', Hex(n / 4096), Hex(n / 256 % 16), Hex(n / 16 % 16), Hex(n % 16)]
  }

  /** The surrogate pair of a character beyond the first plane. */
  function Surrogates(n: nat): (r: string)
    requires 0x10000 <= n < 0x110000
    ensures Printable(r)
  {
    Unicode(0xd800 + (n - 0x10000) / 1024) + Unicode(0xdc00 + (n - 0x10000) % 1024)
  }

  /** Every character outside the printable ASCII range is escaped, beyond the first plane as a surrogate pair. */
  function EscapeChar(c: char): (r: string)
    ensures Printable(r)
  {
    if c == '"' then "\\\"" else if c == '\\' then "\\\\"
    else if c == '\n' then "\\n" else if c == '\r' then "\\r" else if c == '\t' then "\\t"
    else if c == '\U{c}' then "\\f" else if c == '\U{8}' then "\\b"
    else if ' ' <= c <= '~' then [c]
    else if c as int < 0x10000 then Unicode(c as int)
    else Surrogates(c as int)
  }

  function Escape(s: string): (r: string)
    ensures Printable(r)
  {
    if s == "" then "" else EscapeChar(s[0]) + Escape(s[1..])
  }

  function Decimal(n: nat): (r: string)
    ensures Printable(r)
  {
    if n < 10 then [Hex(n)] else Decimal(n / 10) + [Hex(n % 10)]
  }

  function Signed(n: int): (r: string)
    ensures Printable(r)
  {
    if n < 0 then "-" + Decimal(-n) else Decimal(n)
  }

  function Raw(repr: FloatText): (r: string)
    ensures Printable(r)
  {
    repr
  }

  function Enclose(left: char, s: string, right: char): (r: string)
    requires Printable(s) && ' ' <= left <= '~' && ' ' <= right <= '~'
    ensures Printable(r)
  {
    [left] + s + [right]
  }

  function Comma(a: string, b: string): (r: string)
    requires Printable(a) && Printable(b)
    ensures Printable(r)
  {
    a + "," + b
  }

  function Member(key: string, value: string): (r: string)
    requires Printable(value)
    ensures Printable(r)
  {
    Enclose('"', Escape(key), '"') + ":" + value
  }

  function Dumps(v: Value): (r: string)
    ensures Printable(r)
    decreases v
  {
    match v
    case Null => "null"
    case Bool(b) => if b then "true" else "false"
    case Int(n) => Signed(n)
    case Float(repr) => Raw(repr)
    case Str(s) => Enclose('"', Escape(s), '"')
    case Arr(items) => Enclose('[', DumpsItems(v, |items|), ']')
    case Obj(fields) => Enclose('{', DumpsFields(v, |fields|), '}')
  }

  function DumpsItems(v: Value, n: nat): (r: string)
    requires v.Arr? && n <= |v.items|
    ensures Printable(r)
    decreases v, n
  {
    if n == 0 then "" else if n == 1 then Dumps(v.items[0])
    else Comma(DumpsItems(v, n - 1), Dumps(v.items[n - 1]))
  }

  function DumpsFields(v: Value, n: nat): (r: string)
    requires v.Obj? && n <= |v.fields|
    ensures Printable(r)
    decreases v, n
  {
    if n == 0 then ""
    else
      var member := Member(v.fields[n - 1].key, Dumps(v.fields[n - 1].value));
      if n == 1 then member else Comma(DumpsFields(v, n - 1), member)
  }

  // ----- `safe_plan` -----

  predicate Alnum(c: char) {
    'a' <= c <= 'z' || 'A' <= c <= 'Z' || '0' <= c <= '9'
  }

  predicate All(s: string, ok: char -> bool) {
    forall k :: 0 <= k < |s| ==> ok(s[k])
  }

  /** No carriage return, line feed or NUL. */
  predicate NoControl(s: string) {
    '\r' !in s && '\n' !in s && '\0' !in s
  }

  /** `COUNTRY` with two letters, `CURRENCY` with three. */
  predicate Capitals(s: string, n: nat) {
    |s| == n && All(s, c => 'A' <= c <= 'Z')
  }

  predicate IsHexColor(s: string) {
    |s| == 7 && s[0] == '#' && All(s[1..], c => '0' <= c <= '9' || 'a' <= c <= 'f' || 'A' <= c <= 'F')
  }

  predicate IsShaTag(s: string) {
    |s| == 44 && s[..4] == "sha-" && All(s[4..], c => '0' <= c <= '9' || 'a' <= c <= 'f')
  }

  predicate IsDockerName(s: string) {
    1 <= |s| <= 128 && Alnum(s[0]) && All(s, c => Alnum(c) || c in "_.-")
  }

  /** `LOCALE`: two or more hyphen-separated parts of 2 to 8 letters or digits. */
  predicate IsLocale(s: string)
  {
    var n := Find(s, '-');
    2 <= n <= 8 && n < |s| && All(s[..n], Alnum) && IsLocaleTail(s[n + 1..])
  }

  predicate IsLocaleTail(s: string)
    decreases |s|
  {
    var n := Find(s, '-');
    2 <= n <= 8 && All(s[..n], Alnum) && (n < |s| ==> IsLocaleTail(s[n + 1..]))
  }

  /** `TIMEZONE`: a part without slashes, a slash, and a part that may hold more of them. */
  predicate IsTimezone(s: string) {
    var n := Find(s, '/');
    0 < n < |s| - 1 && All(s[..n], c => Alnum(c) || c in "_+-") && All(s[n + 1..], c => Alnum(c) || c in "_+/-")
  }

  /** `safe_image_ref`, with the tag fixed to the desired version. */
  predicate IsImageRef(v: Value, tag: string) {
    && v.Str? && |v.s| > |tag| + 1 && v.s[|v.s| - |tag|..] == tag && v.s[|v.s| - |tag| - 1] == ':'
    && var repository := v.s[..|v.s| - |tag| - 1];
       All(repository, c => Alnum(c) || c in "./_-") && SegmentsOk(repository) && repository[0] != '.'
  }

  predicate SegmentsOk(s: string)
    decreases |s|
  {
    var n := Find(s, '/');
    s[..n] !in ["", ".", ".."] && (n < |s| ==> SegmentsOk(s[n + 1..]))
  }

  /** `safe_https_origin`: no blanks or control characters, and the URL parser sees a bare origin. */
  predicate IsOrigin(v: Value, bare: string -> bool) {
    v.Str? && All(v.s, c => !IsSpace(c) && c >= ' ') && bare(v.s)
  }

  const PALETTE_KEYS: set<string> :=
    {"primary", "primaryContrast", "accent", "surface", "surfaceElevated", "text", "textMuted",
     "success", "warning", "danger"}

  predicate PaletteOk(v: Value) {
    v.Null? || (v.Obj? && KeySet(v.fields) == PALETTE_KEYS
                && forall k :: 0 <= k < |v.fields| ==> v.fields[k].value.Str? && IsHexColor(v.fields[k].value.s))
  }

  predicate MemberOk(m: Value) {
    && m.Obj?
    && var key, name, email, skills := Get(m, "key"), Get(m, "name"), Get(m, "email"), Get(m, "skills");
       && (key.Null? || (key.Str? && 2 <= |key.s| <= 48
                         && All(key.s, c => 'a' <= c <= 'z' || '0' <= c <= '9' || c in "_-")))
       && name.Str? && 1 <= |name.s| <= 80 && NoControl(name.s)
       && email.Str? && '@' in email.s && NoControl(email.s) && ' ' !in email.s
       && skills.Arr? && skills.items != [] && forall k :: 0 <= k < |skills.items| ==> skills.items[k].Str?
  }

  /** The roster loop, with the e-mail addresses seen so far. */
  predicate MembersOk(members: seq<Value>, seen: set<string>) {
    members == []
    || (MemberOk(members[0])
        && var email := Lower(Strip(Get(members[0], "email").s));
           email !in seen && MembersOk(members[1..], seen + {email}))
  }

  predicate ProviderKeysOk(v: Value) {
    v.Null? || (v.Obj? && forall k :: 0 <= k < |v.fields| ==> v.fields[k].value.Str? && NoControl(v.fields[k].value.s))
  }

  const PROFILE_KEYS: set<string> :=
    {"countryCode", "region", "locale", "timezone", "currency", "dateFormat", "numberFormat", "dataRegion"}

  predicate ProfileOk(profile: Value, country: Value) {
    && profile.Obj? && KeySet(profile.fields) == PROFILE_KEYS
    && Get(profile, "countryCode") == country
    && Get(profile, "region") in [Str("eu"), Str("us")] && Get(profile, "dataRegion") in [Str("eu"), Str("us")]
    && Get(profile, "locale").Str? && IsLocale(Get(profile, "locale").s)
    && Get(profile, "timezone").Str? && IsTimezone(Get(profile, "timezone").s)
    && Get(profile, "currency").Str? && Capitals(Get(profile, "currency").s, 3)
    && Get(profile, "dateFormat") in [Str("dmy"), Str("mdy"), Str("ymd")]
    && Get(profile, "numberFormat") in [Str("comma_decimal"), Str("dot_decimal")]
  }

  predicate PlacementOk(plan: Value, slug: string, tenantId: string) {
    var placement, shared := Get(plan, "placement"), Get(plan, "sharedPg");
    || (placement == Str("dedicated") && plan.Obj? && !Has(plan.fields, "sharedPg"))
    || (placement == Str("shared_pg") && shared.Obj?
        && Get(shared, "host").Str? && IsDockerName(Get(shared, "host").s)
        && Get(shared, "network").Str? && IsDockerName(Get(shared, "network").s)
        && Get(shared, "database") == Str(DatabaseName.PlacementDatabaseName(slug, tenantId)))
  }

  /** A JSON number that Python finds equal to the integer. */
  predicate Equals(v: Value, n: int) {
    v == Int(n) || (n == 3 && v == Float("3.0")) || (n == 4 && v == Float("4.0")) || (n == 5 && v == Float("5.0"))
  }

  /** Everything `safe_plan` demands of the tenant's identity and images. */
  predicate IdentityOk(plan: Value, tenantId: Value) {
    var slug, name, desired := Get(plan, "tenantSlug"), Get(plan, "displayName"), Get(plan, "desiredVersion");
    && tenantId.Str? && DatabaseName.IsTenantId(tenantId.s)
    && slug.Str? && DatabaseName.IsSlug(slug.s)
    && Get(plan, "composeProject") == Str("crowdrelay-" + slug.s) && Get(plan, "workspaceSlug") == slug
    && name.Str? && 2 <= |name.s| <= 120 && NoControl(name.s)
    && Get(plan, "defaultCountryCode").Str? && Capitals(Get(plan, "defaultCountryCode").s, 2)
    && desired.Str? && IsShaTag(desired.s)
    && IsImageRef(Get(plan, "apiImage"), desired.s) && IsImageRef(Get(plan, "workerImage"), desired.s)
  }

  predicate OriginsOk(plan: Value, bare: string -> bool) {
    && IsOrigin(Get(plan, "crowdRelayBaseUrl"), bare)
    && (Get(plan, "publicSiteBaseUrl").Null? || IsOrigin(Get(plan, "publicSiteBaseUrl"), bare))
    && var origins := Get(plan, "allowedOrigins");
       origins.Arr? && forall k :: 0 <= k < |origins.items| ==> IsOrigin(origins.items[k], bare)
  }

  predicate ExtrasOk(plan: Value) {
    && PaletteOk(Get(plan, "brandingPalette")) && ProviderKeysOk(Get(plan, "providerKeys"))
    && var members := Get(plan, "teamMembers");
       members.Null? || (members.Arr? && |members.items| <= 32 && MembersOk(members.items, {}))
  }

  /** `plan.get("tenantId") or job.get("tenantId")`. */
  function TenantId(plan: Value, jobTenantId: Value): Value {
    var own := Get(plan, "tenantId");
    if own in [Null, Bool(false), Int(0), Float("0.0"), Float("-0.0"), Str(""), Arr([]), Obj([])] then jobTenantId
    else own
  }

  /** `safe_plan` accepts the plan of a job. */
  predicate Accepts(plan: Value, jobTenantId: Value, bare: string -> bool) {
    var tenantId, schema := TenantId(plan, jobTenantId), Get(plan, "schema");
    && plan.Obj? && Get(plan, "mode") == Str("local_docker_compose")
    && (Equals(schema, 3) || Equals(schema, 4) || Equals(schema, 5))
    && IdentityOk(plan, tenantId) && OriginsOk(plan, bare) && ExtrasOk(plan)
    && (!Equals(schema, 3) ==> ProfileOk(Get(plan, "regionalProfile"), Get(plan, "defaultCountryCode")))
    && (Equals(schema, 5) ==> PlacementOk(plan, Get(plan, "tenantSlug").s, tenantId.s))
  }

  // ----- Ordered dictionaries and env files -----

  datatype Entry = Entry(key: string, value: string)

  type Dict = seq<Entry>

  predicate HasKey(d: Dict, key: string) {
    d != [] && (d[0].key == key || HasKey(d[1..], key))
  }

  predicate UniqueKeys(d: Dict) {
    d == [] || (!HasKey(d[1..], d[0].key) && UniqueKeys(d[1..]))
  }

  /** Assignment keeps the place of an existing key and appends a new one. */
  function Put(d: Dict, key: string, value: string): Dict {
    if d == [] then [Entry(key, value)]
    else if d[0].key == key then [Entry(key, value)] + d[1..]
    else [d[0]] + Put(d[1..], key, value)
  }

  /** `values.update`. */
  function PutAll(d: Dict, entries: Dict): Dict
    decreases |entries|
  {
    if entries == [] then d else PutAll(Put(d, entries[0].key, entries[0].value), entries[1..])
  }

  function Line(e: Entry): string {
    e.key + "=" + e.value + "\n"
  }

  function Render(d: Dict): string {
    if d == [] then "" else Line(d[0]) + Render(d[1..])
  }

  /** A line of an env file, split at its first `=`. */
  function ParseLine(line: string): Entry {
    var n := Find(line, '=');
    if n == |line| then Entry(line, "") else Entry(line[..n], line[n + 1..])
  }

  /** The file split at its newlines, each line at its first `=`. */
  function ParseEnv(text: string): Dict
    decreases |text|
  {
    if text == "" then []
    else
      var n := Find(text, '\n');
      [ParseLine(text[..n])] + (if n == |text| then [] else ParseEnv(text[n + 1..]))
  }

  predicate KeyOk(key: string) {
    '=' !in key && '\n' !in key
  }

  predicate KeysOk(d: Dict) {
    forall k :: 0 <= k < |d| ==> KeyOk(d[k].key)
  }

  predicate OneLine(d: Dict) {
    forall k :: 0 <= k < |d| ==> '\n' !in d[k].value
  }

  lemma FindFirst(a: string, c: char, b: string)
    requires c !in a
    ensures Find(a + [c] + b, c) == |a|
  {
    var s := a + [c] + b;
    assert s[|a|] == c && s[..|a|] == a;
  }

  lemma ParseLineBack(e: Entry)
    requires KeyOk(e.key)
    ensures ParseLine(e.key + "=" + e.value) == e
  {
    FindFirst(e.key, '=', e.value);
    var line := e.key + "=" + e.value;
    assert line[..|e.key|] == e.key && line[|e.key| + 1..] == e.value;
  }

  lemma ParseFirst(line: string, rest: string)
    requires '\n' !in line
    ensures ParseEnv(line + "\n" + rest) == [ParseLine(line)] + ParseEnv(rest)
  {
    FindFirst(line, '\n', rest);
    var text := line + "\n" + rest;
    assert text[..|line|] == line && text[|line| + 1..] == rest;
  }

  /** A line break inside the line only adds lines. */
  lemma {:induction false} ParseCount(line: string, rest: string)
    ensures |ParseEnv(line + "\n" + rest)| >= 1 + |ParseEnv(rest)|
    ensures '\n' in line ==> |ParseEnv(line + "\n" + rest)| >= 2 + |ParseEnv(rest)|
    decreases |line|
  {
    if '\n' !in line {
      ParseFirst(line, rest);
    } else {
      var n := Find(line, '\n');
      assert line + "\n" + rest == line[..n] + "\n" + (line[n + 1..] + "\n" + rest);
      ParseFirst(line[..n], line[n + 1..] + "\n" + rest);
      ParseCount(line[n + 1..], rest);
    }
  }

  lemma {:induction false} RenderCount(d: Dict)
    ensures |ParseEnv(Render(d))| >= |d|
    ensures !OneLine(d) ==> |ParseEnv(Render(d))| > |d|
  {
    if d != [] {
      RenderCount(d[1..]);
      ParseCount(d[0].key + "=" + d[0].value, Render(d[1..]));
      assert '\n' in d[0].value ==> '\n' in d[0].key + "=" + d[0].value;
    }
  }

  lemma {:induction false} ReadsBack(d: Dict)
    requires KeysOk(d) && OneLine(d)
    ensures ParseEnv(Render(d)) == d
  {
    hide ParseEnv, ParseLine, Find;
    if d == [] {
      ParseNothing();
    } else {
      var line := d[0].key + "=" + d[0].value;
      ReadsBack(d[1..]);
      ParseLineBack(d[0]);
      ParseFirst(line, Render(d[1..]));
      assert d == [d[0]] + d[1..];
    }
  }

  lemma ParseNothing()
    ensures ParseEnv("") == []
  {
  }

  /** The file reads back as the dictionary, one line per key, exactly when no value holds a line break. */
  lemma ReadsBackExactly(d: Dict)
    requires KeysOk(d)
    ensures ParseEnv(Render(d)) == d <==> OneLine(d)
  {
    hide ParseEnv, Render, KeysOk, OneLine;
    if OneLine(d) {
      ReadsBack(d);
    } else {
      RenderCount(d);
    }
  }

  lemma {:induction false} PutKeeps(d: Dict, key: string, value: string)
    requires KeyOk(key)
    ensures KeysOk(d) ==> KeysOk(Put(d, key, value))
    ensures OneLine(d) && '\n' !in value ==> OneLine(Put(d, key, value))
    ensures forall other :: HasKey(Put(d, key, value), other) <==> HasKey(d, other) || other == key
    ensures UniqueKeys(d) ==> UniqueKeys(Put(d, key, value))
  {
    if d != [] {
      PutKeeps(d[1..], key, value);
    }
  }

  lemma {:induction false} PutAllKeeps(d: Dict, entries: Dict)
    requires KeysOk(entries)
    ensures KeysOk(d) ==> KeysOk(PutAll(d, entries))
    ensures OneLine(d) && OneLine(entries) ==> OneLine(PutAll(d, entries))
    ensures UniqueKeys(d) ==> UniqueKeys(PutAll(d, entries))
    decreases |entries|
  {
    if entries != [] {
      PutKeeps(d, entries[0].key, entries[0].value);
      PutAllKeeps(Put(d, entries[0].key, entries[0].value), entries[1..]);
    }
  }

  // ----- `create_runtime_env` -----

  type Key = s: string | KeyOk(s) witness "K"

  /** An entry the code spells out. */
  type Literal = e: Entry | KeyOk(e.key) && '\n' !in e.value witness Entry("K", "")

  const PREFIX: Key := "CROWDRELAY_"

  /** A CrowdRelay setting. Its name is put together from short pieces because the solver unfolds a literal character by
      character wherever the subset type `Key` is checked. */
  function Name(a: Key, b: Key): (r: Key)
    ensures r == PREFIX + a + b
  {
    PREFIX + a + b
  }

  const INVALID: Key := "@example.invalid"
  const RUN_DIRECTORY: Key := "/run/crowdrelay/"

  const ENV: Literal := Entry(Name("ENV", ""), "production")
  const BIND_ADDR: Literal := Entry(Name("BIND_", "ADDR"), "0.0.0.0:8080")
  const DATABASE_MAX_CONNECTIONS: Literal := Entry(Name("DATABASE_MAX_", "CONNECTIONS"), "8")
  const DATABASE_CONNECT_TIMEOUT_MS: Literal := Entry(Name("DATABASE_CONNECT_", "TIMEOUT_MS"), "5000")
  const DATABASE_PING_TIMEOUT_MS: Literal := Entry(Name("DATABASE_PING_", "TIMEOUT_MS"), "2000")
  const DATABASE_OPERATION_TIMEOUT_MS: Literal := Entry(Name("DATABASE_OPERATION_", "TIMEOUT_MS"), "60000")
  const DATABASE_LOCK_TIMEOUT_MS: Literal := Entry(Name("DATABASE_LOCK_", "TIMEOUT_MS"), "1000")
  const REDIRECT_REFRESH_INTERVAL_MS: Literal := Entry(Name("REDIRECT_REFRESH_", "INTERVAL_MS"), "15000")
  const CLICK_CHANNEL_CAPACITY: Literal := Entry(Name("CLICK_CHANNEL_", "CAPACITY"), "2048")
  const CLICK_BATCH_SIZE: Literal := Entry(Name("CLICK_", "BATCH_SIZE"), "100")
  const CLICK_FLUSH_INTERVAL_MS: Literal := Entry(Name("CLICK_FLUSH_", "INTERVAL_MS"), "500")
  const EVENT_REMINDER_OFFSETS_MINUTES: Literal := Entry(Name("EVENT_REMINDER_", "OFFSETS_MINUTES"), "1440,120")
  const EVENT_REMINDER_POLL_INTERVAL_MS: Literal := Entry(Name("EVENT_REMINDER_", "POLL_INTERVAL_MS"), "60000")
  const AUTOPILOT_ENABLED: Literal := Entry(Name("AUTOPILOT_", "ENABLED"), "false")
  const AUTOPILOT_POLL_INTERVAL_MS: Literal := Entry(Name("AUTOPILOT_POLL_", "INTERVAL_MS"), "60000")
  const ADMIN_MEMBER_EMAIL: Literal := Entry(Name("ADMIN_MEMBER_", "EMAIL"), "admin" + INVALID)
  const STAFF_MEMBER_EMAIL: Literal := Entry(Name("STAFF_MEMBER_", "EMAIL"), "staff" + INVALID)
  const QR_TTL_SECONDS: Literal := Entry(Name("QR_TTL_", "SECONDS"), "30")
  const REQUIRE_DOUBLE_OPT_IN: Literal := Entry(Name("REQUIRE_", "DOUBLE_OPT_IN"), "true")
  const RANDOM_DRAWS_ENABLED: Literal := Entry(Name("RANDOM_DRAWS_", "ENABLED"), "false")
  const BOOTSTRAP_FILE: Literal := Entry(Name("BOOTSTRAP_", "FILE"), RUN_DIRECTORY + "bootstrap.json")
  const RUST_LOG: Literal := Entry("RUST_LOG", "info,crowdrelay=info")

  const ALLOWED_ORIGINS: Key := Name("ALLOWED_", "ORIGINS")
  const WORKSPACE_SLUG: Key := Name("WORKSPACE_", "SLUG")
  const TENANT_DISPLAY_NAME: Key := Name("TENANT_", "DISPLAY_NAME")
  const PUBLIC_SITE_BASE_URL: Key := Name("PUBLIC_SITE_", "BASE_URL")
  const PUBLIC_ORIGIN: Key := Name("PUBLIC_", "ORIGIN")
  const DEFAULT_COUNTRY_CODE: Key := Name("DEFAULT_", "COUNTRY_CODE")
  const TENANT_REGION: Key := Name("TENANT_", "REGION")
  const TENANT_LOCALE: Key := Name("TENANT_", "LOCALE")
  const TENANT_TIMEZONE: Key := Name("TENANT_", "TIMEZONE")
  const TENANT_CURRENCY: Key := Name("TENANT_", "CURRENCY")
  const TENANT_DATE_FORMAT: Key := Name("TENANT_DATE_", "FORMAT")
  const TENANT_NUMBER_FORMAT: Key := Name("TENANT_NUMBER_", "FORMAT")
  const TENANT_DATA_REGION: Key := Name("TENANT_DATA_", "REGION")
  const TENANT_COLOR_BACKGROUND: Key := Name("TENANT_COLOR_", "BACKGROUND")
  const TENANT_COLOR_SURFACE: Key := Name("TENANT_COLOR_", "SURFACE")
  const TENANT_COLOR_MUTED: Key := Name("TENANT_", "COLOR_MUTED")
  const TENANT_COLOR_ACCENT: Key := Name("TENANT_COLOR_", "ACCENT")
  const TENANT_COLOR_TEXT: Key := Name("TENANT_", "COLOR_TEXT")
  const TENANT_COLOR_DANGER: Key := Name("TENANT_COLOR_", "DANGER")
  const TENANT_COLOR_SUCCESS: Key := Name("TENANT_COLOR_", "SUCCESS")
  const BANDSINTOWN_API_KEY: Key := Name("BANDSINTOWN_", "API_KEY")
  const YOUTUBE_API_KEY: Key := Name("YOUTUBE_", "API_KEY")
  const SPOTIFY_CLIENT_ID: Key := Name("SPOTIFY_", "CLIENT_ID")
  const SPOTIFY_CLIENT_SECRET: Key := Name("SPOTIFY_", "CLIENT_SECRET")
  const FACEBOOK_PAGE_ACCESS_TOKEN: Key := Name("FACEBOOK_PAGE_", "ACCESS_TOKEN")
  const TIKTOK_CLIENT_KEY: Key := Name("TIKTOK_", "CLIENT_KEY")
  const TIKTOK_CLIENT_SECRET: Key := Name("TIKTOK_CLIENT_", "SECRET")
  const LASTFM_API_KEY: Key := Name("LASTFM_", "API_KEY")
  const TEAM_MEMBERS_JSON: Key := Name("TEAM_MEMBERS_", "JSON")

  /** How a plan value prints inside an f-string; only a string is sure to print as itself. */
  function Show(v: Value, repr: Value -> string): string {
    if v.Str? then v.s else repr(v)
  }

  /** `",".join`, of the strings that `safe_plan` has checked. */
  function Join(items: seq<Value>): string {
    if items == [] || !items[0].Str? then ""
    else if |items| == 1 then items[0].s
    else items[0].s + "," + Join(items[1..])
  }

  function OrElse(v: Value, other: string): string {
    if v.Str? && v.s != "" then v.s else other
  }

  function Server(): seq<Literal> {
    [ENV, BIND_ADDR, DATABASE_MAX_CONNECTIONS, DATABASE_CONNECT_TIMEOUT_MS, DATABASE_PING_TIMEOUT_MS,
     DATABASE_OPERATION_TIMEOUT_MS, DATABASE_LOCK_TIMEOUT_MS]
  }

  function Tuning(): seq<Literal> {
    [REDIRECT_REFRESH_INTERVAL_MS, CLICK_CHANNEL_CAPACITY, CLICK_BATCH_SIZE, CLICK_FLUSH_INTERVAL_MS,
     EVENT_REMINDER_OFFSETS_MINUTES, EVENT_REMINDER_POLL_INTERVAL_MS, AUTOPILOT_ENABLED, AUTOPILOT_POLL_INTERVAL_MS,
     ADMIN_MEMBER_EMAIL, STAFF_MEMBER_EMAIL, QR_TTL_SECONDS, REQUIRE_DOUBLE_OPT_IN, RANDOM_DRAWS_ENABLED,
     BOOTSTRAP_FILE, RUST_LOG]
  }

  function Identity(plan: Value, repr: Value -> string): Dict {
    var origins, site := Get(plan, "allowedOrigins"), Get(plan, "publicSiteBaseUrl");
    [Entry(ALLOWED_ORIGINS, if origins.Arr? then Join(origins.items) else ""),
     Entry(WORKSPACE_SLUG, Show(Get(plan, "workspaceSlug"), repr)),
     Entry(TENANT_DISPLAY_NAME, Show(Get(plan, "displayName"), repr)),
     Entry(PUBLIC_SITE_BASE_URL, OrElse(site, "")),
     Entry(PUBLIC_ORIGIN, OrElse(site, Show(Get(plan, "crowdRelayBaseUrl"), repr))),
     Entry(DEFAULT_COUNTRY_CODE, Show(Get(plan, "defaultCountryCode"), repr))]
  }

  function Profile(profile: Value, repr: Value -> string): Dict {
    if !profile.Obj? then [] else
    [Entry(TENANT_REGION, Show(Get(profile, "region"), repr)),
     Entry(TENANT_LOCALE, Show(Get(profile, "locale"), repr)),
     Entry(TENANT_TIMEZONE, Show(Get(profile, "timezone"), repr)),
     Entry(TENANT_CURRENCY, Show(Get(profile, "currency"), repr)),
     Entry(TENANT_DATE_FORMAT, Show(Get(profile, "dateFormat"), repr)),
     Entry(TENANT_NUMBER_FORMAT, Show(Get(profile, "numberFormat"), repr)),
     Entry(TENANT_DATA_REGION, Show(Get(profile, "dataRegion"), repr))]
  }

  function Palette(palette: Value, repr: Value -> string): Dict {
    if !palette.Obj? then [] else
    [Entry(TENANT_COLOR_BACKGROUND, Show(Get(palette, "surface"), repr)),
     Entry(TENANT_COLOR_SURFACE, Show(Get(palette, "surfaceElevated"), repr)),
     Entry(TENANT_COLOR_MUTED, Show(Get(palette, "textMuted"), repr)),
     Entry(TENANT_COLOR_ACCENT, Show(Get(palette, "primary"), repr)),
     Entry(TENANT_COLOR_TEXT, Show(Get(palette, "text"), repr)),
     Entry(TENANT_COLOR_DANGER, Show(Get(palette, "danger"), repr)),
     Entry(TENANT_COLOR_SUCCESS, Show(Get(palette, "success"), repr))]
  }

  datatype Provider = Provider(planKey: string, envKey: Key)

  /** `key_map`. */
  function Providers(): seq<Provider> {
    [Provider("bandsintown", BANDSINTOWN_API_KEY),
     Provider("youtube", YOUTUBE_API_KEY),
     Provider("spotifyClientId", SPOTIFY_CLIENT_ID),
     Provider("spotifyClientSecret", SPOTIFY_CLIENT_SECRET),
     Provider("facebookPageToken", FACEBOOK_PAGE_ACCESS_TOKEN),
     Provider("tiktokClientKey", TIKTOK_CLIENT_KEY),
     Provider("tiktokClientSecret", TIKTOK_CLIENT_SECRET),
     Provider("lastfm", LASTFM_API_KEY)]
  }

  /** The entries for the first `n` provider keys: those set to more than blanks, stripped. */
  function ProviderEntries(keys: Value, n: nat): Dict
    requires n <= |Providers()|
  {
    if n == 0 then []
    else
      var value := Get(keys, Providers()[n - 1].planKey);
      if value.Str? && Strip(value.s) != "" then
        ProviderEntries(keys, n - 1) + [Entry(Providers()[n - 1].envKey, Strip(value.s))]
      else ProviderEntries(keys, n - 1)
  }

  function Team(members: Value): Dict {
    if members.Arr? && members.items != [] then [Entry(TEAM_MEMBERS_JSON, Dumps(members))] else []
  }

  function RenderedProfileKeys(): seq<string> {
    ["region", "locale", "timezone", "currency", "dateFormat", "numberFormat", "dataRegion"]
  }

  /** Indexing the profile raises when a key is missing. */
  predicate ProfileReadable(profile: Value) {
    profile.Obj? ==> forall k :: 0 <= k < |RenderedProfileKeys()| ==> Has(profile.fields, RenderedProfileKeys()[k])
  }

  /** Everything assigned after the first dictionary display. */
  function Later(plan: Value, repr: Value -> string): Dict {
    Palette(Get(plan, "brandingPalette"), repr) + ProviderEntries(Get(plan, "providerKeys"), |Providers()|)
    + Team(Get(plan, "teamMembers"))
  }

  /** The dictionary that `create_runtime_env` renders. */
  function Values(plan: Value, repr: Value -> string): Dict {
    PutAll(PutAll(PutAll([], Server() + Identity(plan, repr) + Tuning()), Profile(Get(plan, "regionalProfile"), repr)),
           Later(plan, repr))
  }

  lemma {:induction false} PutAllConcat(d: Dict, a: Dict, b: Dict)
    ensures PutAll(d, a + b) == PutAll(PutAll(d, a), b)
    decreases |a|
  {
    if a == [] {
      assert a + b == b;
    } else {
      assert (a + b)[1..] == a[1..] + b;
      PutAllConcat(Put(d, a[0].key, a[0].value), a[1..], b);
    }
  }

  lemma PutAllOne(d: Dict, e: Entry)
    ensures PutAll(d, [e]) == Put(d, e.key, e.value)
  {
    assert PutAll(Put(d, e.key, e.value), []) == Put(d, e.key, e.value);
  }

  /** `create_runtime_env`; none when a regional profile lacks a key. */
  method CreateRuntimeEnv(plan: Value, repr: Value -> string) returns (text: Option<string>)
    ensures text == if ProfileReadable(Get(plan, "regionalProfile")) then Some(Render(Values(plan, repr))) else None
  {
    hide Server, Identity, Tuning, Profile, Palette, Get, Put, Strip, Dumps, PutAll, Providers, Has, Render;
    var profile := Get(plan, "regionalProfile");
    if !ProfileReadable(profile) {
      return None;
    }
    var values := PutAll([], Server() + Identity(plan, repr) + Tuning());
    values := PutAll(values, Profile(profile, repr));
    ghost var before := values;
    ghost var palette := Palette(Get(plan, "brandingPalette"), repr);
    values := PutAll(values, Palette(Get(plan, "brandingPalette"), repr));
    var keys := Get(plan, "providerKeys");
    assert palette + ProviderEntries(keys, 0) == palette;
    for j := 0 to |Providers()|
      invariant values == PutAll(before, palette + ProviderEntries(keys, j))
    {
      var value := Get(keys, Providers()[j].planKey);
      if value.Str? && Strip(value.s) != "" {
        ghost var e := Entry(Providers()[j].envKey, Strip(value.s));
        assert palette + (ProviderEntries(keys, j) + [e]) == palette + ProviderEntries(keys, j) + [e];
        PutAllConcat(before, palette + ProviderEntries(keys, j), [e]);
        PutAllOne(values, e);
        values := Put(values, Providers()[j].envKey, Strip(value.s));
      }
    }
    var members := Get(plan, "teamMembers");
    ghost var soFar := palette + ProviderEntries(keys, |Providers()|);
    PutAllConcat(before, soFar, Team(members));
    if members.Arr? && members.items != [] {
      PutAllOne(values, Entry(TEAM_MEMBERS_JSON, Dumps(members)));
      values := Put(values, TEAM_MEMBERS_JSON, Dumps(members));
    } else {
      assert soFar + [] == soFar;
    }
    text := Some(Render(values));
  }

  // ----- What acceptance guarantees -----

  /** A lookup that finds something finds the value of some field. */
  lemma {:induction false} FoundIsField(fields: seq<Field>, key: string) returns (k: nat)
    requires Has(fields, key)
    ensures k < |fields| && fields[k].key == key && GetField(fields, key) == fields[k].value
  {
    if fields[0].key == key {
      k := 0;
    } else {
      k := FoundIsField(fields[1..], key);
      k := k + 1;
    }
  }

  lemma {:induction false} AbsentIsNull(fields: seq<Field>, key: string)
    requires !Has(fields, key)
    ensures GetField(fields, key) == Null
  {
    if fields != [] {
      AbsentIsNull(fields[1..], key);
    }
  }

  lemma {:induction false} KeyIsHeld(fields: seq<Field>, k: nat)
    requires k < |fields|
    ensures Has(fields, fields[k].key)
  {
    if k > 0 {
      KeyIsHeld(fields[1..], k - 1);
    }
  }

  lemma AllOneLine(s: string, ok: char -> bool)
    requires All(s, ok) && !ok('\n')
    ensures '\n' !in s
  {
  }

  lemma {:induction false} LocaleTailIsOneLine(s: string)
    requires IsLocaleTail(s)
    ensures '\n' !in s
    decreases |s|
  {
    hide Find;
    var n := Find(s, '-');
    AllOneLine(s[..n], Alnum);
    hide All;
    if n < |s| {
      LocaleTailIsOneLine(s[n + 1..]);
      assert s == s[..n] + ['-'] + s[n + 1..];
    } else {
      assert s == s[..n];
    }
  }

  lemma LocaleIsOneLine(s: string)
    requires IsLocale(s)
    ensures '\n' !in s
  {
    hide Find, IsLocaleTail;
    var n := Find(s, '-');
    AllOneLine(s[..n], Alnum);
    LocaleTailIsOneLine(s[n + 1..]);
    hide All;
    assert s == s[..n] + ['-'] + s[n + 1..];
  }

  lemma TimezoneIsOneLine(s: string)
    requires IsTimezone(s)
    ensures '\n' !in s
  {
    hide Find;
    var n := Find(s, '/');
    AllOneLine(s[..n], c => Alnum(c) || c in "_+-");
    AllOneLine(s[n + 1..], c => Alnum(c) || c in "_+/-");
    assert s == s[..n] + ['/'] + s[n + 1..];
  }

  lemma {:induction false} JoinIsOneLine(items: seq<Value>, bare: string -> bool)
    requires forall k :: 0 <= k < |items| ==> IsOrigin(items[k], bare)
    ensures '\n' !in Join(items)
  {
    if items != [] {
      assert IsOrigin(items[0], bare);
      AllOneLine(items[0].s, c => !IsSpace(c) && c >= ' ');
      JoinIsOneLine(items[1..], bare);
    }
  }

  lemma OriginIsOneLine(v: Value, bare: string -> bool)
    requires IsOrigin(v, bare)
    ensures v.Str? && '\n' !in v.s
  {
    AllOneLine(v.s, c => !IsSpace(c) && c >= ' ');
  }

  lemma IdentityIsOneLine(plan: Value, tenantId: Value, bare: string -> bool, repr: Value -> string)
    requires IdentityOk(plan, tenantId) && OriginsOk(plan, bare)
    ensures KeysOk(Identity(plan, repr)) && OneLine(Identity(plan, repr))
  {
    hide DatabaseName.PlacementDatabaseName, IsImageRef, IsShaTag, Get, IsOrigin, Join;
    var base, site := Get(plan, "crowdRelayBaseUrl"), Get(plan, "publicSiteBaseUrl");
    OriginIsOneLine(base, bare);
    if !site.Null? {
      OriginIsOneLine(site, bare);
    }
    JoinIsOneLine(Get(plan, "allowedOrigins").items, bare);
    CapitalsAreOneLine(Get(plan, "defaultCountryCode").s, 2);
    assert '\n' !in Get(plan, "tenantSlug").s;
  }

  lemma CapitalsAreOneLine(s: string, n: nat)
    requires Capitals(s, n)
    ensures '\n' !in s
  {
    AllOneLine(s, c => 'A' <= c <= 'Z');
  }

  lemma ProfileIsOneLine(profile: Value, country: Value, repr: Value -> string)
    requires ProfileOk(profile, country)
    ensures OneLine(Profile(profile, repr))
  {
    hide IsLocale, IsTimezone, Capitals, Get, KeySet;
    LocaleIsOneLine(Get(profile, "locale").s);
    TimezoneIsOneLine(Get(profile, "timezone").s);
    CapitalsAreOneLine(Get(profile, "currency").s, 3);
  }

  /** A complete profile is readable. */
  lemma ProfileIsReadable(profile: Value, country: Value)
    requires ProfileOk(profile, country)
    ensures ProfileReadable(profile)
  {
    hide IsLocale, IsTimezone, Capitals, Get, Has;
    forall k | 0 <= k < |RenderedProfileKeys()|
      ensures Has(profile.fields, RenderedProfileKeys()[k])
    {
      assert RenderedProfileKeys()[k] in PROFILE_KEYS;
      HeldInKeySet(profile.fields, RenderedProfileKeys()[k]);
    }
  }

  lemma HeldInKeySet(fields: seq<Field>, key: string)
    requires key in KeySet(fields)
    ensures Has(fields, key)
  {
    var k :| 0 <= k < |fields| && fields[k].key == key;
    KeyIsHeld(fields, k);
  }

  lemma ColorIsOneLine(palette: Value, key: string)
    requires PaletteOk(palette) && palette.Obj? && key in PALETTE_KEYS
    ensures Get(palette, key).Str? && '\n' !in Get(palette, key).s
  {
    HeldInKeySet(palette.fields, key);
    var k := FoundIsField(palette.fields, key);
    var s := palette.fields[k].value.s;
    AllOneLine(s[1..], c => '0' <= c <= '9' || 'a' <= c <= 'f' || 'A' <= c <= 'F');
    assert s == [s[0]] + s[1..];
  }

  lemma ColorRow(palette: Value, name: string, repr: Value -> string)
    requires PaletteOk(palette) && palette.Obj? && name in PALETTE_KEYS
    ensures '\n' !in Show(Get(palette, name), repr)
  {
    hide PaletteOk, Get;
    ColorIsOneLine(palette, name);
  }

  lemma PaletteIsOneLine(palette: Value, repr: Value -> string)
    requires PaletteOk(palette)
    ensures KeysOk(Palette(palette, repr)) && OneLine(Palette(palette, repr))
  {
    hide PaletteOk, Get, Show;
    if palette.Obj? {
      ColorRow(palette, "surface", repr);
      ColorRow(palette, "surfaceElevated", repr);
      ColorRow(palette, "textMuted", repr);
      ColorRow(palette, "primary", repr);
      ColorRow(palette, "text", repr);
      ColorRow(palette, "danger", repr);
      ColorRow(palette, "success", repr);
    }
  }

  lemma {:induction false} ProvidersAreOneLine(keys: Value, n: nat)
    requires ProviderKeysOk(keys) && n <= |Providers()|
    ensures KeysOk(ProviderEntries(keys, n)) && OneLine(ProviderEntries(keys, n))
  {
    hide Providers, Strip;
    if n > 0 {
      ProvidersAreOneLine(keys, n - 1);
      var key := Providers()[n - 1].planKey;
      var value := Get(keys, key);
      if value.Str? {
        if !Has(keys.fields, key) {
          AbsentIsNull(keys.fields, key);
        } else {
          var k := FoundIsField(keys.fields, key);
          if '\n' in Strip(value.s) {
            StripWithin(value.s, '\n');
          }
        }
      }
    }
  }

  lemma TeamIsOneLine(members: Value)
    ensures KeysOk(Team(members)) && OneLine(Team(members))
  {
    hide Dumps;
  }

  // ----- Reading `tenant.env` back -----

  predicate HasEntry(d: Dict, e: Entry) {
    d != [] && (d[0] == e || HasEntry(d[1..], e))
  }

  lemma {:induction false} EntryIsThere(d: Dict, e: Entry) returns (k: nat)
    requires HasEntry(d, e)
    ensures k < |d| && d[k] == e
  {
    if d[0] == e {
      k := 0;
    } else {
      k := EntryIsThere(d[1..], e);
      k := k + 1;
    }
  }

  lemma {:induction false} PutHas(d: Dict, e: Entry)
    ensures HasEntry(Put(d, e.key, e.value), e)
  {
    if d != [] && d[0].key != e.key {
      PutHas(d[1..], e);
    }
  }

  lemma {:induction false} PutElsewhere(d: Dict, key: string, value: string, e: Entry)
    requires HasEntry(d, e) && key != e.key
    ensures HasEntry(Put(d, key, value), e)
  {
    if d[0] != e && d[0].key != key {
      PutElsewhere(d[1..], key, value, e);
    }
  }

  lemma {:induction false} PutAllElsewhere(d: Dict, entries: Dict, e: Entry)
    requires HasEntry(d, e) && forall k :: 0 <= k < |entries| ==> entries[k].key != e.key
    ensures HasEntry(PutAll(d, entries), e)
    decreases |entries|
  {
    if entries != [] {
      PutElsewhere(d, entries[0].key, entries[0].value, e);
      PutAllElsewhere(Put(d, entries[0].key, entries[0].value), entries[1..], e);
    }
  }

  /** An assignment lasts unless a later one has the same key. */
  lemma PutAllHas(d: Dict, entries: Dict, j: nat)
    requires j < |entries| && forall k :: j < k < |entries| ==> entries[k].key != entries[j].key
    ensures HasEntry(PutAll(d, entries), entries[j])
  {
    hide PutAll, Put, HasEntry;
    var e := entries[j];
    var before := PutAll(d, entries[..j]);
    assert entries == entries[..j] + ([e] + entries[j + 1..]);
    PutAllConcat(d, entries[..j], [e] + entries[j + 1..]);
    PutAllConcat(before, [e], entries[j + 1..]);
    PutAllOne(before, e);
    PutHas(before, e);
    PutAllElsewhere(Put(before, e.key, e.value), entries[j + 1..], e);
  }

  function ProfileKeys(): seq<Key> {
    [TENANT_REGION, TENANT_LOCALE, TENANT_TIMEZONE, TENANT_CURRENCY, TENANT_DATE_FORMAT, TENANT_NUMBER_FORMAT,
     TENANT_DATA_REGION]
  }

  lemma KeyLengths()
    ensures |TENANT_REGION| == 24 && |TENANT_LOCALE| == 24 && |TENANT_TIMEZONE| == 26 && |TENANT_CURRENCY| == 26
    ensures |TENANT_DATE_FORMAT| == 29 && |TENANT_NUMBER_FORMAT| == 31 && |TENANT_DATA_REGION| == 29
  {
  }

  lemma LaterKeyLengths()
    ensures |TENANT_COLOR_BACKGROUND| == 34 && |TENANT_COLOR_SURFACE| == 31 && |TENANT_COLOR_MUTED| == 29
    ensures |TENANT_COLOR_ACCENT| == 30 && |TENANT_COLOR_TEXT| == 28 && |TENANT_COLOR_DANGER| == 30
    ensures |TENANT_COLOR_SUCCESS| == 31 && |TEAM_MEMBERS_JSON| == 28
  {
  }

  lemma ProviderKeyLengths()
    ensures |BANDSINTOWN_API_KEY| == 30 && |YOUTUBE_API_KEY| == 26 && |SPOTIFY_CLIENT_ID| == 28
    ensures |SPOTIFY_CLIENT_SECRET| == 32 && |FACEBOOK_PAGE_ACCESS_TOKEN| == 37 && |TIKTOK_CLIENT_KEY| == 28
    ensures |TIKTOK_CLIENT_SECRET| == 31 && |LASTFM_API_KEY| == 25
  {
  }

  /** The characters that tell keys of one length apart. */
  lemma KeyLetters()
    ensures TENANT_REGION[18] != TENANT_LOCALE[18] && TENANT_TIMEZONE[18] != TENANT_CURRENCY[18]
    ensures TENANT_DATE_FORMAT[21] != TENANT_DATA_REGION[21]
  {
  }

  lemma LaterKeyLetters()
    ensures TENANT_TIMEZONE[11] != YOUTUBE_API_KEY[11] && TENANT_CURRENCY[11] != YOUTUBE_API_KEY[11]
    ensures TENANT_DATE_FORMAT[18] != TENANT_COLOR_MUTED[18] && TENANT_DATA_REGION[18] != TENANT_COLOR_MUTED[18]
    ensures TENANT_NUMBER_FORMAT[18] != TENANT_COLOR_SURFACE[18] && TENANT_NUMBER_FORMAT[18] != TENANT_COLOR_SUCCESS[18]
    ensures TENANT_NUMBER_FORMAT[12] != TIKTOK_CLIENT_SECRET[12]
  {
  }

  lemma ProfileKeysDiffer(j: nat, k: nat)
    requires j < k < 7
    ensures ProfileKeys()[j] != ProfileKeys()[k]
  {
    KeyLengths();
    KeyLetters();
  }

  lemma ProfileKeysNotProviders(j: nat, k: nat)
    requires j < 7 && k < |Providers()|
    ensures Providers()[k].envKey != ProfileKeys()[j]
  {
    KeyLengths();
    ProviderKeyLengths();
    LaterKeyLetters();
  }

  lemma {:induction false} ProviderEntriesElsewhere(keys: Value, n: nat, j: nat)
    requires j < 7 && n <= |Providers()|
    ensures forall k :: 0 <= k < |ProviderEntries(keys, n)| ==> ProviderEntries(keys, n)[k].key != ProfileKeys()[j]
  {
    hide Providers, ProfileKeys, Get, Strip;
    if n > 0 {
      ProviderEntriesElsewhere(keys, n - 1, j);
      ProfileKeysNotProviders(j, n - 1);
    }
  }

  lemma PaletteElsewhere(palette: Value, repr: Value -> string, j: nat, k: nat)
    requires j < 7 && k < |Palette(palette, repr)|
    ensures Palette(palette, repr)[k].key != ProfileKeys()[j]
  {
    hide Get, Show;
    KeyLengths();
    LaterKeyLengths();
    LaterKeyLetters();
  }

  lemma TeamElsewhere(j: nat)
    requires j < 7
    ensures TEAM_MEMBERS_JSON != ProfileKeys()[j]
  {
    KeyLengths();
    LaterKeyLengths();
  }

  lemma LaterElsewhere(plan: Value, repr: Value -> string, j: nat, k: nat)
    requires j < 7 && k < |Later(plan, repr)|
    ensures Later(plan, repr)[k].key != ProfileKeys()[j]
  {
    var palette, keys := Get(plan, "brandingPalette"), Get(plan, "providerKeys");
    ProviderEntriesElsewhere(keys, |Providers()|, j);
    TeamElsewhere(j);
    if k < |Palette(palette, repr)| {
      PaletteElsewhere(palette, repr, j, k);
    }
    hide Palette, ProviderEntries, Providers, ProfileKeys, Get, Dumps;
  }

  /** Whatever the profile assigns reaches the file. */
  lemma ProfileSurvives(plan: Value, repr: Value -> string, j: nat)
    requires Get(plan, "regionalProfile").Obj? && j < 7
    ensures HasEntry(Values(plan, repr), Profile(Get(plan, "regionalProfile"), repr)[j])
  {
    var rows := Profile(Get(plan, "regionalProfile"), repr);
    assert |rows| == 7 && forall k :: 0 <= k < 7 ==> rows[k].key == ProfileKeys()[k];
    hide Profile, ProfileKeys, Get, PutAll, HasEntry, Server, Tuning, Identity, Later;
    forall k | j < k < 7
      ensures rows[k].key != rows[j].key
    {
      ProfileKeysDiffer(j, k);
    }
    var first := PutAll([], Server() + Identity(plan, repr) + Tuning());
    PutAllHas(first, rows, j);
    forall k | 0 <= k < |Later(plan, repr)|
      ensures Later(plan, repr)[k].key != rows[j].key
    {
      LaterElsewhere(plan, repr, j, k);
    }
    PutAllElsewhere(PutAll(first, rows), Later(plan, repr), rows[j]);
  }

  lemma ConcatKeeps(a: Dict, b: Dict)
    ensures KeysOk(a) && KeysOk(b) ==> KeysOk(a + b)
    ensures OneLine(a) && OneLine(b) ==> OneLine(a + b)
  {
  }

  lemma LaterIsOneLine(plan: Value, repr: Value -> string)
    requires ExtrasOk(plan)
    ensures KeysOk(Later(plan, repr)) && OneLine(Later(plan, repr))
  {
    var palette, keys, team := Get(plan, "brandingPalette"), Get(plan, "providerKeys"), Team(Get(plan, "teamMembers"));
    PaletteIsOneLine(palette, repr);
    ProvidersAreOneLine(keys, |Providers()|);
    TeamIsOneLine(Get(plan, "teamMembers"));
    hide KeysOk, OneLine, Palette, ProviderEntries, Team, Providers, Get;
    var entries := ProviderEntries(keys, |Providers()|);
    ConcatKeeps(Palette(palette, repr), entries);
    ConcatKeeps(Palette(palette, repr) + entries, team);
  }

  lemma LiteralsAreOneLine(rows: seq<Literal>)
    ensures KeysOk(rows) && OneLine(rows)
  {
  }

  lemma FirstIsOneLine(plan: Value, tenantId: Value, bare: string -> bool, repr: Value -> string)
    requires IdentityOk(plan, tenantId) && OriginsOk(plan, bare)
    ensures KeysOk(Server() + Identity(plan, repr) + Tuning()) && OneLine(Server() + Identity(plan, repr) + Tuning())
  {
    IdentityIsOneLine(plan, tenantId, bare, repr);
    LiteralsAreOneLine(Server());
    LiteralsAreOneLine(Tuning());
    hide KeysOk, OneLine, Identity, Server, Tuning;
    ConcatKeeps(Server(), Identity(plan, repr));
    ConcatKeeps(Server() + Identity(plan, repr), Tuning());
  }

  lemma ProfileHasKeys(profile: Value, repr: Value -> string)
    ensures KeysOk(Profile(profile, repr))
  {
    hide Get, Show;
  }

  /** For every accepted plan each key is rendered once, and the file reads back as exactly the rendered map if and
      only if no rendered profile value holds a line break. */
  lemma RuntimeEnvReadsBackExactly(plan: Value, jobTenantId: Value, bare: string -> bool, repr: Value -> string)
    requires Accepts(plan, jobTenantId, bare)
    ensures UniqueKeys(Values(plan, repr))
    ensures ParseEnv(Render(Values(plan, repr))) == Values(plan, repr)
            <==> OneLine(Profile(Get(plan, "regionalProfile"), repr))
  {
    var profile := Get(plan, "regionalProfile");
    var rows, later := Profile(profile, repr), Later(plan, repr);
    FirstIsOneLine(plan, TenantId(plan, jobTenantId), bare, repr);
    LaterIsOneLine(plan, repr);
    ProfileHasKeys(profile, repr);
    assert !profile.Obj? ==> rows == [];
    assert profile.Obj? ==> |rows| == 7;
    hide Accepts, Profile, Identity, Later, Get, KeysOk, ParseEnv, Render, Server, Tuning, PutAll, HasEntry, UniqueKeys;
    var start := Server() + Identity(plan, repr) + Tuning();
    var first := PutAll([], start);
    PutAllFromNothing(start);
    PutAllKeeps(first, rows);
    PutAllKeeps(PutAll(first, rows), later);
    ReadsBackExactly(Values(plan, repr));
    if !OneLine(rows) {
      var j :| 0 <= j < |rows| && '\n' in rows[j].value;
      ProfileSurvives(plan, repr, j);
      var k := EntryIsThere(Values(plan, repr), rows[j]);
    }
  }

  lemma PutAllFromNothing(start: Dict)
    requires KeysOk(start) && OneLine(start)
    ensures KeysOk(PutAll([], start)) && OneLine(PutAll([], start)) && UniqueKeys(PutAll([], start))
  {
    hide PutAll;
    PutAllKeeps([], start);
  }

  /** Schemas 4 and 5, and schema 3 without a profile, always meet that condition and never raise. */
  lemma CheckedPlansReadBack(plan: Value, jobTenantId: Value, bare: string -> bool, repr: Value -> string)
    requires Accepts(plan, jobTenantId, bare)
    requires Equals(Get(plan, "schema"), 3) ==> !Get(plan, "regionalProfile").Obj?
    ensures ProfileReadable(Get(plan, "regionalProfile"))
    ensures ParseEnv(Render(Values(plan, repr))) == Values(plan, repr)
  {
    RuntimeEnvReadsBackExactly(plan, jobTenantId, bare, repr);
    var profile := Get(plan, "regionalProfile");
    if Equals(Get(plan, "schema"), 3) {
      assert Profile(profile, repr) == [];
    } else {
      ProfileIsReadable(profile, Get(plan, "defaultCountryCode"));
      ProfileIsOneLine(profile, Get(plan, "defaultCountryCode"), repr);
    }
  }

  lemma {:induction false} GetAppended(fields: seq<Field>, f: Field, key: string)
    ensures f.key != key ==> GetField(fields + [f], key) == GetField(fields, key)
    ensures !Has(fields, f.key) ==> GetField(fields + [f], f.key) == f.value
  {
    if fields == [] {
      assert fields + [f] == [f];
      assert GetField([f][1..], key) == Null;
    } else {
      assert (fields + [f])[1..] == fields[1..] + [f];
      GetAppended(fields[1..], f, key);
    }
  }

  function WithProfile(plan: Value, profile: Value): Value
    requires plan.Obj?
  {
    Obj(plan.fields + [Field("regionalProfile", profile)])
  }

  lemma OtherFieldsUnchanged(plan: Value, profile: Value, key: string)
    requires plan.Obj? && key != "regionalProfile"
    ensures Get(WithProfile(plan, profile), key) == Get(plan, key)
  {
    GetAppended(plan.fields, Field("regionalProfile", profile), key);
  }

  /** Agreement on every key that `safe_plan` reads besides the profile. */
  ghost predicate Agree(plan: Value, plan': Value) {
    Get(plan', "brandingPalette") == Get(plan, "brandingPalette")
    && forall key :: |key| != |"regionalProfile"| ==> Get(plan', key) == Get(plan, key)
  }

  lemma ProfileLeavesRest(plan: Value, profile: Value)
    requires plan.Obj?
    ensures Agree(plan, WithProfile(plan, profile))
  {
    var plan' := WithProfile(plan, profile);
    hide Get, WithProfile;
    assert "brandingPalette"[0] != "regionalProfile"[0];
    OtherFieldsUnchanged(plan, profile, "brandingPalette");
    forall key | |key| != |"regionalProfile"|
      ensures Get(plan', key) == Get(plan, key)
    {
      OtherFieldsUnchanged(plan, profile, key);
    }
  }

  lemma IdentityAgrees(plan: Value, plan': Value, tenantId: Value)
    requires Agree(plan, plan') && IdentityOk(plan, tenantId)
    ensures IdentityOk(plan', tenantId)
  {
    hide Get, IsImageRef, IsShaTag, NoControl, Capitals, DatabaseName.IsSlug, DatabaseName.IsTenantId;
  }

  lemma OriginsAgree(plan: Value, plan': Value, bare: string -> bool)
    requires Agree(plan, plan') && OriginsOk(plan, bare)
    ensures OriginsOk(plan', bare)
  {
    hide Get, IsOrigin;
  }

  lemma ExtrasAgree(plan: Value, plan': Value)
    requires Agree(plan, plan') && ExtrasOk(plan)
    ensures ExtrasOk(plan')
  {
    hide Get, PaletteOk, MembersOk, ProviderKeysOk;
  }

  lemma TenantIdAgrees(plan: Value, plan': Value, jobTenantId: Value)
    requires Agree(plan, plan')
    ensures TenantId(plan', jobTenantId) == TenantId(plan, jobTenantId)
  {
    hide Get;
    assert Get(plan', "tenantId") == Get(plan, "tenantId");
  }

  lemma SchemasApart(v: Value)
    requires Equals(v, 3)
    ensures !Equals(v, 5)
  {
    assert "3.0"[0] != "5.0"[0];
  }

  lemma UncheckedProfileAccepted(plan: Value, jobTenantId: Value, bare: string -> bool, profile: Value)
    requires plan.Obj? && Accepts(plan, jobTenantId, bare) && Equals(Get(plan, "schema"), 3)
    requires !Has(plan.fields, "regionalProfile")
    ensures Accepts(WithProfile(plan, profile), jobTenantId, bare)
  {
    hide Get, IdentityOk, OriginsOk, ExtrasOk, ProfileOk, PlacementOk, TenantId, Equals;
    var plan' := WithProfile(plan, profile);
    ProfileLeavesRest(plan, profile);
    assert Get(plan', "schema") == Get(plan, "schema") && Get(plan', "mode") == Get(plan, "mode");
    SchemasApart(Get(plan, "schema"));
    TenantIdAgrees(plan, plan', jobTenantId);
    IdentityAgrees(plan, plan', TenantId(plan, jobTenantId));
    OriginsAgree(plan, plan', bare);
    ExtrasAgree(plan, plan');
  }

  /** Schema 3 never looks at the profile, so the guarantee fails there: any object at all is accepted as one, the file
      is written exactly when it has the keys the code indexes, and a line break in its locale then leaves the file with
      more lines than the map has keys. */
  lemma UncheckedProfileBreaks(plan: Value, jobTenantId: Value, bare: string -> bool, repr: Value -> string,
                               profile: Value)
    requires plan.Obj? && Accepts(plan, jobTenantId, bare) && Equals(Get(plan, "schema"), 3)
    requires !Has(plan.fields, "regionalProfile") && profile.Obj?
    ensures var plan' := WithProfile(plan, profile);
            && Accepts(plan', jobTenantId, bare)
            && (ProfileReadable(Get(plan', "regionalProfile")) <==> ProfileReadable(profile))
            && (Get(profile, "locale").Str? && '\n' in Get(profile, "locale").s ==>
                ParseEnv(Render(Values(plan', repr))) != Values(plan', repr))
  {
    hide Accepts, Equals, Has, Values, Render, ParseEnv, UniqueKeys, ProfileReadable;
    var plan' := WithProfile(plan, profile);
    UncheckedProfileAccepted(plan, jobTenantId, bare, profile);
    RuntimeEnvReadsBackExactly(plan', jobTenantId, bare, repr);
    GetAppended(plan.fields, Field("regionalProfile", profile), "regionalProfile");
    assert Profile(profile, repr)[1].value == Show(Get(profile, "locale"), repr);
  }

  /** A profile with every key the code indexes, and a line break in its locale. */
  const BROKEN_PROFILE := Obj([Field("region", Str("")), Field("locale", Str("a\nb")), Field("timezone", Str("")),
                               Field("currency", Str("")), Field("dateFormat", Str("")), Field("numberFormat", Str("")),
                               Field("dataRegion", Str(""))])

  /** Beside any accepted schema 3 plan without a profile there is one for which the file is written and does not read
      back. */
  lemma UncheckedProfileExample(plan: Value, jobTenantId: Value, bare: string -> bool, repr: Value -> string)
    requires plan.Obj? && Accepts(plan, jobTenantId, bare) && Equals(Get(plan, "schema"), 3)
    requires !Has(plan.fields, "regionalProfile")
    ensures var plan' := WithProfile(plan, BROKEN_PROFILE);
            && Accepts(plan', jobTenantId, bare) && ProfileReadable(Get(plan', "regionalProfile"))
            && ParseEnv(Render(Values(plan', repr))) != Values(plan', repr)
  {
    hide Accepts, Render, Values, ParseEnv, WithProfile, BROKEN_PROFILE;
    BrokenProfile();
    UncheckedProfileBreaks(plan, jobTenantId, bare, repr, BROKEN_PROFILE);
  }

  lemma BrokenProfile()
    ensures BROKEN_PROFILE.Obj? && ProfileReadable(BROKEN_PROFILE)
    ensures Get(BROKEN_PROFILE, "locale").Str? && '\n' in Get(BROKEN_PROFILE, "locale").s
  {
    var fields, keys := BROKEN_PROFILE.fields, RenderedProfileKeys();
    assert |fields| == |keys| == 7 && forall k :: 0 <= k < 7 ==> fields[k].key == keys[k];
    forall k | 0 <= k < 7
      ensures Has(fields, keys[k])
    {
      HasAt(fields, k);
    }
    assert "region" != "locale" by {
      assert "region"[0] != "locale"[0];
    }
    assert fields[1..][0] == Field("locale", Str("a\nb"));
    assert "a\nb"[1] == '\n';
  }

  lemma {:induction false} HasAt(fields: seq<Field>, k: nat)
    requires k < |fields|
    ensures Has(fields, fields[k].key)
  {
    if k > 0 {
      HasAt(fields[1..], k - 1);
    }
  }

  // ----- Shared databases -----

  /** The plan puts the tenant on the shared cluster. */
  predicate Shared(plan: Value) {
    Equals(Get(plan, "schema"), 5) && Get(plan, "placement") == Str("shared_pg")
  }

  /** Two accepted shared plans name one database exactly when the names derived from their tenants collide: never for
      two tenants with slugs of up to 61 characters. */
  lemma SharedDatabasesExactly(a: Value, jobA: Value, b: Value, jobB: Value, bare: string -> bool)
    requires Accepts(a, jobA, bare) && Shared(a) && Accepts(b, jobB, bare) && Shared(b)
    ensures var x, y := Get(a, "tenantSlug").s, Get(b, "tenantSlug").s;
            var idA, idB := TenantId(a, jobA).s, TenantId(b, jobB).s;
            Get(Get(a, "sharedPg"), "database") == Get(Get(b, "sharedPg"), "database") <==>
            if |x| <= 61 && |y| <= 61 then x == y
            else if |x| <= 61 then DatabaseName.Truncates(x, y, idB)
            else if |y| <= 61 then DatabaseName.Truncates(y, x, idA)
            else x[..52] == y[..52] && DatabaseName.IdFragment(idA) == DatabaseName.IdFragment(idB)
  {
    hide Get, OriginsOk, ExtrasOk, ProfileOk, DatabaseName.PlacementDatabaseName, IsImageRef, IsShaTag, Capitals,
      DatabaseName.IsSlug, DatabaseName.IsTenantId, DatabaseName.IdFragment, DatabaseName.Truncates, Equals;
    PlacementIsShared(Get(a, "placement"));
    PlacementIsShared(Get(b, "placement"));
    DatabaseName.CollisionsExactly(Get(a, "tenantSlug").s, TenantId(a, jobA).s,
                                   Get(b, "tenantSlug").s, TenantId(b, jobB).s);
  }

  lemma PlacementIsShared(v: Value)
    ensures v == Str("shared_pg") ==> v != Str("dedicated")
  {
    assert "shared_pg"[0] != "dedicated"[0];
  }
}
