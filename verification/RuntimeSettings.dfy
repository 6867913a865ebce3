/** Every setting of the rendered `tenant.env`, spelled out, and that none overwrites another. */
module RuntimeSettings {
  import opened PythonText
  import opened RuntimeEnv
  import opened Wrappers

  // ----- No two settings have one name -----

  /** The place of a setting in the file, told from the length of its name and at most two of its characters. */
  function Rank(key: string): nat {
    var n := |key|;
    if n == 8 then 27
    else if n == 14 then 0
    else if n == 20 then 1
    else if n == 24 then (
      if key[n - 3] == 'G' then 11 else if key[n - 3] == 'I' then 28 else 29)
    else if n == 25 then (
      if key[n - 14] == 'W' then 8 else if key[n - 14] == 'Q' then 23 else if key[n - 14] == 'B' then 26 else 49)
    else if n == 26 then (
      if key[n - 14] == 'L' then 7 else if key[n - 3] == 'O' then 30 else if key[n - 3] == 'N' then 31 else 43)
    else if n == 27 then 15
    else if n == 28 then (
      if key[n - 14] == 'O' then 19 else if key[n - 14] == 'A' then 39 else if key[n - 3] == '_' then 44 else
      if key[n - 3] == 'K' then 47 else 50)
    else if n == 29 then (
      if key[n - 14] == 'N' && key[n - 3] == 'A' then 21 else if key[n - 14] == 'F' then 22 else
      if key[n - 3] == 'M' then 32 else if key[n - 3] == 'I' then 34 else 37)
    else if n == 30 then (
      if key[n - 3] == 'A' then 9 else if key[n - 3] == 'E' then 38 else if key[n - 3] == 'G' then 40 else 42)
    else if n == 31 then (
      if key[n - 3] == 'U' then 10 else if key[n - 14] == 'T' then 12 else if key[n - 3] == 'L' then 25 else
      if key[n - 3] == 'M' then 33 else if key[n - 3] == 'A' then 36 else if key[n - 3] == 'E' then 41 else 48)
    else if n == 32 then (
      if key[n - 3] == '_' then 24 else 45)
    else if n == 33 then 14
    else if n == 34 then (
      if key[n - 14] == 'S' then 16 else 35)
    else if n == 35 then (
      if key[n - 14] == 'A' then 2 else if key[n - 14] == 'I' then 4 else 6)
    else if n == 37 then (
      if key[n - 14] == 'L' then 20 else 46)
    else if n == 38 then 3
    else if n == 39 then 13
    else if n == 40 then 5
    else if n == 41 then 17
    else if n == 42 then 18
    else 51
  }

  /** The settings stand in the order of their places, from `lo` to below `hi`. */
  ghost predicate Ranked(d: Dict, lo: nat, hi: nat) {
    && (forall k :: 0 <= k < |d| ==> lo <= Rank(d[k].key) < hi)
    && (forall k, l :: 0 <= k < l < |d| ==> Rank(d[k].key) < Rank(d[l].key))
  }

  lemma ServerRanks()
    ensures Rank(ENV.key) == 0 && Rank(BIND_ADDR.key) == 1 && Rank(DATABASE_MAX_CONNECTIONS.key) == 2
    ensures Rank(DATABASE_CONNECT_TIMEOUT_MS.key) == 3 && Rank(DATABASE_PING_TIMEOUT_MS.key) == 4
    ensures Rank(DATABASE_OPERATION_TIMEOUT_MS.key) == 5 && Rank(DATABASE_LOCK_TIMEOUT_MS.key) == 6
  {
  }

  lemma IdentityRanks()
    ensures Rank(ALLOWED_ORIGINS) == 7 && Rank(WORKSPACE_SLUG) == 8 && Rank(TENANT_DISPLAY_NAME) == 9
    ensures Rank(PUBLIC_SITE_BASE_URL) == 10 && Rank(PUBLIC_ORIGIN) == 11 && Rank(DEFAULT_COUNTRY_CODE) == 12
  {
  }

  lemma TuningRanks()
    ensures Rank(REDIRECT_REFRESH_INTERVAL_MS.key) == 13 && Rank(CLICK_CHANNEL_CAPACITY.key) == 14
    ensures Rank(CLICK_BATCH_SIZE.key) == 15 && Rank(CLICK_FLUSH_INTERVAL_MS.key) == 16
    ensures Rank(EVENT_REMINDER_OFFSETS_MINUTES.key) == 17 && Rank(EVENT_REMINDER_POLL_INTERVAL_MS.key) == 18
    ensures Rank(AUTOPILOT_ENABLED.key) == 19 && Rank(AUTOPILOT_POLL_INTERVAL_MS.key) == 20
  {
  }

  lemma LaterTuningRanks()
    ensures Rank(ADMIN_MEMBER_EMAIL.key) == 21 && Rank(STAFF_MEMBER_EMAIL.key) == 22
    ensures Rank(QR_TTL_SECONDS.key) == 23 && Rank(REQUIRE_DOUBLE_OPT_IN.key) == 24
    ensures Rank(RANDOM_DRAWS_ENABLED.key) == 25 && Rank(BOOTSTRAP_FILE.key) == 26 && Rank(RUST_LOG.key) == 27
  {
  }

  lemma ProfileRanks()
    ensures Rank(TENANT_REGION) == 28 && Rank(TENANT_LOCALE) == 29 && Rank(TENANT_TIMEZONE) == 30
    ensures Rank(TENANT_CURRENCY) == 31 && Rank(TENANT_DATE_FORMAT) == 32 && Rank(TENANT_NUMBER_FORMAT) == 33
    ensures Rank(TENANT_DATA_REGION) == 34
  {
  }

  lemma PaletteRanks()
    ensures Rank(TENANT_COLOR_BACKGROUND) == 35 && Rank(TENANT_COLOR_SURFACE) == 36 && Rank(TENANT_COLOR_MUTED) == 37
    ensures Rank(TENANT_COLOR_ACCENT) == 38 && Rank(TENANT_COLOR_TEXT) == 39 && Rank(TENANT_COLOR_DANGER) == 40
    ensures Rank(TENANT_COLOR_SUCCESS) == 41
  {
  }

  lemma ProviderRanks()
    ensures Rank(BANDSINTOWN_API_KEY) == 42 && Rank(YOUTUBE_API_KEY) == 43 && Rank(SPOTIFY_CLIENT_ID) == 44
    ensures Rank(SPOTIFY_CLIENT_SECRET) == 45 && Rank(FACEBOOK_PAGE_ACCESS_TOKEN) == 46
    ensures Rank(TIKTOK_CLIENT_KEY) == 47 && Rank(TIKTOK_CLIENT_SECRET) == 48 && Rank(LASTFM_API_KEY) == 49
    ensures Rank(TEAM_MEMBERS_JSON) == 50
  {
  }

  lemma RankedConcat(a: Dict, b: Dict, lo: nat, mid: nat, hi: nat)
    requires Ranked(a, lo, mid) && Ranked(b, mid, hi) && lo <= mid <= hi
    ensures Ranked(a + b, lo, hi)
  {
    hide Rank;
  }

  lemma {:induction false} AbsentKey(d: Dict, key: string)
    requires forall k :: 0 <= k < |d| ==> d[k].key != key
    ensures !HasKey(d, key)
  {
    if d != [] {
      AbsentKey(d[1..], key);
    }
  }

  /** A setting that is not there yet goes to the end. */
  lemma {:induction false} PutFresh(d: Dict, e: Entry)
    requires !HasKey(d, e.key)
    ensures Put(d, e.key, e.value) == d + [e]
  {
    if d != [] {
      PutFresh(d[1..], e);
      assert d == [d[0]] + d[1..];
    }
  }

  /** So do any number of them in order. */
  lemma {:induction false} PutAllFresh(d: Dict, entries: Dict, hi: nat)
    requires Ranked(d + entries, 0, hi)
    ensures PutAll(d, entries) == d + entries
    decreases |entries|
  {
    hide Rank, Put, HasKey;
    if entries == [] {
      assert d + entries == d;
    } else {
      var e, all := entries[0], d + entries;
      forall k | 0 <= k < |d|
        ensures d[k].key != e.key
      {
        assert all[k] == d[k] && all[|d|] == e;
        assert Rank(all[k].key) < Rank(all[|d|].key);
      }
      AbsentKey(d, e.key);
      PutFresh(d, e);
      assert (d + [e]) + entries[1..] == all;
      PutAllFresh(d + [e], entries[1..], hi);
    }
  }

  // ----- The file, setting by setting -----

  predicate Given(v: Value) {
    v.Str? && v.s != ""
  }

  /** Who the tenant is and where its site and API are; without a site the API's address stands in as the origin. */
  function IdentitySettings(plan: Value, repr: Value -> string): Dict {
    var origins, site := Get(plan, "allowedOrigins"), Get(plan, "publicSiteBaseUrl");
    [Entry("CROWDRELAY_ALLOWED_ORIGINS", if origins.Arr? then Join(origins.items) else ""),
     Entry("CROWDRELAY_WORKSPACE_SLUG", Show(Get(plan, "workspaceSlug"), repr)),
     Entry("CROWDRELAY_TENANT_DISPLAY_NAME", Show(Get(plan, "displayName"), repr)),
     Entry("CROWDRELAY_PUBLIC_SITE_BASE_URL", if Given(site) then site.s else ""),
     Entry("CROWDRELAY_PUBLIC_ORIGIN", if Given(site) then site.s else Show(Get(plan, "crowdRelayBaseUrl"), repr)),
     Entry("CROWDRELAY_DEFAULT_COUNTRY_CODE", Show(Get(plan, "defaultCountryCode"), repr))]
  }

  function ProfileSettings(profile: Value, repr: Value -> string): Dict {
    if !profile.Obj? then [] else
    [Entry("CROWDRELAY_TENANT_REGION", Show(Get(profile, "region"), repr)),
     Entry("CROWDRELAY_TENANT_LOCALE", Show(Get(profile, "locale"), repr)),
     Entry("CROWDRELAY_TENANT_TIMEZONE", Show(Get(profile, "timezone"), repr)),
     Entry("CROWDRELAY_TENANT_CURRENCY", Show(Get(profile, "currency"), repr)),
     Entry("CROWDRELAY_TENANT_DATE_FORMAT", Show(Get(profile, "dateFormat"), repr)),
     Entry("CROWDRELAY_TENANT_NUMBER_FORMAT", Show(Get(profile, "numberFormat"), repr)),
     Entry("CROWDRELAY_TENANT_DATA_REGION", Show(Get(profile, "dataRegion"), repr))]
  }

  function PaletteSettings(palette: Value, repr: Value -> string): Dict {
    if !palette.Obj? then [] else
    [Entry("CROWDRELAY_TENANT_COLOR_BACKGROUND", Show(Get(palette, "surface"), repr)),
     Entry("CROWDRELAY_TENANT_COLOR_SURFACE", Show(Get(palette, "surfaceElevated"), repr)),
     Entry("CROWDRELAY_TENANT_COLOR_MUTED", Show(Get(palette, "textMuted"), repr)),
     Entry("CROWDRELAY_TENANT_COLOR_ACCENT", Show(Get(palette, "primary"), repr)),
     Entry("CROWDRELAY_TENANT_COLOR_TEXT", Show(Get(palette, "text"), repr)),
     Entry("CROWDRELAY_TENANT_COLOR_DANGER", Show(Get(palette, "danger"), repr)),
     Entry("CROWDRELAY_TENANT_COLOR_SUCCESS", Show(Get(palette, "success"), repr))]
  }

  /** One provider's key, if it is more than blanks, without the blanks around it. */
  function Own(keys: Value, key: string, name: string): Dict {
    var value := Get(keys, key);
    if value.Str? && Strip(value.s) != "" then [Entry(name, Strip(value.s))] else []
  }

  function ProviderSettings(keys: Value): Dict {
    Own(keys, "bandsintown", "CROWDRELAY_BANDSINTOWN_API_KEY")
    + Own(keys, "youtube", "CROWDRELAY_YOUTUBE_API_KEY")
    + Own(keys, "spotifyClientId", "CROWDRELAY_SPOTIFY_CLIENT_ID")
    + Own(keys, "spotifyClientSecret", "CROWDRELAY_SPOTIFY_CLIENT_SECRET")
    + Own(keys, "facebookPageToken", "CROWDRELAY_FACEBOOK_PAGE_ACCESS_TOKEN")
    + Own(keys, "tiktokClientKey", "CROWDRELAY_TIKTOK_CLIENT_KEY")
    + Own(keys, "tiktokClientSecret", "CROWDRELAY_TIKTOK_CLIENT_SECRET")
    + Own(keys, "lastfm", "CROWDRELAY_LASTFM_API_KEY")
  }

  function TeamSettings(members: Value): Dict {
    if members.Arr? && members.items != [] then [Entry("CROWDRELAY_TEAM_MEMBERS_JSON", Dumps(members))] else []
  }

  lemma IdentityNames()
    ensures ALLOWED_ORIGINS == "CROWDRELAY_ALLOWED_ORIGINS"
    ensures WORKSPACE_SLUG == "CROWDRELAY_WORKSPACE_SLUG"
    ensures TENANT_DISPLAY_NAME == "CROWDRELAY_TENANT_DISPLAY_NAME"
  {
  }

  lemma SiteNames()
    ensures PUBLIC_SITE_BASE_URL == "CROWDRELAY_PUBLIC_SITE_BASE_URL"
    ensures PUBLIC_ORIGIN == "CROWDRELAY_PUBLIC_ORIGIN"
    ensures DEFAULT_COUNTRY_CODE == "CROWDRELAY_DEFAULT_COUNTRY_CODE"
  {
  }

  lemma RegionNames()
    ensures TENANT_REGION == "CROWDRELAY_TENANT_REGION"
    ensures TENANT_LOCALE == "CROWDRELAY_TENANT_LOCALE"
    ensures TENANT_TIMEZONE == "CROWDRELAY_TENANT_TIMEZONE"
    ensures TENANT_CURRENCY == "CROWDRELAY_TENANT_CURRENCY"
  {
  }

  lemma FormatNames()
    ensures TENANT_DATE_FORMAT == "CROWDRELAY_TENANT_DATE_FORMAT"
    ensures TENANT_NUMBER_FORMAT == "CROWDRELAY_TENANT_NUMBER_FORMAT"
    ensures TENANT_DATA_REGION == "CROWDRELAY_TENANT_DATA_REGION"
  {
  }

  lemma SurfaceNames()
    ensures TENANT_COLOR_BACKGROUND == "CROWDRELAY_TENANT_COLOR_BACKGROUND"
    ensures TENANT_COLOR_SURFACE == "CROWDRELAY_TENANT_COLOR_SURFACE"
    ensures TENANT_COLOR_MUTED == "CROWDRELAY_TENANT_COLOR_MUTED"
  {
  }

  lemma ColorNames()
    ensures TENANT_COLOR_ACCENT == "CROWDRELAY_TENANT_COLOR_ACCENT"
    ensures TENANT_COLOR_TEXT == "CROWDRELAY_TENANT_COLOR_TEXT"
    ensures TENANT_COLOR_DANGER == "CROWDRELAY_TENANT_COLOR_DANGER"
    ensures TENANT_COLOR_SUCCESS == "CROWDRELAY_TENANT_COLOR_SUCCESS"
  {
  }

  lemma SpotifyNames()
    ensures BANDSINTOWN_API_KEY == "CROWDRELAY_BANDSINTOWN_API_KEY"
    ensures YOUTUBE_API_KEY == "CROWDRELAY_YOUTUBE_API_KEY"
    ensures SPOTIFY_CLIENT_ID == "CROWDRELAY_SPOTIFY_CLIENT_ID"
  {
  }

  lemma FacebookNames()
    ensures SPOTIFY_CLIENT_SECRET == "CROWDRELAY_SPOTIFY_CLIENT_SECRET"
    ensures FACEBOOK_PAGE_ACCESS_TOKEN == "CROWDRELAY_FACEBOOK_PAGE_ACCESS_TOKEN"
    ensures TIKTOK_CLIENT_KEY == "CROWDRELAY_TIKTOK_CLIENT_KEY"
  {
  }

  lemma LastNames()
    ensures TIKTOK_CLIENT_SECRET == "CROWDRELAY_TIKTOK_CLIENT_SECRET"
    ensures LASTFM_API_KEY == "CROWDRELAY_LASTFM_API_KEY"
    ensures TEAM_MEMBERS_JSON == "CROWDRELAY_TEAM_MEMBERS_JSON"
  {
  }

  lemma IdentitySpelled(plan: Value, repr: Value -> string)
    ensures Identity(plan, repr) == IdentitySettings(plan, repr) && Ranked(Identity(plan, repr), 7, 13)
  {
    IdentityRanks();
    IdentityNames();
    SiteNames();
    hide Rank, Get;
  }

  lemma ProfileSpelled(profile: Value, repr: Value -> string)
    ensures Profile(profile, repr) == ProfileSettings(profile, repr) && Ranked(Profile(profile, repr), 28, 35)
  {
    ProfileRanks();
    RegionNames();
    FormatNames();
    hide Rank, Get;
  }

  lemma PaletteSpelled(palette: Value, repr: Value -> string)
    ensures Palette(palette, repr) == PaletteSettings(palette, repr) && Ranked(Palette(palette, repr), 35, 42)
  {
    PaletteRanks();
    SurfaceNames();
    ColorNames();
    hide Rank, Get;
  }

  lemma ProviderStep(keys: Value, n: nat)
    requires n < |Providers()|
    ensures ProviderEntries(keys, n + 1) == ProviderEntries(keys, n) + OwnAt(keys, n)
  {
    hide Get, Providers, Strip;
    var before := ProviderEntries(keys, n);
    assert before + [] == before;
  }

  lemma {:induction false} ProvidersRanked(keys: Value, n: nat)
    requires n <= |Providers()|
    ensures Ranked(ProviderEntries(keys, n), 42, 42 + n)
  {
    if n > 0 {
      ProvidersRanked(keys, n - 1);
      ProviderStep(keys, n - 1);
      ProviderRanks();
      hide Rank, Get, ProviderEntries, Strip;
      RankedConcat(ProviderEntries(keys, n - 1), OwnAt(keys, n - 1), 42, 41 + n, 42 + n);
    }
  }

  function OwnAt(keys: Value, n: nat): Dict
    requires n < |Providers()|
  {
    Own(keys, Providers()[n].planKey, Providers()[n].envKey)
  }

  lemma FirstProviders(keys: Value)
    ensures |Providers()| == 8
    ensures OwnAt(keys, 0) == Own(keys, "bandsintown", "CROWDRELAY_BANDSINTOWN_API_KEY")
    ensures OwnAt(keys, 1) == Own(keys, "youtube", "CROWDRELAY_YOUTUBE_API_KEY")
    ensures OwnAt(keys, 2) == Own(keys, "spotifyClientId", "CROWDRELAY_SPOTIFY_CLIENT_ID")
  {
    SpotifyNames();
    hide Own;
  }

  lemma NextProviders(keys: Value)
    ensures |Providers()| == 8
    ensures OwnAt(keys, 3) == Own(keys, "spotifyClientSecret", "CROWDRELAY_SPOTIFY_CLIENT_SECRET")
    ensures OwnAt(keys, 4) == Own(keys, "facebookPageToken", "CROWDRELAY_FACEBOOK_PAGE_ACCESS_TOKEN")
    ensures OwnAt(keys, 5) == Own(keys, "tiktokClientKey", "CROWDRELAY_TIKTOK_CLIENT_KEY")
  {
    FacebookNames();
    hide Own;
  }

  lemma LastProviders(keys: Value)
    ensures |Providers()| == 8
    ensures OwnAt(keys, 6) == Own(keys, "tiktokClientSecret", "CROWDRELAY_TIKTOK_CLIENT_SECRET")
    ensures OwnAt(keys, 7) == Own(keys, "lastfm", "CROWDRELAY_LASTFM_API_KEY")
  {
    LastNames();
    hide Own;
  }

  lemma ProvidersSpelled(keys: Value)
    ensures ProviderEntries(keys, |Providers()|) == ProviderSettings(keys) && |Providers()| == 8
    ensures Ranked(ProviderEntries(keys, |Providers()|), 42, 50)
  {
    FirstProviders(keys);
    NextProviders(keys);
    LastProviders(keys);
    ProvidersRanked(keys, |Providers()|);
    assert ProviderEntries(keys, 0) == [] && [] + OwnAt(keys, 0) == OwnAt(keys, 0);
    hide ProviderEntries, Own, Ranked, Providers, OwnAt;
    ProviderStep(keys, 0);
    ProviderStep(keys, 1);
    ProviderStep(keys, 2);
    ProviderStep(keys, 3);
    ProviderStep(keys, 4);
    ProviderStep(keys, 5);
    ProviderStep(keys, 6);
    ProviderStep(keys, 7);
  }

  lemma TeamSpelled(members: Value)
    ensures Team(members) == TeamSettings(members) && Ranked(Team(members), 50, 51)
  {
    LastNames();
    ProviderRanks();
    hide Rank, Dumps;
  }

  lemma ServerRanked()
    ensures Ranked(Server(), 0, 7)
  {
    ServerRanks();
    hide Rank;
  }

  lemma EarlyTuningRanked()
    ensures Ranked(Tuning()[..8], 13, 21)
  {
    TuningRanks();
    hide Rank, REDIRECT_REFRESH_INTERVAL_MS, CLICK_CHANNEL_CAPACITY, CLICK_BATCH_SIZE, CLICK_FLUSH_INTERVAL_MS,
      EVENT_REMINDER_OFFSETS_MINUTES, EVENT_REMINDER_POLL_INTERVAL_MS, AUTOPILOT_ENABLED, AUTOPILOT_POLL_INTERVAL_MS;
  }

  lemma LaterTuningRanked()
    ensures Ranked(Tuning()[8..], 21, 28)
  {
    LaterTuningRanks();
    hide Rank, ADMIN_MEMBER_EMAIL, STAFF_MEMBER_EMAIL, QR_TTL_SECONDS, REQUIRE_DOUBLE_OPT_IN, RANDOM_DRAWS_ENABLED,
      BOOTSTRAP_FILE, RUST_LOG;
  }

  lemma TuningRanked()
    ensures Ranked(Tuning(), 13, 28)
  {
    EarlyTuningRanked();
    LaterTuningRanked();
    var early, later := Tuning()[..8], Tuning()[8..];
    assert early + later == Tuning();
    hide Tuning, Ranked;
    RankedConcat(early, later, 13, 21, 28);
  }

  /** The settings of the file: first those of the server, the tenant's own and the tuning, then the regional profile,
      the palette, the providers' keys and the roster, each as far as the plan has it. All stand there in this order, so
      none has overwritten another. */
  lemma SettingsExactly(plan: Value, repr: Value -> string)
    ensures Values(plan, repr)
         == Server() + IdentitySettings(plan, repr) + Tuning()
            + ProfileSettings(Get(plan, "regionalProfile"), repr) + PaletteSettings(Get(plan, "brandingPalette"), repr)
            + ProviderSettings(Get(plan, "providerKeys")) + TeamSettings(Get(plan, "teamMembers"))
  {
    ServerRanked();
    TuningRanked();
    IdentitySpelled(plan, repr);
    var profile, palette := Get(plan, "regionalProfile"), Get(plan, "brandingPalette");
    var keys, members := Get(plan, "providerKeys"), Get(plan, "teamMembers");
    ProfileSpelled(profile, repr);
    PaletteSpelled(palette, repr);
    ProvidersSpelled(keys);
    TeamSpelled(members);
    hide Ranked, Server, Tuning, Identity, IdentitySettings, Profile, ProfileSettings, Palette, PaletteSettings,
      ProviderEntries, ProviderSettings, Team, TeamSettings, Get, PutAll, Providers;
    var first := Server() + Identity(plan, repr) + Tuning();
    RankedConcat(Server(), Identity(plan, repr), 0, 7, 13);
    RankedConcat(Server() + Identity(plan, repr), Tuning(), 0, 13, 28);
    RankedConcat(first, Profile(profile, repr), 0, 28, 35);
    var second := first + Profile(profile, repr);
    var third := Palette(palette, repr) + ProviderEntries(keys, |Providers()|);
    RankedConcat(Palette(palette, repr), ProviderEntries(keys, |Providers()|), 35, 42, 50);
    RankedConcat(third, Team(members), 35, 50, 51);
    RankedConcat(second, third + Team(members), 0, 35, 51);
    assert [] + first == first;
    PutAllFresh([], first, 28);
    PutAllFresh(first, Profile(profile, repr), 35);
    PutAllFresh(second, Later(plan, repr), 51);
    assert second + (third + Team(members))
        == second + Palette(palette, repr) + ProviderEntries(keys, |Providers()|) + Team(members);
  }

  // ----- Origins and the roster -----

  lemma {:induction false} JoinConcat(a: seq<Value>, b: seq<Value>)
    requires a != [] && b != [] && forall k :: 0 <= k < |a| ==> a[k].Str?
    ensures Join(a + b) == Join(a) + "," + Join(b)
    ensures |a| == 1 ==> Join(a) == a[0].s
  {
    if |a| == 1 {
      assert (a + b)[1..] == b;
    } else {
      JoinConcat(a[1..], b);
      assert (a + b)[1..] == a[1..] + b;
    }
  }

  function Email(member: Value): string {
    var email := Get(member, "email");
    if email.Str? then Lower(Strip(email.s)) else ""
  }

  /** A roster is accepted exactly when every member is and no two share an address, up to case and blanks. */
  lemma {:induction false} MembersOkExactly(members: seq<Value>, seen: set<string>)
    ensures MembersOk(members, seen) <==>
            && (forall k :: 0 <= k < |members| ==> MemberOk(members[k]) && Email(members[k]) !in seen)
            && (forall k, l :: 0 <= k < l < |members| ==> Email(members[k]) != Email(members[l]))
  {
    hide Get, Strip, Lower;
    if members != [] && MemberOk(members[0]) {
      var email, rest := Email(members[0]), members[1..];
      MembersOkExactly(rest, seen + {email});
      hide MemberOk;
      assert forall k :: 0 < k < |members| ==> members[k] == rest[k - 1];
      if MembersOk(members, seen) {
        forall k, l | 0 <= k < l < |members|
          ensures Email(members[k]) != Email(members[l])
        {
          assert Email(rest[l - 1]) !in seen + {email};
          assert k > 0 ==> Email(rest[k - 1]) != Email(rest[l - 1]);
        }
      }
    }
  }

  /** The plan's own tenant id counts before the job's. */
  lemma TenantIdExactly(plan: Value, jobTenantId: Value)
    ensures Get(plan, "tenantId").Str? && Get(plan, "tenantId").s != "" ==>
              TenantId(plan, jobTenantId) == Get(plan, "tenantId")
    ensures Get(plan, "tenantId").Null? || Get(plan, "tenantId") == Str("") ==>
              TenantId(plan, jobTenantId) == jobTenantId
  {
    hide Get;
  }

  // ----- Reading JSON strings back -----

  function HexAt(c: char): int {
    if '0' <= c <= '9' then c as int - '0' as int
    else if 'a' <= c <= 'f' then c as int - 'a' as int + 10
    else if 'A' <= c <= 'F' then c as int - 'A' as int + 10
    else -1
  }

  /** The code unit of `\\uXXXX`. */
  function Unit(s: string): int {
    if |s| >= 6 && s[0] == '\\' && s[1] == 'u'
       && HexAt(s[2]) >= 0 && HexAt(s[3]) >= 0 && HexAt(s[4]) >= 0 && HexAt(s[5]) >= 0
    then 4096 * HexAt(s[2]) + 256 * HexAt(s[3]) + 16 * HexAt(s[4]) + HexAt(s[5]) else -1
  }

  predicate Character(n: int) {
    0 <= n < 0xd800 || 0xe000 <= n < 0x110000
  }

  /** One character of a JSON string and how long it is written; none for what is no character. */
  function ReadChar(s: string): (r: (int, nat))
    requires s != ""
    ensures r.1 <= |s|
  {
    if s[0] != '\\' then (s[0] as int, 1)
    else if Unit(s) >= 0 then
      var high, low := Unit(s), if |s| >= 12 then Unit(s[6..]) else -1;
      if 0xd800 <= high < 0xdc00 && 0xdc00 <= low < 0xe000
      then (0x10000 + 1024 * (high - 0xd800) + (low - 0xdc00), 12) else (high, 6)
    else if |s| < 2 then (-1, 0)
    else
      (match s[1]
       case 'n' => 10 case 'r' => 13 case 't' => 9 case 'f' => 12 case 'b' => 8
       case '"' => 34 case '\\' => 92 case '/' => 47 case _ => -1, 2)
  }

  /** A JSON string from after its opening quote, and what follows its closing one. */
  function ReadString(s: string): (r: Option<(string, string)>)
    ensures r.Some? ==> |r.value.1| < |s|
    decreases |s|
  {
    if s == "" then None
    else if s[0] == '"' then Some(("", s[1..]))
    else
      var (n, size) := ReadChar(s);
      if size == 0 || !Character(n) then None
      else
        match ReadString(s[size..])
        case None => None
        case Some((text, rest)) => Some(([n as char] + text, rest))
  }

  lemma UnitOfUnicode(n: nat, more: string)
    requires n < 0x10000
    ensures Unit(Unicode(n) + more) == n && |Unicode(n)| == 6 && (Unicode(n) + more)[6..] == more
    ensures (Unicode(n) + more)[0] == '\\'
  {
    var s := Unicode(n) + more;
    assert forall k :: 0 <= k < 6 ==> s[k] == Unicode(n)[k];
    HexAtHex(n / 4096);
    HexAtHex(n / 256 % 16);
    HexAtHex(n / 16 % 16);
    HexAtHex(n % 16);
    hide Hex, HexAt;
    Nibbles(n);
  }

  lemma HexAtHex(n: nat)
    requires n < 16
    ensures HexAt(Hex(n)) == n
  {
  }

  lemma Nibbles(n: nat)
    requires n < 0x10000
    ensures n == 4096 * (n / 4096) + 256 * (n / 256 % 16) + 16 * (n / 16 % 16) + n % 16
  {
    assert n / 16 / 16 == n / 256 && n / 256 / 16 == n / 4096;
  }

  /** An escaped character reads back, whatever follows it. */
  ghost predicate ReadsBackChar(c: char, more: string) {
    var s := EscapeChar(c) + more;
    && s != "" && s[0] != '"' && ReadChar(s) == (c as int, |EscapeChar(c)|) && s[|EscapeChar(c)|..] == more
    && Character(c as int)
  }

  lemma CharReadsBack(c: char, more: string)
    ensures ReadsBackChar(c, more)
  {
    hide ReadsBackChar;
    if c in ['"', '\\', '\n', '\r', '\t', '\U{c}', '\U{8}'] {
      ShortEscape(c, more);
    } else if ' ' <= c <= '~' {
      PlainChar(c, more);
    } else if c as int < 0x10000 {
      OneUnit(c, more);
    } else {
      TwoUnits(c, more);
    }
  }

  lemma PlainChar(c: char, more: string)
    requires EscapeChar(c) == [c] && c != '"' && c != '\\'
    ensures ReadsBackChar(c, more)
  {
    hide EscapeChar;
    assert ([c] + more)[1..] == more;
  }

  lemma OneUnit(c: char, more: string)
    requires c as int < 0x10000 && EscapeChar(c) == Unicode(c as int)
    ensures ReadsBackChar(c, more)
  {
    hide EscapeChar, Unicode, Unit;
    UnitOfUnicode(c as int, more);
  }

  lemma TwoUnits(c: char, more: string)
    requires c as int >= 0x10000 && EscapeChar(c) == Surrogates(c as int)
    ensures ReadsBackChar(c, more)
  {
    hide EscapeChar, Unicode, Unit;
    var n := c as int - 0x10000;
    var high, low := 0xd800 + n / 1024, 0xdc00 + n % 1024;
    UnitOfUnicode(high, Unicode(low) + more);
    UnitOfUnicode(low, more);
    var s := Surrogates(c as int) + more;
    assert s == Unicode(high) + (Unicode(low) + more);
    assert s[12..] == (Unicode(low) + more)[6..];
  }

  lemma ShortEscape(c: char, more: string)
    requires c in ['"', '\\', '\n', '\r', '\t', '\U{c}', '\U{8}']
    ensures ReadsBackChar(c, more)
  {
    var s := EscapeChar(c) + more;
    assert |EscapeChar(c)| == 2 && s[2..] == more && s[0] == '\\' && s[1] == EscapeChar(c)[1];
    assert s[1] != 'u';
  }

  /** A text that `json.dumps` writes between quotes reads back as itself, with whatever follows left over. */
  lemma {:induction false} StringReadsBack(text: string, rest: string)
    ensures ReadString(Escape(text) + "\"" + rest) == Some((text, rest))
  {
    hide EscapeChar, ReadChar, Character;
    if text == "" {
      assert (Escape(text) + "\"" + rest)[1..] == rest;
    } else {
      var more := Escape(text[1..]) + "\"" + rest;
      StringReadsBack(text[1..], rest);
      CharReadsBack(text[0], more);
      StringStep(text[0], more, text[1..], rest);
      assert Escape(text) + "\"" + rest == EscapeChar(text[0]) + more;
      assert text == [text[0]] + text[1..];
    }
  }

  lemma StringStep(c: char, more: string, text: string, rest: string)
    requires ReadsBackChar(c, more) && ReadString(more) == Some((text, rest))
    ensures ReadString(EscapeChar(c) + more) == Some(([c] + text, rest))
  {
    hide EscapeChar, ReadChar;
    assert |EscapeChar(c)| > 0 by {
      EscapeSome(c);
    }
  }

  lemma EscapeSome(c: char)
    ensures EscapeChar(c) != ""
  {
  }
}
