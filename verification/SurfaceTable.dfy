/** The surface's own table, row by row, and why its order never matters. */
module SurfaceTable {
  import opened Surface
  import opened FormUrlencoded
  import opened Wrappers

  type Segment = s: string | '/' !in s && '?' !in s witness "a"

  datatype Row = Row(method_: string, segments: seq<Segment>, query: seq<string>, platformOnly: bool)

  function Read(segments: seq<Segment>): Row {
    ReadWith(segments, [])
  }

  function ReadWith(segments: seq<Segment>, query: seq<string>): Row {
    Row("GET", segments, query, false)
  }

  function Write(method_: string, segments: seq<Segment>): Row {
    Row(method_, segments, [], false)
  }

  function Platform(row: Row): Row {
    row.(platformOnly := true)
  }

  // ----- The table -----

  // Long segments are put together from short pieces: the solver unfolds a literal character by character wherever the
  // subset type `Segment` is checked.

  const REFERRAL_CONVERSION: Segment := "referral-" + "conversion"
  const COMMERCE_SUMMARY: Segment := "commerce-" + "summary"
  const PROMOTION_RECOMMENDATIONS: Segment := "promotion-" + "recommendations"
  const MERCH_ECONOMICS: Segment := "merch-" + "economics"
  const TICKET_ALLOCATION_GUARDRAILS: Segment := "ticket-allocation-" + "guardrails"
  const PROMOTION_BUDGET_GUARDRAILS: Segment := "promotion-budget-" + "guardrails"
  const REWARD_CAMPAIGNS: Segment := "reward-" + "campaigns"
  const REWARD_FULFILLMENTS: Segment := "reward-" + "fulfillments"
  const CONTENT_SOURCES: Segment := "content-" + "sources"
  const RELEASE_OUTCOMES: Segment := "release-" + "outcomes"
  const EDITORIAL_PITCH: Segment := "editorial-" + "pitch"
  const PLAYLIST_PLACEMENTS: Segment := "playlist-" + "placements"
  const BEACON_RELEASE_CAMPAIGNS: Segment := "beacon-release-" + "campaigns"
  const OUTREACH_CONTACTS: Segment := "outreach-" + "contacts"
  const OUTREACH_TARGETS: Segment := "outreach-" + "targets"
  const SUBMISSION_CHANNELS: Segment := "submission-" + "channels"
  const BOOKING_TARGETS: Segment := "booking-" + "targets"
  const TEAM_OPPORTUNITIES: Segment := "team-" + "opportunities"
  const CONTENT_SUGGESTIONS: Segment := "content-" + "suggestions"
  const COMMUNITY_REPLIES: Segment := "community-" + "replies"
  const REGISTER_MANUAL: Segment := "register-" + "manual"
  const AUDIENCE_PREVIEW: Segment := "audience-" + "preview"

  function Work(): seq<Row> {
    [ ReadWith(["ops", "cycles"], ["state", "limit"]),
      Read(["ops", "goal"]),
      Read(["content", "hooks"]),
      ReadWith(["content", "videos", "scorecards"], ["limit"]) ]
  }

  function Health(): seq<Row> {
    [ Read(["ops", "connections"]),
      Read(["ops", "action-states"]),
      Read(["ecosystem", "overview"]),
      ReadWith(["ecosystem", "findings"], ["limit", "open_only"]),
      Read(["autopilot", "reach-metrics"]) ]
  }

  function Analytics(): seq<Row> {
    [ Read(["analytics", "funnel"]),
      Read(["analytics", "revenue"]),
      Read(["analytics", REFERRAL_CONVERSION]),
      Read(["analytics", "ad-conversion"]),
      Read(["analytics", "ad-conversion", "breakdown"]) ]
  }

  function Campaigns(): seq<Row> {
    [ Read(["communications", "campaigns"]),
      Write("POST", ["communications", "campaigns"]),
      Write("POST", ["communications", "campaigns", "{campaign_id}", "schedule"]),
      Write("POST", ["communications", "campaigns", "{campaign_id}", "cancel"]) ]
  }

  function Links(): seq<Row> {
    [ Read(["smart-links"]),
      Write("POST", ["smart-links"]),
      Write("POST", ["audience", "fans", "{fan_id}", "referral-code"]) ]
  }

  function Shows(): seq<Row> {
    [ Read(["events", "{event_slug}", "ticketing"]),
      Write("PUT", ["events", "{event_slug}", "support-slots"]),
      Write("PUT", ["events", "{event_slug}", "festival"]),
      Read(["events", "{event_id}", COMMERCE_SUMMARY]) ]
  }

  function ShowCosts(): seq<Row> {
    [ Write("POST", ["events", "{event_id}", "show-cost", "prediction"]),
      Write("POST", ["events", "{event_id}", "show-cost", "settlement"]),
      Read(["ecosystem", "checklists", "{event_slug}"]),
      Write("POST", ["ecosystem", "checklists", "{event_slug}", "{item_key}"]) ]
  }

  function DoorCodes(): seq<Row> {
    [ ReadWith(["event-qr", "campaigns"], ["limit"]),
      Write("POST", ["event-qr", "campaigns"]),
      Write("POST", ["event-qr", "campaigns", "{campaign_id}", "revoke"]),
      Write("POST", ["event-qr", "campaigns", "{campaign_id}", "context"]) ]
  }

  function Catalog(): seq<Row> {
    [ Read(["merch", "catalog"]),
      Write("POST", ["merch", "catalog"]),
      Read(["merch", "inventory", "overview"]),
      Read(["merch", "inventory", "activation"]) ]
  }

  function Stock(): seq<Row> {
    [ Write("POST", ["merch", "inventory", "stocktakes"]),
      Write("POST", ["merch", "inventory", "ready"]),
      Write("POST", ["merch", "inventory", "adjustments"]),
      Read(["merch", PROMOTION_RECOMMENDATIONS]) ]
  }

  function Guardrails(): seq<Row> {
    [ Write("POST", ["autopilot", MERCH_ECONOMICS]),
      Write("POST", ["autopilot", TICKET_ALLOCATION_GUARDRAILS]),
      Write("POST", ["autopilot", PROMOTION_BUDGET_GUARDRAILS]) ]
  }

  function Rewards(): seq<Row> {
    [ Read([REWARD_CAMPAIGNS]),
      Write("POST", [REWARD_CAMPAIGNS]),
      Write("POST", [REWARD_CAMPAIGNS, "{draw_id}", "schedule"]),
      Write("POST", [REWARD_CAMPAIGNS, "{draw_id}", "cancel"]) ]
  }

  function Fulfillments(): seq<Row> {
    [ Read([REWARD_FULFILLMENTS]),
      Write("POST", [REWARD_FULFILLMENTS, "{winner_id}"]) ]
  }

  function Releases(): seq<Row> {
    [ Write("POST", ["autopilot", CONTENT_SOURCES, "{source_id}", "promote"]),
      Read(["autopilot", "releases"]),
      Write("POST", ["autopilot", "releases"]),
      Read(["autopilot", "release-ledger"]) ]
  }

  function Placements(): seq<Row> {
    [ Read(["autopilot", RELEASE_OUTCOMES]),
      Write("POST", ["autopilot", "releases", "{release_id}", EDITORIAL_PITCH]) ]
  }

  function ReleaseFollowUp(): seq<Row> {
    [ Write("POST", ["autopilot", PLAYLIST_PLACEMENTS]),
      Write("POST", ["autopilot", BEACON_RELEASE_CAMPAIGNS, "{campaign_id}", "recipients", "{beacon_id}"]) ]
  }

  function Outreach(): seq<Row> {
    [ Read(["autopilot", "outreach-waves"]),
      Write("POST", ["autopilot", "outreach-waves", "{wave_id}", "approve"]),
      ReadWith(["autopilot", OUTREACH_CONTACTS], ["state", "kind", "limit"]),
      Write("POST", ["autopilot", OUTREACH_TARGETS]),
      Write("POST", ["autopilot", OUTREACH_TARGETS, "{target_id}", "reply"]) ]
  }

  function Conversations(): seq<Row> {
    [ Write("POST", ["autopilot", OUTREACH_TARGETS, "{target_id}", "written"]),
      Read(["autopilot", OUTREACH_TARGETS, "{target_id}", "conversation"]),
      Write("POST", ["autopilot", OUTREACH_TARGETS, "{target_id}", "suppression"]),
      Write("POST", ["autopilot", "outreach", SUBMISSION_CHANNELS]) ]
  }

  function Booking(): seq<Row> {
    [ Write("POST", ["autopilot", BOOKING_TARGETS]),
      Write("POST", ["autopilot", BOOKING_TARGETS, "{target_id}", "editions"]),
      Write("POST", ["autopilot", BOOKING_TARGETS, "{target_id}", "reply"]),
      Write("POST", ["autopilot", BOOKING_TARGETS, "{target_id}", "venues", "{venue_id}"]),
      Write("DELETE", ["autopilot", BOOKING_TARGETS, "{target_id}", "venues", "{venue_id}"]) ]
  }

  function BookingPolicy(): seq<Row> {
    [ Read(["autopilot", "manager-config", "booking-policy"]),
      Write("POST", ["autopilot", "manager-config", "booking-policy"]) ]
  }

  function Opportunities(): seq<Row> {
    [ Write("POST", ["autopilot", TEAM_OPPORTUNITIES, "discover"]),
      Write("POST", ["autopilot", TEAM_OPPORTUNITIES, "{opportunity_id}", "progress"]) ]
  }

  function Actions(): seq<Row> {
    [ Write("POST", ["autopilot", "actions", "approve"]),
      Write("POST", ["autopilot", "actions", "{action_id}", "assign"]),
      Write("POST", ["autopilot", "actions", "{action_id}", "revise"]),
      Write("POST", ["autopilot", CONTENT_SUGGESTIONS, "{suggestion_id}", "outcome"]) ]
  }

  function Spread(): seq<Row> {
    [ Write("POST", ["autopilot", CONTENT_SOURCES, "{source_id}", "relay-ladder", "approve"]),
      Write("POST", ["autopilot", CONTENT_SOURCES, "{source_id}", "relay-ladder", "revoke"]) ]
  }

  function Replies(): seq<Row> {
    [ Read([COMMUNITY_REPLIES]),
      Write("POST", [COMMUNITY_REPLIES, "{reply_id}", "approve"]),
      Write("POST", [COMMUNITY_REPLIES, "{reply_id}", "skip"]) ]
  }

  function ManualPosts(): seq<Row> {
    [ Write("POST", ["telegram-posts", "{telegram_post_id}", REGISTER_MANUAL]),
      Write("POST", ["discord-posts", "{discord_post_id}", REGISTER_MANUAL]) ]
  }

  function Places(): seq<Row> {
    [ Read(["audience-graph", "places", "{place_id}"]),
      Write("PUT", ["audience-graph", "places", "{place_id}", "rules"]),
      Write("POST", ["audience-graph", "places", "{place_id}", "evidence"]),
      Write("POST", ["audience-graph", "places", "{place_id}", "outreach", "advance"]) ]
  }

  function Peers(): seq<Row> {
    [ Platform(ReadWith(["content-engine", "peers"], ["status"])),
      Platform(Write("POST", ["content-engine", "peers"])),
      Platform(Write("POST", ["content-engine", "peers", "{peer_id}", "resolve"])) ]
  }

  function Portfolio(): seq<Row> {
    [ Write("POST", ["portfolio", "amplification"]),
      Read(["portfolio", "amplification", "{consent_id}", AUDIENCE_PREVIEW]),
      Write("POST", ["portfolio", "amplification", "{consent_id}", "campaign"]),
      Write("POST", ["portfolio", "import-fans"]),
      Read(["portfolio", "case-study"]) ]
  }

  // ----- Telling rows apart -----

  /** Length and third letter: enough to tell apart the words that any two rows differ in. */
  predicate Is(s: string, n: nat, c: char) {
    |s| == n && n > 2 && s[2] == c
  }

  function GetOne(parts: seq<string>): nat
    requires |parts| == 1
  {
    if Is(parts[0], 11, 'a') then 18
    else if Is(parts[0], 16, 'w') then 44
    else if Is(parts[0], 19, 'w') then 48
    else 82
  }

  function GetTwo(parts: seq<string>): nat
    requires |parts| == 2
  {
    if Is(parts[0], 3, 's') then (
      if Is(parts[1], 6, 'c') then 0
      else if Is(parts[1], 4, 'a') then 1
      else if Is(parts[1], 11, 'n') then 4
      else 5)
    else if Is(parts[0], 7, 'n') then 2
    else if Is(parts[0], 9, 'o') then (
      if Is(parts[1], 8, 'e') then 6
      else 7)
    else if Is(parts[0], 9, 't') then (
      if Is(parts[1], 13, 'a') then 8
      else if Is(parts[1], 8, 'l') then 51
      else if Is(parts[1], 14, 'l') then 53
      else if Is(parts[1], 16, 'l') then 54
      else if Is(parts[1], 14, 't') then 58
      else 60)
    else if Is(parts[0], 9, 'a') then (
      if Is(parts[1], 6, 'n') then 9
      else if Is(parts[1], 7, 'v') then 10
      else if Is(parts[1], 19, 'f') then 11
      else 12)
    else if Is(parts[0], 14, 'm') then 14
    else if Is(parts[0], 8, 'e') then 29
    else if Is(parts[0], 5, 'r') then (
      if Is(parts[1], 7, 't') then 33
      else 40)
    else if Is(parts[0], 14, 'n') then 91
    else 98
  }

  function GetThree(parts: seq<string>): nat
    requires |parts| == 3
  {
    if Is(parts[0], 7, 'n') then 3
    else if Is(parts[0], 9, 'a') then 13
    else if Is(parts[0], 6, 'e') then (
      if Is(parts[2], 9, 'c') then 21
      else 24)
    else if Is(parts[0], 9, 'o') then 27
    else if Is(parts[0], 5, 'r') then (
      if Is(parts[2], 8, 'e') then 35
      else 36)
    else if Is(parts[0], 9, 't') then 72
    else 87
  }

  function GetFour(parts: seq<string>): nat
    requires |parts| == 4
  {
    if Is(parts[0], 9, 't') then 64
    else 95
  }

  function PostOne(parts: seq<string>): nat
    requires |parts| == 1
  {
    if Is(parts[0], 11, 'a') then 19
    else 45
  }

  function PostTwo(parts: seq<string>): nat
    requires |parts| == 2
  {
    if Is(parts[0], 14, 'm') then 15
    else if Is(parts[0], 8, 'e') then 30
    else if Is(parts[0], 5, 'r') then 34
    else if Is(parts[0], 9, 't') then (
      if Is(parts[1], 15, 'r') then 41
      else if Is(parts[1], 28, 'c') then 42
      else if Is(parts[1], 27, 'o') then 43
      else if Is(parts[1], 8, 'l') then 52
      else if Is(parts[1], 19, 'a') then 56
      else if Is(parts[1], 16, 't') then 61
      else 67)
    else if Is(parts[0], 19, 'w') then 49
    else if Is(parts[0], 14, 'n') then 92
    else if Is(parts[1], 13, 'p') then 94
      else 97
  }

  function PostThree(parts: seq<string>): nat
    requires |parts| == 3
  {
    if Is(parts[0], 5, 'r') then (
      if Is(parts[2], 10, 'o') then 37
      else if Is(parts[2], 5, 'a') then 38
      else 39)
    else if Is(parts[0], 16, 'w') then (
      if Is(parts[2], 8, 'h') then 46
      else 47)
    else if Is(parts[0], 9, 't') then (
      if Is(parts[1], 8, 't') then 66
      else if Is(parts[1], 14, 'n') then 73
      else if Is(parts[1], 18, 'a') then 74
      else 76)
    else if Is(parts[0], 17, 'm') then (
      if Is(parts[2], 7, 'p') then 83
      else 84)
    else if Is(parts[0], 14, 'l') then 85
    else 86
  }

  function PostFour(parts: seq<string>): nat
    requires |parts| == 4
  {
    if Is(parts[0], 14, 'm') then (
      if Is(parts[3], 8, 'h') then 16
      else 17)
    else if Is(parts[0], 8, 'd') then 20
    else if Is(parts[0], 6, 'e') then (
      if Is(parts[3], 10, 'e') then 25
      else 26)
    else if Is(parts[0], 9, 'o') then 28
    else if Is(parts[0], 8, 'e') then (
      if Is(parts[3], 6, 'v') then 31
      else 32)
    else if Is(parts[0], 9, 't') then (
      if Is(parts[1], 15, 'n') then 50
      else if Is(parts[1], 8, 'l') then 55
      else if Is(parts[1], 14, 't') then 59
      else if Is(parts[1], 16, 't') then (
        if Is(parts[3], 5, 'p') then 62
        else if Is(parts[3], 7, 'i') then 63
        else 65)
      else if Is(parts[1], 15, 'o') then (
        if Is(parts[3], 8, 'i') then 68
        else 69)
      else if Is(parts[1], 18, 'a') then 75
      else if Is(parts[1], 7, 't') then (
        if Is(parts[3], 6, 's') then 77
        else 78)
      else 79)
    else if Is(parts[0], 14, 'd') then 89
    else if Is(parts[0], 14, 'n') then 93
    else 96
  }

  function PostFive(parts: seq<string>): nat
    requires |parts| == 5
  {
    if Is(parts[0], 9, 't') then (
      if Is(parts[1], 24, 'a') then 57
      else if Is(parts[1], 15, 'o') then 70
      else if Is(parts[4], 7, 'p') then 80
        else 81)
    else 90
  }

  function PutThree(parts: seq<string>): nat
    requires |parts| == 3
  {
    if Is(parts[2], 13, 'p') then 22
    else 23
  }

  function PutFour(parts: seq<string>): nat
    requires |parts| == 4
  {
    88
  }

  function DeleteFive(parts: seq<string>): nat
    requires |parts| == 5
  {
    71
  }

  /** The only row that a path's segments can fit, whatever its parameters hold. */
  function RowOf(method_: string, parts: seq<string>): nat {
    var n := |parts|;
    if |method_| == 3 && method_[0] == 'G' then (
      if n == 1 then GetOne(parts) else if n == 2 then GetTwo(parts) else if n == 3 then GetThree(parts)
      else if n == 4 then GetFour(parts) else 0)
    else if |method_| == 4 then (
      if n == 1 then PostOne(parts) else if n == 2 then PostTwo(parts) else if n == 3 then PostThree(parts)
      else if n == 4 then PostFour(parts) else if n == 5 then PostFive(parts) else 0)
    else if |method_| == 3 && method_[0] == 'P' then (
      if n == 3 then PutThree(parts) else if n == 4 then PutFour(parts) else 0)
    else if n == 5 then DeleteFive(parts) else 0
  }

  ghost predicate Numbered(rows: seq<Row>, base: nat) {
    && (forall k :: 0 <= k < |rows| ==> rows[k].segments != [])
    && forall k, parts :: 0 <= k < |rows| && AllFit(rows[k].segments, parts) ==>
         RowOf(rows[k].method_, parts) == base + k
  }

  lemma WorkNumbered()
    ensures Numbered(Work(), 0) && |Work()| == 4
  {
    hide IsUuid, SlugSegment, EndsWithId;
  }

  lemma HealthNumbered()
    ensures Numbered(Health(), 4) && |Health()| == 5
  {
    hide IsUuid, SlugSegment, EndsWithId;
  }

  lemma AnalyticsNumbered()
    ensures Numbered(Analytics(), 9) && |Analytics()| == 5
  {
    hide IsUuid, SlugSegment, EndsWithId;
  }

  lemma CampaignsNumbered()
    ensures Numbered(Campaigns(), 14) && |Campaigns()| == 4
  {
    hide IsUuid, SlugSegment, EndsWithId;
  }

  lemma LinksNumbered()
    ensures Numbered(Links(), 18) && |Links()| == 3
  {
    hide IsUuid, SlugSegment, EndsWithId;
  }

  lemma ShowsNumbered()
    ensures Numbered(Shows(), 21) && |Shows()| == 4
  {
    hide IsUuid, SlugSegment, EndsWithId;
  }

  lemma ShowCostsNumbered()
    ensures Numbered(ShowCosts(), 25) && |ShowCosts()| == 4
  {
    hide IsUuid, SlugSegment, EndsWithId;
  }

  lemma DoorCodesNumbered()
    ensures Numbered(DoorCodes(), 29) && |DoorCodes()| == 4
  {
    hide IsUuid, SlugSegment, EndsWithId;
  }

  lemma CatalogNumbered()
    ensures Numbered(Catalog(), 33) && |Catalog()| == 4
  {
    hide IsUuid, SlugSegment, EndsWithId;
  }

  lemma StockNumbered()
    ensures Numbered(Stock(), 37) && |Stock()| == 4
  {
    hide IsUuid, SlugSegment, EndsWithId;
  }

  lemma GuardrailsNumbered()
    ensures Numbered(Guardrails(), 41) && |Guardrails()| == 3
  {
    hide IsUuid, SlugSegment, EndsWithId;
  }

  lemma RewardsNumbered()
    ensures Numbered(Rewards(), 44) && |Rewards()| == 4
  {
    hide IsUuid, SlugSegment, EndsWithId;
  }

  lemma FulfillmentsNumbered()
    ensures Numbered(Fulfillments(), 48) && |Fulfillments()| == 2
  {
    hide IsUuid, SlugSegment, EndsWithId;
  }

  lemma ReleasesNumbered()
    ensures Numbered(Releases(), 50) && |Releases()| == 4
  {
    hide IsUuid, SlugSegment, EndsWithId;
  }

  lemma PlacementsNumbered()
    ensures Numbered(Placements(), 54) && |Placements()| == 2
  {
    hide IsUuid, SlugSegment, EndsWithId;
  }

  lemma ReleaseFollowUpNumbered()
    ensures Numbered(ReleaseFollowUp(), 56) && |ReleaseFollowUp()| == 2
  {
    hide IsUuid, SlugSegment, EndsWithId;
  }

  lemma WavesNumbered(k: nat, parts: seq<string>)
    requires k < 3 && AllFit(Outreach()[k].segments, parts)
    ensures RowOf(Outreach()[k].method_, parts) == 58 + k
  {
    hide IsUuid, SlugSegment, EndsWithId;
  }

  lemma TargetsNumbered(k: nat, parts: seq<string>)
    requires 3 <= k < 5 && AllFit(Outreach()[k].segments, parts)
    ensures RowOf(Outreach()[k].method_, parts) == 58 + k
  {
    hide IsUuid, SlugSegment, EndsWithId;
  }

  lemma OutreachNumbered()
    ensures Numbered(Outreach(), 58) && |Outreach()| == 5
  {
    hide RowOf, AllFit;
    forall k, parts | 0 <= k < |Outreach()| && AllFit(Outreach()[k].segments, parts)
      ensures RowOf(Outreach()[k].method_, parts) == 58 + k
    {
      if k < 3 {
        WavesNumbered(k, parts);
      } else {
        TargetsNumbered(k, parts);
      }
    }
  }

  lemma ConversationsNumbered()
    ensures Numbered(Conversations(), 63) && |Conversations()| == 4
  {
    hide IsUuid, SlugSegment, EndsWithId;
  }

  lemma BookingNumbered()
    ensures Numbered(Booking(), 67) && |Booking()| == 5
  {
    hide IsUuid, SlugSegment, EndsWithId;
  }

  lemma BookingPolicyNumbered()
    ensures Numbered(BookingPolicy(), 72) && |BookingPolicy()| == 2
  {
    hide IsUuid, SlugSegment, EndsWithId;
  }

  lemma OpportunitiesNumbered()
    ensures Numbered(Opportunities(), 74) && |Opportunities()| == 2
  {
    hide IsUuid, SlugSegment, EndsWithId;
  }

  lemma ActionsNumbered()
    ensures Numbered(Actions(), 76) && |Actions()| == 4
  {
    hide IsUuid, SlugSegment, EndsWithId;
  }

  lemma SpreadNumbered()
    ensures Numbered(Spread(), 80) && |Spread()| == 2
  {
    hide IsUuid, SlugSegment, EndsWithId;
  }

  lemma RepliesNumbered()
    ensures Numbered(Replies(), 82) && |Replies()| == 3
  {
    hide IsUuid, SlugSegment, EndsWithId;
  }

  lemma ManualPostsNumbered()
    ensures Numbered(ManualPosts(), 85) && |ManualPosts()| == 2
  {
    hide IsUuid, SlugSegment, EndsWithId;
  }

  lemma PlacesNumbered()
    ensures Numbered(Places(), 87) && |Places()| == 4
  {
    hide IsUuid, SlugSegment, EndsWithId;
  }

  lemma PeersNumbered()
    ensures Numbered(Peers(), 91) && |Peers()| == 3
  {
    hide IsUuid, SlugSegment, EndsWithId;
  }

  lemma PortfolioNumbered()
    ensures Numbered(Portfolio(), 94) && |Portfolio()| == 5
  {
    hide IsUuid, SlugSegment, EndsWithId;
  }

  /** `SURFACE`. */
  function Rows(): seq<Row> {
    Work() + Health() + Analytics() + Campaigns() + Links() + Shows() + ShowCosts()
    + DoorCodes() + Catalog() + Stock() + Guardrails() + Rewards() + Fulfillments() + Releases()
    + Placements() + ReleaseFollowUp() + Outreach() + Conversations() + Booking() + BookingPolicy() + Opportunities()
    + Actions() + Spread() + Replies() + ManualPosts() + Places() + Peers() + Portfolio()
  }

  lemma {:induction false} Extended(rows: seq<Row>, more: seq<Row>) returns (all: seq<Row>)
    requires Numbered(rows, 0) && Numbered(more, |rows|)
    ensures all == rows + more && Numbered(all, 0) && |all| == |rows| + |more|
  {
    hide RowOf, AllFit;
    all := rows + more;
    forall k, parts | 0 <= k < |all| && AllFit(all[k].segments, parts)
      ensures RowOf(all[k].method_, parts) == k
    {
      if k >= |rows| {
        assert all[k] == more[k - |rows|];
      }
    }
  }

  /** A path's segments fit at most one row of each method: the one `RowOf` names. */
  lemma {:induction false} RowsNumbered()
    ensures Numbered(Rows(), 0) && |Rows()| == 99
  {
    hide Work, Health, Analytics, Campaigns, Links, Shows, ShowCosts, DoorCodes, Catalog, Stock, Guardrails, Rewards,
      Fulfillments, Releases, Placements, ReleaseFollowUp, Outreach, Conversations, Booking, BookingPolicy,
      Opportunities, Actions, Spread, Replies, ManualPosts, Places, Peers, Portfolio, Numbered;
    var rows: seq<Row> := Work();
    WorkNumbered();
    HealthNumbered();
    rows := Extended(rows, Health());
    AnalyticsNumbered();
    rows := Extended(rows, Analytics());
    CampaignsNumbered();
    rows := Extended(rows, Campaigns());
    LinksNumbered();
    rows := Extended(rows, Links());
    ShowsNumbered();
    rows := Extended(rows, Shows());
    ShowCostsNumbered();
    rows := Extended(rows, ShowCosts());
    DoorCodesNumbered();
    rows := Extended(rows, DoorCodes());
    CatalogNumbered();
    rows := Extended(rows, Catalog());
    StockNumbered();
    rows := Extended(rows, Stock());
    GuardrailsNumbered();
    rows := Extended(rows, Guardrails());
    RewardsNumbered();
    rows := Extended(rows, Rewards());
    FulfillmentsNumbered();
    rows := Extended(rows, Fulfillments());
    ReleasesNumbered();
    rows := Extended(rows, Releases());
    PlacementsNumbered();
    rows := Extended(rows, Placements());
    ReleaseFollowUpNumbered();
    rows := Extended(rows, ReleaseFollowUp());
    OutreachNumbered();
    rows := Extended(rows, Outreach());
    ConversationsNumbered();
    rows := Extended(rows, Conversations());
    BookingNumbered();
    rows := Extended(rows, Booking());
    BookingPolicyNumbered();
    rows := Extended(rows, BookingPolicy());
    OpportunitiesNumbered();
    rows := Extended(rows, Opportunities());
    ActionsNumbered();
    rows := Extended(rows, Actions());
    SpreadNumbered();
    rows := Extended(rows, Spread());
    RepliesNumbered();
    rows := Extended(rows, Replies());
    ManualPostsNumbered();
    rows := Extended(rows, ManualPosts());
    PlacesNumbered();
    rows := Extended(rows, Places());
    PeersNumbered();
    rows := Extended(rows, Peers());
    PortfolioNumbered();
    rows := Extended(rows, Portfolio());
  }

  // ----- The table's two guarantees -----

  function EntryOf(row: Row): Entry {
    Entry(row.method_, if row.segments == [] then "" else Join(row.segments, '/'), row.query, row.platformOnly)
  }

  function Table(): (table: seq<Entry>)
    ensures |table| == |Rows()|
  {
    seq(|Rows()|, k requires 0 <= k < |Rows()| => EntryOf(Rows()[k]))
  }

  lemma EntrySplits(row: Row)
    requires row.segments != []
    ensures Split(EntryOf(row).path, '/') == row.segments && '?' !in EntryOf(row).path
  {
    hide Split, Join;
    SplitJoin(row.segments, '/');
    SplitAbsent(EntryOf(row).path, '/', '?');
  }

  lemma RowSplits(k: nat)
    requires k < |Rows()|
    ensures Split(Table()[k].path, '/') == Rows()[k].segments && '?' !in Table()[k].path
  {
    hide Rows, Split;
    RowsNumbered();
    EntrySplits(Rows()[k]);
  }

  lemma {:induction false} RowIs(k: nat, path: string)
    requires k < |Rows()| && FitsTemplate(Table()[k].path, path)
    ensures RowOf(Table()[k].method_, Split(path, '/')) == k
  {
    hide Rows, Split, RowOf, AllFit;
    RowsNumbered();
    RowSplits(k);
  }

  /** No template holds a `?`, and no path fits two entries of one method. */
  lemma {:induction false} TableIsUnambiguous()
    ensures PlainTable(Table()) && NoOverlap(Table())
  {
    hide Rows, Split, RowOf, FitsTemplate, PatternsOverlap;
    forall k | 0 <= k < |Table()|
      ensures '?' !in Table()[k].path
    {
      RowSplits(k);
    }
    forall i, j | 0 <= i < j < |Table()| && Table()[i].method_ == Table()[j].method_
      ensures !PatternsOverlap(Split(Table()[i].path, '/'), Split(Table()[j].path, '/'))
    {
      NeverBoth(i, j);
    }
  }

  lemma {:induction false} NeverBoth(i: nat, j: nat)
    requires i < j < |Table()| && Table()[i].method_ == Table()[j].method_
    ensures !PatternsOverlap(Split(Table()[i].path, '/'), Split(Table()[j].path, '/'))
  {
    hide Rows, Split, RowOf, FitsTemplate, PatternsOverlap, Table;
    forall path | FitsTemplate(Table()[i].path, path)
      ensures !FitsTemplate(Table()[j].path, path)
    {
      RowIs(i, path);
      if FitsTemplate(Table()[j].path, path) {
        RowIs(j, path);
      }
    }
    OverlapExactly(Table()[i].path, Table()[j].path);
  }

  /** For the real table: whichever entry a path fits is the one found, wherever it stands. */
  lemma TableOrderNeverMatters(k: nat, path: string)
    requires k < |Table()| && FitsTemplate(Table()[k].path, path)
    ensures Find(Table(), Table()[k].method_, path) == Some(Table()[k])
  {
    hide Rows, Split, FitsTemplate, Find, NoOverlap, PlainTable, Table;
    TableIsUnambiguous();
    OrderNeverMatters(Table(), k, path);
  }

  /** For the real table: whatever the router builds, the allowlist admits. */
  lemma TableRoutesAreAllowed(method_: string, path: string, raw: Option<string>, platformLevel: bool)
    requires (raw.Some? ==> Bytes(raw.value)) && Proxy(Table(), method_, path, raw, platformLevel).Upstream?
    ensures Allows(Table(), method_, Proxy(Table(), method_, path, raw, platformLevel).path)
  {
    hide Rows, Proxy, Allows, Table, NoOverlap, PlainTable, Bytes;
    TableIsUnambiguous();
    RoutedIsAllowed(Table(), method_, path, raw, platformLevel);
  }

  // ----- The rows for platform-level callers -----

  predicate Open(rows: seq<Row>) {
    forall k :: 0 <= k < |rows| ==> !rows[k].platformOnly
  }

  lemma OpenConcat(a: seq<Row>, b: seq<Row>)
    requires Open(a) && Open(b)
    ensures Open(a + b)
  {
  }

  lemma OpenAnalytics()
    ensures Open(Work()) && Open(Health()) && Open(Analytics()) && Open(Campaigns()) && Open(Links())
  {
  }

  lemma OpenShows()
    ensures Open(Shows()) && Open(ShowCosts()) && Open(DoorCodes()) && Open(Catalog())
  {
  }

  lemma OpenMerch()
    ensures Open(Stock()) && Open(Guardrails()) && Open(Rewards()) && Open(Fulfillments())
  {
  }

  lemma OpenReleases()
    ensures Open(Releases()) && Open(Placements()) && Open(ReleaseFollowUp()) && Open(Outreach())
  {
  }

  lemma OpenOutreach()
    ensures Open(Conversations()) && Open(Booking()) && Open(BookingPolicy()) && Open(Opportunities())
    ensures Open(Actions())
  {
  }

  lemma OpenPlaces()
    ensures Open(Spread()) && Open(Replies()) && Open(ManualPosts()) && Open(Places()) && Open(Portfolio())
  {
  }

  lemma PeersArePlatform()
    ensures |Peers()| == 3 && forall k :: 0 <= k < 3 ==> Peers()[k].platformOnly
  {
  }

  /** Only the rows of the peers are. */
  lemma PlatformRows()
    ensures |Rows()| == 99 && Rows()[91..94] == Peers()
    ensures forall k :: 0 <= k < 99 ==> (Rows()[k].platformOnly <==> 91 <= k < 94)
  {
    hide Work, Health, Analytics, Campaigns, Links, Shows, ShowCosts, DoorCodes, Catalog, Stock, Guardrails, Rewards,
      Fulfillments, Releases, Placements, ReleaseFollowUp, Outreach, Conversations, Booking, BookingPolicy,
      Opportunities, Actions, Spread, Replies, ManualPosts, Places, Peers, Portfolio, Open;
    RowsNumbered();
    OpenAnalytics();
    OpenShows();
    OpenMerch();
    OpenReleases();
    OpenOutreach();
    OpenPlaces();
    PeersArePlatform();
    PortfolioNumbered();
    var rows: seq<Row> := Work();
    OpenConcat(rows, Health());
    rows := rows + Health();
    OpenConcat(rows, Analytics());
    rows := rows + Analytics();
    OpenConcat(rows, Campaigns());
    rows := rows + Campaigns();
    OpenConcat(rows, Links());
    rows := rows + Links();
    OpenConcat(rows, Shows());
    rows := rows + Shows();
    OpenConcat(rows, ShowCosts());
    rows := rows + ShowCosts();
    OpenConcat(rows, DoorCodes());
    rows := rows + DoorCodes();
    OpenConcat(rows, Catalog());
    rows := rows + Catalog();
    OpenConcat(rows, Stock());
    rows := rows + Stock();
    OpenConcat(rows, Guardrails());
    rows := rows + Guardrails();
    OpenConcat(rows, Rewards());
    rows := rows + Rewards();
    OpenConcat(rows, Fulfillments());
    rows := rows + Fulfillments();
    OpenConcat(rows, Releases());
    rows := rows + Releases();
    OpenConcat(rows, Placements());
    rows := rows + Placements();
    OpenConcat(rows, ReleaseFollowUp());
    rows := rows + ReleaseFollowUp();
    OpenConcat(rows, Outreach());
    rows := rows + Outreach();
    OpenConcat(rows, Conversations());
    rows := rows + Conversations();
    OpenConcat(rows, Booking());
    rows := rows + Booking();
    OpenConcat(rows, BookingPolicy());
    rows := rows + BookingPolicy();
    OpenConcat(rows, Opportunities());
    rows := rows + Opportunities();
    OpenConcat(rows, Actions());
    rows := rows + Actions();
    OpenConcat(rows, Spread());
    rows := rows + Spread();
    OpenConcat(rows, Replies());
    rows := rows + Replies();
    OpenConcat(rows, ManualPosts());
    rows := rows + ManualPosts();
    OpenConcat(rows, Places());
    rows := rows + Places();
    assert Rows() == rows + Peers() + Portfolio();
    SplitRows(rows, Peers(), Portfolio());
  }

  lemma SplitRows(a: seq<Row>, b: seq<Row>, c: seq<Row>)
    requires Open(a) && Open(c) && |a| == 91 && |b| == 3 && |c| == 5
    requires forall k :: 0 <= k < 3 ==> b[k].platformOnly
    ensures var rows := a + b + c;
            |rows| == 99 && rows[91..94] == b && forall k :: 0 <= k < 99 ==> (rows[k].platformOnly <==> 91 <= k < 94)
  {
  }

  /** The requests that the peers' rows serve. */
  ghost predicate PeersRequest(method_: string, path: string) {
    || (method_ in ["GET", "POST"] && path == "content-engine/peers")
    || (method_ == "POST" && exists id :: IsUuid(id) && path == "content-engine/peers/" + id + "/resolve")
  }

  lemma PeersPath(path: string)
    ensures AllFit(["content-engine", "peers"], Split(path, '/')) <==> path == "content-engine/peers"
  {
    hide Split, Join;
    var want, have := ["content-engine", "peers"], Split(path, '/');
    JoinSplit(path, '/');
    ResolveSegments();
    hide IsUuid, ParamName;
    JoinTwo(want[0], want[1]);
    assert want[0] + "/" + want[1] == "content-engine/peers";
    SplitJoin(want, '/');
    if AllFit(want, have) {
      assert SegmentFits(want[0], have[0]) && SegmentFits(want[1], have[1]);
      assert have == want;
    }
  }

  lemma JoinTwo(a: string, b: string)
    ensures Join([a, b], '/') == a + "/" + b
  {
    assert [a, b][1..] == [b];
  }

  lemma JoinFour(a: string, b: string, c: string, d: string)
    ensures Join([a, b, c, d], '/') == a + "/" + b + "/" + c + "/" + d
  {
    assert [a, b, c, d][1..] == [b, c, d] && [b, c, d][1..] == [c, d];
    JoinTwo(c, d);
  }

  lemma ResolvePath(path: string)
    ensures AllFit(["content-engine", "peers", "{peer_id}", "resolve"], Split(path, '/'))
            <==> exists id :: IsUuid(id) && path == "content-engine/peers/" + id + "/resolve"
  {
    hide Split, Join, IsUuid;
    var want, have := ["content-engine", "peers", "{peer_id}", "resolve"], Split(path, '/');
    JoinSplit(path, '/');
    ResolveSegments();
    hide ParamName;
    if AllFit(want, have) {
      assert SegmentFits(want[0], have[0]) && SegmentFits(want[1], have[1]) && SegmentFits(want[3], have[3]);
      assert have == [want[0], want[1], have[2], want[3]];
      ResolveText(have[2]);
      assert SegmentFits(want[2], have[2]);
    }
    if id :| IsUuid(id) && path == "content-engine/peers/" + id + "/resolve" {
      UuidAbsent(id);
      ResolveText(id);
      SplitJoin([want[0], want[1], id, want[3]], '/');
    }
  }

  lemma ResolveText(id: string)
    ensures Join(["content-engine", "peers", id, "resolve"], '/') == "content-engine/peers/" + id + "/resolve"
  {
    hide Join;
    JoinFour("content-engine", "peers", id, "resolve");
    assert "content-engine" + "/" + "peers" + "/" == "content-engine/peers/" && "/" + "resolve" == "/resolve";
    assert "content-engine/peers/" + id + "/" + "resolve" == "content-engine/peers/" + id + ("/" + "resolve");
  }

  lemma ResolveSegments()
    ensures forall s :: SegmentFits("{peer_id}", s) <==> IsUuid(s)
    ensures ParamName("content-engine").None? && ParamName("peers").None? && ParamName("resolve").None?
    ensures '/' !in "content-engine" && '/' !in "peers" && '/' !in "resolve"
  {
    hide IsUuid;
    assert ParamName("{peer_id}") == Some("peer_id") by {
      assert "{peer_id}"[1..8] == "peer_id";
    }
    assert EndsWithId("peer_id") by {
      assert "peer_id"[4..] == "_id";
    }
  }

  lemma PeersServe(k: nat, method_: string, path: string)
    requires 91 <= k < 94 && |Table()| == 99
    ensures Serves(Table()[k], method_, path) <==>
            match k
            case 91 => method_ == "GET" && path == "content-engine/peers"
            case 92 => method_ == "POST" && path == "content-engine/peers"
            case _ => method_ == "POST" && exists id :: IsUuid(id) && path == "content-engine/peers/" + id + "/resolve"
  {
    hide Rows, Split, AllFit;
    PlatformRows();
    assert Rows()[k] == Rows()[91..94][k - 91] == Peers()[k - 91];
    RowSplits(k);
    PeersPath(path);
    ResolvePath(path);
  }

  /** On the real table the proxy forbids exactly the three routes of the peers, to callers below platform level. */
  lemma ForbiddenExactly(method_: string, path: string, raw: Option<string>, platformLevel: bool)
    requires raw.Some? ==> Bytes(raw.value)
    ensures Proxy(Table(), method_, path, raw, platformLevel) == Forbidden
            <==> !platformLevel && PeersRequest(method_, path)
  {
    hide Rows, Split, AllFit, Find, FitsTemplate, Bytes, IsUuid, QueryOf;
    PlatformRows();
    var found := Find(Table(), method_, path);
    if found.Some? && found.value.platformOnly {
      FoundFits(Table(), method_, path);
      var k :| 0 <= k < |Table()| && Table()[k] == found.value;
      PeersServe(k, method_, path);
    }
    if PeersRequest(method_, path) {
      var k := if method_ == "GET" then 91 else if path == "content-engine/peers" then 92 else 93;
      assert method_ == "GET" ==> method_ != "POST" by {
        assert |"GET"| != |"POST"|;
      }
      PeersServe(k, method_, path);
      TableOrderNeverMatters(k, path);
    }
  }

  /** A row of the real table that serves a request is the first that does. */
  lemma TableServesOnce(method_: string, path: string, k: nat)
    requires k < |Table()| && Serves(Table()[k], method_, path)
    ensures FirstServing(Table(), method_, path, k)
  {
    hide Rows, FitsTemplate, NoOverlap, PlainTable, Table, Find;
    forall j: nat | j < k
      ensures !Serves(Table()[j], method_, path)
    {
      if Serves(Table()[j], method_, path) {
        RowIs(j, path);
        RowIs(k, path);
      }
    }
  }
}
