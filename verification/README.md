# CrowdRelay control plane: verified models

This project models eight pieces of the CrowdRelay control plane in Dafny and proves what each of them keeps over every
input, every run or every reachable state. `dafny verify dfyconfig.toml` verifies all files together.

| files | what they model |
|---|---|
| `CssText`, `CssBlocks`, `CssWritten`, `CssRescan`, `CssExact` | the stylesheet remover's text: scanner, splicer, what both do told from the characters alone, and exactly when the result scans as intended |
| `CssCascade`, `CssMeaning`, `CssShown`, `CssAlike` | its analysis, and the cascade it must not disturb: exactly when a loss shows, and when two stylesheets mean the same |
| `CssFile`, `CssReading`, `CssPromise`, `CssSelector`, `CssExamples` | the whole run on a file, held against what the script reads and against what a browser reads, and files on which it fails |
| `DiscordThrottle`, `LoginThrottle` | the two pruned, bounded sliding-window throttles against their full histories |
| `FormUrlencoded`, `Utf8Text`, `Surface`, `SurfaceTable` | the table-driven operator surface: router, query re-encoding, allowlist and the table itself |
| `Json`, `Calendar`, `Timestamps`, `TimeTuples`, `Outcomes`, `OutcomeGroups` | the outcome normaliser and grouper: time tuples to text, grouping, "latest" by string comparison |
| `TenantEnv`, `TenantEnvFile`, `TenantEnvValues` | convergence of a tenant's write-once `.env`, on lines, on text and by the values it ends up with |
| `RuntimeEnv`, `RuntimeSettings`, `RosterText`, `DatabaseName`, `Deployments` | accepted plans, the rendered `tenant.env` and every setting in it, database names, the port allocator and digest pinning |
| `Receipts` | the release receipt directory, with a crash point after every durable step |
| `Billing` | the billing state machine over arbitrary webhook traces |
| `PythonText`, `Wrappers` | the Python string operations and the option type that several of them share |

Code made of expressions is modelled by functions and lemmas. Code that works step by step is modelled by methods with
loops, or by a class whose fields the methods update, each proved against a specification function about which the
lemmas then speak.

## Findings

Where the code and its documentation disagree, the model follows the code, and the exact condition is a theorem.

- Stylesheets, what is computed. `dedupe-css.py` promises that no element computes anything else. For any declarations
  lost from any stylesheet this holds for every element and property if and only if every lost declaration that could
  still win last in its group has an earlier kept stand-in with the same text and no other group's declaration between
  (`CssShown.ThinningExactly`). For the script's own removals only important declarations matter: a rule that mixes
  important and normal declarations of a dead property loses both (line 161). `CssShown.MixedRuleExample` shows the loss,
  and `CssShown.StandInExample` a sheet where a stand-in hides it.
- Stylesheets, what a browser reads. The script overlooks declarations behind a comment (line 100), lower-cases custom
  properties (line 99), knows importance only without a blank in it (line 134) and ends a declaration at a semicolon
  inside brackets, strings and comments (line 89). `CssPromise.SeenAlikeExactly` holds the run against the browser's
  reading of the same text, whatever the rules hold: what is computed stays the same if and only if the rules as they
  are and as they will be written let every group say the same, in the same order where order tells.
  `CssPromise.SeenSameExactly` says it by the declarations lost: nothing the script loses, dead or overlooked, could have
  shown. It covers every file in which each declaration is written back whole or not at all, which a declaration without
  a semicolon in it always is (`CssPromise.OneRunIsUntorn`). `CssExamples` has a file for each way the promise fails.
  `CssPromise.PromiseHolds` gives it back where the script reads what the browser reads.
- Stylesheets, selectors. Line 107 splits at every comma, also inside `:is(...)`, so two different selector lists can be
  one group: exactly when they have the same parts between commas (`CssSelector.SameGroupExactly`).
- Stylesheets, at-rules. Line 57 joins the preludes around a rule with two bars. Rules under different at-rules can then
  be one group, exactly when their preludes have the same pieces between bars, which takes two bars before an at-rule's
  name inside a prelude (`CssBlocks.ContextsExactly`, `CssBlocks.BarredExample`).
- Stylesheets, text. Line 171 assumes that a selector touches its brace. The rewritten file has every surviving rule in
  its place, and no other, if and only if every new body keeps its comments closed and every removed rule either touches
  its brace or has no block after it (`CssFile.FileReadsAsDeduped`, as long as what a removal leaves of a selector opens
  no comment). `CssExamples.StrayTextExample` shows what one space before a brace does: the surviving declaration is lost
  together with the dead one. `CssExamples.CommentRemainsExample` shows remains that open a comment: they take the next
  selector's first part with them.
- Discord throttle. A task reads the clock before it takes the lock, so readings can be overtaken. The windows that never
  hold more than 20 sends are exactly those no longer than a minute less the largest such delay, so a whole minute is
  capped if and only if no reading is overtaken (`DiscordThrottle.CappedExactly`). Equal texts are likewise ten minutes less that delay
  apart, and no more can be promised (`DiscordThrottle.ApartExactly`).
- Login throttle. Check and record are two steps, so attempts can overlap between them. With at most `limit` attempts of
  a name in flight, the failures that a window of five minutes can hold are exactly up to `6 * limit - 1`
  (`LoginThrottle.BoundedExactly`, attained by the run of `LoginThrottle.FullWindow`), so the five of the design are kept
  if and only if attempts come one at a time. The stored list answers for the full log exactly when it had room for
  every recent failure (`LoginThrottle.TrackedExactly`), which two overlapping attempts already break
  (`LoginThrottle.TwoInFlight`).
- Timestamps. String order is time order exactly when the two years are written in time order
  (`Timestamps.TextOrderExactly`): always for the years 0 to 9999. Later years carry a sign and sort before them, and
  years below 0 mostly sort in reverse. So a row did not finish after the "latest" one, and a group not after the one
  before it, exactly when the two years are written in time order (`Outcomes.LatestIsNewestInstant`,
  `Outcomes.GroupsByInstant`).
- Ports. `allocated_ports` and `choose_port` skip a record that cannot be read, so its port is not seen. Ports stay
  unique along a run if and only if no claim meets a state in which a record it cannot read holds the lowest port it
  will see free (`Deployments.PortsNeverShared`; the condition speaks of the state before the claim and of the reads
  that fail). `Deployments.SharedPortRun` is a run that ends in two tenants on one port. A record that is read but is no
  JSON object, or is not UTF-8, is not skipped: it stops every claim.
- Release receipts. The header of `release_receipt.py` says that a rollback restores the previous release as current;
  the code leaves both files alone. Re-running an interrupted finalize converges exactly when `current.json` had not
  yet been replaced; in the gap before the unlink the predecessor is lost.
- Digest guard. It is described as protecting retries of one release. Since the record is stamped with the new version
  before it is compared, it applies across versions as well, and moving to a version with another digest for either role
  always stops. `Deployments.DigestGuardExactly` says when the guard stops a claim.
- `.env` files. Lines are split at every break that `str.splitlines` knows, but only a newline is looked for before a
  token is appended. A text that ends in another break character gains an empty line, so the file's lines are the edited
  lines exactly under the condition in `TenantEnvFile.PipelineTextLines`, and going through one placement to another
  leaves the lines of going there directly exactly under the condition in `TenantEnvFile.DeployAbsorbs`
  (`TenantEnvFile.FormFeedExample` fails it). Redeploying unchanged is always a no-op.
- `tenant.env`. A schema 3 plan is never asked about its regional profile, so a line break in it reaches the file. The
  file reads back as the rendered map if and only if no rendered profile value holds a line break.
- Database names. A slug over 61 characters can collide with a short one: `DatabaseName.CollisionsExactly` gives the
  full condition.

## Model

| member | source | states |
|---|---|---|
| CssText.MatchingBrace | frontend/scripts/dedupe-css.py:70-86 | the loop finds the brace that closes the block outside comments, or none when the braces are unbalanced |
| CssText.SplitTopLevel | frontend/scripts/dedupe-css.py:38-67 | the recursive scanner terminates and collects, in order, the leaf rules of the scan, which CssBlocks.RulesExactly tells from the characters alone |
| CssBlocks.RulesExactly | frontend/scripts/dedupe-css.py:38-86 | by the characters alone, without the scan: a stylesheet is accepted if and only if no block is left open, and the rules found are exactly the blocks that are no at-rule with only the four conditional at-rules around them, in order, each with its stripped prelude, the brace that closes it, and the preludes of all blocks around it, outermost first, each after two bars |
| CssBlocks.ContextsExactly | frontend/scripts/dedupe-css.py:57 | two lists of at-rules make one context if and only if they have the same pieces between bars; without two bars before an at-rule name inside a prelude only when they are the same list |
| CssBlocks.BarredExample | frontend/scripts/dedupe-css.py:57 | two nested at-rules and a single one that make the same context |
| CssBlocks.GroupsUnderOneContext | frontend/scripts/dedupe-css.py:122-124 | two rules of a file are one group if and only if their selectors normalise alike and the at-rules around them have the same pieces; so rules under different at-rules are never one group unless a prelude holds two bars before an at-rule name |
| CssText.ScanIsOrdered | frontend/scripts/dedupe-css.py:38-86 | spans are in bounds, each the inside of one balanced pair of braces, increasing and pairwise disjoint, preludes included |
| CssText.ScanIsSpliceable | frontend/scripts/dedupe-css.py:117-118 | every accepted stylesheet meets what the splice needs, for any edits of the rules found |
| CssText.Splice | frontend/scripts/dedupe-css.py:153-175 | the back-to-front splice on a text that keeps changing equals one left-to-right rebuild of the original text |
| CssWritten.WalkBackExactly | frontend/scripts/dedupe-css.py:171-173 | the cut for a removal begins right after the last character before the prelude that is no space, newline or tab |
| CssWritten.EditExactly | frontend/scripts/dedupe-css.py:153-175 | a rule is left alone if and only if none of its declarations is dead, removed if and only if it has some and all are, and otherwise its new body is, between semicolons, the texts of those that are not dead, in order |
| CssRescan.ScanShift | frontend/scripts/dedupe-css.py:38-67 | where two texts agree to their ends the scans find the same rules, moved by the difference of position |
| CssRescan.OneEdit | frontend/scripts/dedupe-css.py:153-175 | after one fitting edit the scan finds the earlier rules where they were, the edited one with its new body or gone, and the later ones moved |
| CssRescan.RewrittenTextRescans | frontend/scripts/dedupe-css.py:153-175 | when every edit fits, scanning the rewritten text finds exactly the rules not deleted, under the same preludes and at-rules, each with its new or its old body |
| CssRescan.DeletionIsClean | frontend/scripts/dedupe-css.py:168-175 | what a removal leaves before the rule is blank if and only if the prelude touches its brace |
| CssExact.OneBroken | frontend/scripts/dedupe-css.py:168-175 | a removal that leaves part of a prelude behind with a block still to come: the scan finds the earlier rules, then one whose prelude begins with the remains |
| CssExact.DeletionReadsExactly | frontend/scripts/dedupe-css.py:168-175 | one removal leaves all other rules with their preludes, bodies and at-rules if and only if the removed prelude touches its brace or no block follows in its own |
| CssExact.FoundBodiesContained | frontend/scripts/dedupe-css.py:165-167 | if the rewritten text scans as it should, no new body opens a comment or brace that it does not close |
| CssExact.RescanExactly | frontend/scripts/dedupe-css.py:153-175 | for any rules and edits the rewritten text scans to exactly the surviving rules in their places if and only if every edit fits: new bodies closed, removed preludes touching their braces or the last in their block |
| CssCascade.CollectGroups | frontend/scripts/dedupe-css.py:122-124 | every group's index list holds exactly its rules in order |
| CssCascade.FirstPass | frontend/scripts/dedupe-css.py:131-137 | the first pass remembers a property's closing rule, and only when that rule's last word on it is normal |
| CssCascade.SecondPass | frontend/scripts/dedupe-css.py:138-143 | the second pass marks exactly the properties declared normally here and closed normally later |
| CssCascade.DeadIsLastSeen | frontend/scripts/dedupe-css.py:128-143 | the two passes decide deadness as defined without them: a later rule of the group closes the property normally |
| CssCascade.Analyse | frontend/scripts/dedupe-css.py:122-151 | the marks set for each rule are exactly its dead properties |
| CssShown.WinnerAt | frontend/scripts/dedupe-css.py:12-14 | the cascade fold finds a winner exactly when some declaration applies, and it is the one that nothing outranks and that outranks everything after it |
| CssMeaning.CascadeOfTwo | frontend/scripts/dedupe-css.py:12-14 | of two declarations that apply an important one wins, then the heavier by the weights for that importance, then the later |
| CssMeaning.Remove | frontend/scripts/dedupe-css.py:149-175 | the rewrite yields the sheet without its dead declarations, and declarations and rules kept plus removed add up to the input's |
| CssMeaning.NoMixingKeepsImportant | frontend/scripts/dedupe-css.py:9-15 | a sheet whose rules never mix both kinds for a dead property meets that condition |
| CssShown.ThinningExactly | frontend/scripts/dedupe-css.py:12-14 | whatever declarations are lost from whatever stylesheet, no element computes anything else if and only if every lost one that could win last in its group has a stand-in |
| CssShown.MeaningKeptExactly | frontend/scripts/dedupe-css.py:9-15 | so for the removal of the dead declarations of any sheet |
| CssShown.OnlyImportanceShows | frontend/scripts/dedupe-css.py:126-143 | of what the removal loses, only important declarations can show |
| CssShown.RemovalKeepsMeaning | frontend/scripts/dedupe-css.py:122-164 | nothing shows when every rule that loses an important declaration is followed in its group by one that keeps one |
| CssShown.MixedRuleExample | frontend/scripts/dedupe-css.py:157-164 | a two-rule sheet in which an element computes something else after the removal |
| CssShown.StandInExample | frontend/scripts/dedupe-css.py:157-164 | a sheet that loses an important declaration without a later one, and still nothing shows |
| CssAlike.AlikeExactly | frontend/scripts/dedupe-css.py:12-14 | for any two lists of declarations: every element computes the same from both if and only if every group says the same about every property, and groups that only order tells apart come in the same order |
| CssMeaning.OnePassIsEnough | frontend/scripts/dedupe-css.py:126-175 | analysing the output finds nothing dead, although emptied rules are gone and indices shifted |
| CssFile.ParseDecls | frontend/scripts/dedupe-css.py:89-103 | the parser's loop yields the declarations of the body, run by run |
| CssWritten.DeclsExactly | frontend/scripts/dedupe-css.py:89-103 | by the characters alone: one declaration for every stretch between separators that ends at a semicolon or with the body and whose text is one, in order, and no other |
| CssWritten.JoinExactly | frontend/scripts/dedupe-css.py:165-166 | a rewritten body taken apart at its semicolons is the texts kept, each once and in order |
| CssFile.JoinParses | frontend/scripts/dedupe-css.py:156-166 | parsing the joined texts of any parsed declarations gives the same declarations back |
| CssFile.FileReadsAsDeduped | frontend/scripts/dedupe-css.py:117-175 | the text that the run writes has every surviving rule in its place and no other if and only if its edits fit, and then it reads as the sheet with its dead declarations removed and no other change |
| CssFile.FileKeepsMeaning | frontend/scripts/dedupe-css.py:9-15 | end to end on text, on the script's reading: with importance kept, every element computes from the rewritten file what it computed from the original |
| CssFile.MeaningKeptExactlyOnFiles | frontend/scripts/dedupe-css.py:9-15 | end to end on text, on the script's reading: no element computes anything else from the rewritten file if and only if every lost declaration that could win has a stand-in |
| CssFile.SecondRunFindsNothing | frontend/scripts/dedupe-css.py:145-147 | analysing the rewritten file finds nothing dead |
| CssFile.RunTwice | frontend/scripts/dedupe-css.py:145-175 | a second run returns the rewritten file unchanged |
| CssFile.CommentFreeIsContained | frontend/scripts/dedupe-css.py:165-166 | kept declarations that open no comment are safe to print |
| CssFile.RewriteDropsSkipped | frontend/scripts/dedupe-css.py:92-103 | a rewritten rule holds no piece that the parser skips, so every skipped piece of the old body is lost |
| CssReading.CleanedStrip | frontend/scripts/dedupe-css.py:95-96 | the strip of a piece changes nothing in what a browser reads in it, comments, strings and brackets included |
| CssReading.EndsStripped | frontend/scripts/dedupe-css.py:95-96 | and a declaration that closes its comments, strings and brackets still does |
| CssPromise.SeenAlikeExactly | frontend/scripts/dedupe-css.py:9-15 | the promise on the browser's own reading of both files, whatever the rules hold: nothing computes differently if and only if the rules as they are and as they will be written say the same, group by group and in order |
| CssPromise.OneRunIsUntorn | frontend/scripts/dedupe-css.py:89-103 | a declaration without a semicolon inside it is written back whole or not at all |
| CssPromise.RuleThins | frontend/scripts/dedupe-css.py:89-166 | for every browser: what it reads in a rule before and after, as one list of its declarations and which of them the script writes back |
| CssPromise.SeenSameExactly | frontend/scripts/dedupe-css.py:9-15 | the promise on the browser's own reading of both files, when no declaration is written back in part: nothing computes differently if and only if every declaration lost, dead or overlooked, that could win has a stand-in |
| CssPromise.PromiseHolds | frontend/scripts/dedupe-css.py:9-15 | where the script sees the properties and importance the browser sees and keeps importance, every element computes what it did |
| CssSelector.SameGroupExactly | frontend/scripts/dedupe-css.py:106-108 | two selector lists are one group if and only if they have the same parts between commas, in any order and up to blanks |
| CssSelector.SameGroupByWords | frontend/scripts/dedupe-css.py:106-108 | in words, without the normalisation: if and only if their parts between commas, leaving out blank ones, are the same lists of words, each as often |
| CssPromise.GroupsAlikeExactly | frontend/scripts/dedupe-css.py:122-124 | the script's groups are groups to the browser if and only if rules with the same parts between commas are |
| CssSelector.BracketedCommaExample | frontend/scripts/dedupe-css.py:106-108 | two lists with commas inside brackets that select differently and are one group |
| CssExamples.CommentExample | frontend/scripts/dedupe-css.py:99-101 | through the text written: a declaration behind a comment is removed with its rule, and an element computes nothing for it |
| CssExamples.CustomPropertyExample | frontend/scripts/dedupe-css.py:99 | through the text written: of two custom properties that differ in case one is lost |
| CssExamples.ImportanceExample | frontend/scripts/dedupe-css.py:134-143 | through the text written: an important declaration with a blank in its mark is removed for a normal one, which then wins |
| CssExamples.BracketExample | frontend/scripts/dedupe-css.py:89-103 | through the text written: a value with a semicolon in brackets is cut, the bracket stays open, and an element computes neither that property nor the one of the rule after it |
| CssExamples.SelectorExample | frontend/scripts/dedupe-css.py:106-108 | through the text written: a rule is lost to another selector that does not match all its elements |
| CssExamples.StrayTextExample | frontend/scripts/dedupe-css.py:170-175 | through the text written: a space before a brace leaves the selector's dot behind, and the surviving declaration is lost too |
| CssExamples.CommentRemainsExample | frontend/scripts/dedupe-css.py:106-175 | through the text written: two blanks before a brace leave the opening of a comment behind, and the next rule loses the first part of its selector and the element its declaration |
| CssFile.DedupeFile | frontend/scripts/dedupe-css.py:111-175 | the run from the text read to the text written is the rebuild of which the other theorems speak, and none when the braces are unbalanced |
| DiscordThrottle.Throttle.constructor | crates/control-plane-api/src/automation_routes.rs:64-72 | the fresh bucket matches the empty history |
| DiscordThrottle.Throttle.DecideForward | crates/control-plane-api/src/automation_routes.rs:85-103 | the pruned bucket decides as the specification over the full history of calls, in whatever order their clock readings come, and never holds more than 20 timestamps |
| DiscordThrottle.DecidesInOrder | crates/control-plane-api/src/automation_routes.rs:85-103 | with readings in order, and in literal nanoseconds: a text is a duplicate exactly when an equal one was sent less than ten minutes ago, another is over the limit exactly when twenty were sent less than a minute ago, and anything else is sent |
| DiscordThrottle.AtMostTwentyPerWindow | crates/control-plane-api/src/automation_routes.rs:44-49 | when no reading is overtaken by more than a skew, any window of a minute less that skew holds at most 20 sends |
| DiscordThrottle.AtMostTwentyPerMinute | crates/control-plane-api/src/automation_routes.rs:44-49 | with readings in order any minute does |
| DiscordThrottle.OvertakenExample | crates/control-plane-api/src/automation_routes.rs:238-239 | for every delay up to a minute and every window longer than a minute less that delay: a history with 21 sends in it |
| DiscordThrottle.CappedExactly | crates/control-plane-api/src/automation_routes.rs:44-49 | a window holds at most 20 sends in every history whose readings are overtaken by at most a skew if and only if it is no longer than a minute less that skew; a whole minute if and only if none is overtaken |
| DiscordThrottle.EqualTextsTenMinutesApart | crates/control-plane-api/src/automation_routes.rs:37-42 | two sends of one text are at least ten minutes apart, less the skew |
| DiscordThrottle.ApartExactly | crates/control-plane-api/src/automation_routes.rs:37-42 | and no longer distance holds in every such history |
| DiscordThrottle.Bounds | crates/control-plane-api/src/automation_routes.rs:85-103 | how many texts the map can hold: 20 for each window that makes up ten minutes and the skew |
| DiscordThrottle.TwoHundredTexts | crates/control-plane-api/src/automation_routes.rs:85-103 | 200 with readings in order |
| DiscordThrottle.HeldTimesCount | crates/control-plane-api/src/automation_routes.rs:89-91 | pruning at every call leaves exactly the sends that no later reading has outlived |
| DiscordThrottle.Forgets | crates/control-plane-api/src/automation_routes.rs:86-88 | the pruned map remembers exactly the texts the specification suppresses |
| DiscordThrottle.RetainTwice | crates/control-plane-api/src/automation_routes.rs:89-91 | pruning at two readings, in either order, equals pruning at the later one |
| LoginThrottle.Throttle.constructor | crates/control-plane-api/src/auth_routes.rs:33-37 | the empty map matches the empty log |
| LoginThrottle.Throttle.Throttled | crates/control-plane-api/src/auth_routes.rs:68-76 | refuses exactly on five recent entries; a refusal means five logged failures inside the window, and for a name never cut it is exactly that |
| LoginThrottle.FiveRecentExactly | crates/control-plane-api/src/auth_routes.rs:68-76 | in literal nanoseconds: a name is refused exactly when five of its times lie less than five minutes back |
| LoginThrottle.Throttle.RecordFailure | crates/control-plane-api/src/auth_routes.rs:46-66 | logs the failure, keeps at most 1000 names, and cuts a history only by evicting the name or recording it while throttled |
| LoginThrottle.Throttle.Begin | crates/control-plane-api/src/auth_routes.rs:127-132 | the check of an attempt: whoever is not refused is in flight until it finishes, however many others are |
| LoginThrottle.Throttle.Finish | crates/control-plane-api/src/auth_routes.rs:133-144 | the end of an attempt: a verified one changes nothing, a failed one is logged, and a history is cut only by eviction or by recording while five are recent |
| LoginThrottle.Evict | crates/control-plane-api/src/auth_routes.rs:55-65 | over 1000 names, names are dropped until exactly 500 remain; otherwise nothing changes |
| LoginThrottle.RecordedTracks | crates/control-plane-api/src/auth_routes.rs:46-54 | the capped, pruned list keeps tracking the log if and only if the failure was recorded while not throttled |
| LoginThrottle.RecordedSpaced | crates/control-plane-api/src/auth_routes.rs:46-54 | failures recorded after a check keep every sixth five minutes after the first |
| LoginThrottle.FivePerWindow | crates/control-plane-api/src/auth_routes.rs:39-40 | so any window shorter than five minutes admits at most five failures per name |
| LoginThrottle.UncheckedRecordingForgets | crates/control-plane-api/src/auth_routes.rs:52-54 | a failure recorded without the check is missing from the count once the oldest expires |
| LoginThrottle.FailuresInFlight | crates/control-plane-api/src/auth_routes.rs:127-144 | over every run of overlapping attempts, at most 6 times the number in flight less one failures fall into any window of five minutes |
| LoginThrottle.FullWindow | crates/control-plane-api/src/auth_routes.rs:127-144 | a run from the empty state, for every number in flight, in which a window holds that many |
| LoginThrottle.BoundedExactly | crates/control-plane-api/src/auth_routes.rs:39-76 | a number bounds the failures in every window of every run if and only if it is at least 6 times the number in flight less one; five does if and only if attempts come one at a time |
| LoginThrottle.TrackedExactly | crates/control-plane-api/src/auth_routes.rs:46-76 | over every run, the list answers for the full log if and only if it had room for every recent failure |
| LoginThrottle.OneAtATime | crates/control-plane-api/src/auth_routes.rs:127-144 | without overlap it always has |
| LoginThrottle.TwoInFlight | crates/control-plane-api/src/auth_routes.rs:127-144 | a run from the empty state in which two overlapping attempts after four failures overflow it: six failures in the log, five in the list |
| Surface.Fits | crates/control-plane-api/src/surface_routes.rs:249-268 | the loop over both segment iterators decides segment-wise fit, with equal lengths |
| Surface.SegmentExactly | crates/control-plane-api/src/surface_routes.rs:256-278 | which segments a parameter takes, character by character, and that any other segment takes itself |
| Surface.UuidExactly | crates/control-plane-api/src/surface_routes.rs:257 | an id parameter takes 32 hexadecimal digits in either case: bare, hyphenated, hyphenated in braces, or as a URN |
| Surface.Reencode | crates/control-plane-api/src/surface_routes.rs:306-320 | the loop answers with the first refused pair, or the serialization of all pairs |
| Surface.UpstreamQuery | crates/control-plane-api/src/surface_routes.rs:302-321 | an absent or empty query is empty; any other is parsed and re-encoded |
| Surface.ProxyExactly | crates/control-plane-api/src/surface_routes.rs:333-356 | when each of the four answers is given: not found if and only if no row serves the request, forbidden if and only if the first row that does is platform-only and the caller is not, the refusal of the first pair refused, and otherwise an upstream path that splits at its first question mark into the prefix with the requested path and a query that reads as the requested pairs |
| Surface.FittingPathAbsent | crates/control-plane-api/src/surface_routes.rs:249-278 | a path that fits a template without a question mark holds none |
| Surface.RoutedIsAllowed | crates/control-plane-api/src/surface_routes.rs:288-300 | every upstream path that the proxy builds is admitted by the allowlist |
| Surface.AllowedIsRouted | crates/control-plane-api/src/surface_routes.rs:280-321 | the allowlist admits exactly what the router serves to a platform-level caller, plus values over 256 bytes |
| Surface.OverlapExactly | crates/control-plane-api/src/surface_routes.rs:249-278 | two templates share a path if and only if they have as many segments and overlap in each |
| Surface.OrderNeverMatters | crates/control-plane-api/src/surface_routes.rs:280-286 | in a table without overlaps the entry that fits is the one found, wherever it stands |
| SurfaceTable.RowsNumbered | crates/control-plane-api/src/surface_routes.rs:96-239 | all 99 rows: the segments of a path fit at most one row of each method, namely the one named |
| SurfaceTable.TableIsUnambiguous | crates/control-plane-api/src/surface_routes.rs:96-239 | no template of the real table holds a question mark and no path fits two entries of one method |
| SurfaceTable.TableOrderNeverMatters | crates/control-plane-api/src/surface_routes.rs:96-286 | for the real table, whichever entry a path fits is the one found |
| SurfaceTable.TableRoutesAreAllowed | crates/control-plane-api/src/surface_routes.rs:333-356 | for the real table, the router and the allowlist never disagree |
| SurfaceTable.PlatformRows | crates/control-plane-api/src/surface_routes.rs:228-232 | of the 99 rows exactly the three of the peers are platform-only |
| SurfaceTable.ForbiddenExactly | crates/control-plane-api/src/surface_routes.rs:346-350 | on the real table a request is forbidden if and only if the caller is below platform level and the request is one of the three routes of the peers, written out as method and path |
| SurfaceTable.TableServesOnce | crates/control-plane-api/src/surface_routes.rs:280-284 | a row of the real table that serves a request is the first that does |
| FormUrlencoded.ParseSerialize | crates/control-plane-api/src/surface_routes.rs:306-320 | serialize-then-parse returns the same pairs for every list of text pairs |
| FormUrlencoded.DecodeEncode | crates/control-plane-api/src/surface_routes.rs:306-320 | percent-decoding an encoded text gives it back |
| FormUrlencoded.EncodeByteExactly | crates/control-plane-api/src/surface_routes.rs:306-320 | which bytes stay, that a space becomes a plus sign, and the two upper-case digits of every other byte |
| FormUrlencoded.UnescapePlain | crates/control-plane-api/src/surface_routes.rs:306-307 | a text without plus signs in which no percent sign has two hexadecimal digits after it stands for itself |
| FormUrlencoded.ParseExactly | crates/control-plane-api/src/surface_routes.rs:306-307 | a query is read text by text between its ampersands, an empty one as nothing and any other as one pair split at its first equals sign |
| FormUrlencoded.ParseYieldsText | crates/control-plane-api/src/surface_routes.rs:296-298 | whatever bytes come in, the parsed pairs are valid text |
| FormUrlencoded.LossyTwice | crates/control-plane-api/src/surface_routes.rs:296-298 | replacing invalid sequences yields valid text, so doing it again changes nothing |
| Utf8Text.Utf8Exactly | crates/control-plane-api/src/surface_routes.rs:296-298 | valid text is exactly what encodes some list of Unicode scalar values |
| Timestamps.TextOrderExactly | crates/control-plane-api/src/operations_routes.rs:1784-1809 | for any two instants, comparing the texts compares the instants if and only if their years are written in time order; equal texts name one instant |
| Timestamps.TextOrderIsTimeOrder | crates/control-plane-api/src/operations_routes.rs:1784-1809 | in particular for years 0 to 9999, although fractions differ in length |
| Timestamps.TuplesCompareAsInstants | crates/control-plane-api/src/operations_routes.rs:1784-1809 | the same for any two converted tuples, whatever their offsets |
| Timestamps.FourDigitTuplesConvert | crates/control-plane-api/src/operations_routes.rs:1784-1809 | every tuple that names an instant in a four-digit year converts |
| TimeTuples.ConvertsExactly | crates/control-plane-api/src/operations_routes.rs:1784-1809 | from the numbers of the array alone: when a tuple becomes a text and when it is refused |
| TimeTuples.TextNamesTheTuple | crates/control-plane-api/src/operations_routes.rs:1784-1809 | the fields read back from the characters of the text are a date and a time of day, and moved forward by the offset they are the year, day, hour, minute, second and nanosecond of the tuple, leap seconds included |
| TimeTuples.OneTextExactly | crates/control-plane-api/src/operations_routes.rs:1784-1809 | two tuples print one text if and only if their local fields less their offsets are the same time and both or neither show a leap second |
| TimeTuples.TextsCompareAsTimes | crates/control-plane-api/src/operations_routes.rs:1784-1809 | two texts compare as the local fields less the offsets do, if and only if the years they show are written in time order |
| Timestamps.SignedYearsSortWrong | crates/control-plane-api/src/operations_routes.rs:1863-1890 | a year past 9999 sorts before every four-digit year it follows |
| Timestamps.NegativeYearsSortReversed | crates/control-plane-api/src/operations_routes.rs:1863-1890 | any two years below 0 sort in reverse, except exactly where the earlier one has more digits and they begin below the later one's |
| Timestamps.ZeroOffsetKeepsDate | crates/control-plane-api/src/operations_routes.rs:1784-1809 | with a zero offset the text shows the tuple's own date |
| Timestamps.CompareFractions | crates/control-plane-api/src/operations_routes.rs:1807-1808 | fractions printed with none, three, six or nine digits compare as their values |
| Calendar.DayNumberOfFrom | crates/control-plane-api/src/operations_routes.rs:1789-1797 | every day number has one valid year and day of year |
| Calendar.FromOfDayNumber | crates/control-plane-api/src/operations_routes.rs:1789-1797 | and every valid date is recovered from its day number |
| Outcomes.NormalizeTimestamps | crates/control-plane-api/src/operations_routes.rs:1811-1825 | the in-place edit replaces exactly the array-valued time fields |
| Outcomes.NormalizedActionTwice | crates/control-plane-api/src/operations_routes.rs:1811-1825 | doing it again changes nothing |
| Outcomes.Collect | crates/control-plane-api/src/operations_routes.rs:1827-1841 | kinds in order of first appearance, each with exactly its actions in order |
| Outcomes.Tally | crates/control-plane-api/src/operations_routes.rs:1846-1891 | the counters equal the counts of states, verdicts and failures over the rows |
| Outcomes.Track | crates/control-plane-api/src/operations_routes.rs:1848-1899 | the trackers end on the first row with the greatest finish time, and on the fallback for metrics |
| Outcomes.Summarize | crates/control-plane-api/src/operations_routes.rs:1842-1915 | a group's summary is the counts, the latest finish text and the freshest measured metrics of its rows |
| Outcomes.GroupActions | crates/control-plane-api/src/operations_routes.rs:1827-1922 | the loop and the sort yield one summary per kind, stably ordered newest first |
| OutcomeGroups.GroupsExactly | crates/control-plane-api/src/operations_routes.rs:1827-1922 | the groups as the response shows them, field by field from the actions alone: one per kind, its counts, the greatest finish text, the metrics of the first measured row with the greatest finish text or else of the first measured row, newest first, and alike ones by first appearance of their kinds |
| Outcomes.GroupsAreTheKinds | crates/control-plane-api/src/operations_routes.rs:1827-1922 | grouping is a partition: one group per kind, summarising exactly the actions of that kind |
| Outcomes.CountsAddUp | crates/control-plane-api/src/operations_routes.rs:1827-1922 | the groups' counts add up to the number of actions |
| Outcomes.StatesWithinCount | crates/control-plane-api/src/operations_routes.rs:1846-1891 | the three state counts of a group never exceed its count |
| Outcomes.LatestIsFirstMaximum | crates/control-plane-api/src/operations_routes.rs:1863-1890 | the tracked row is the first of those with the greatest finish text |
| Outcomes.LatestIsNewestInstant | crates/control-plane-api/src/operations_routes.rs:1863-1890 | the latest finish is that of a row that finished, and none when none did; for every row, it did not finish after that one if and only if the two years are written in time order |
| Outcomes.GroupsByInstant | crates/control-plane-api/src/operations_routes.rs:1916-1920 | groups that never finished come last, and of two groups the later one in the list did not finish after the earlier if and only if the two years are written in time order |
| Outcomes.SortIsStable | crates/control-plane-api/src/operations_routes.rs:1916-1920 | groups come newest first and groups with equal keys keep their order |
| Outcomes.SortIsPermutation | crates/control-plane-api/src/operations_routes.rs:1916-1920 | sorting loses and adds no group |
| Outcomes.NormalizeOutcomes | crates/control-plane-api/src/operations_routes.rs:1924-1941 | the in-place normaliser of a whole response, for any JSON value |
| OutcomeGroups.ResponseExactly | crates/control-plane-api/src/operations_routes.rs:1924-1941 | which fields of the whole response change and to what; anything without an action list is returned as it is |
| Outcomes.NormalizedTwice | crates/control-plane-api/src/operations_routes.rs:1924-1941 | normalising a normalised response changes nothing |
| TenantEnv.ClosedForm | deploy/provisioner.py:800-906 | the three passes succeed or fail by the lines alone, and their result is the converged lines plus the missing tokens |
| TenantEnv.OutputIsSettled | deploy/provisioner.py:789-906 | the output has the same password, every managed key and every token |
| TenantEnv.PipelineAbsorbs | deploy/provisioner.py:800-906 | converging to plan A and then to B gives the lines of converging straight to B |
| TenantEnvFile.ConvergePass | deploy/provisioner.py:835-844 | the loop rewrites exactly the managed lines and reports whether anything changed |
| TenantEnvFile.AppendMissing | deploy/provisioner.py:845-848 | the managed keys not seen are appended in order |
| TenantEnvFile.TenantDir.constructor | deploy/provisioner.py:764-774 | a new tenant directory holds no file |
| TenantEnvFile.TenantDir.WriteOnce | deploy/provisioner.py:764-774 | an existing file is kept, a missing one created |
| TenantEnvFile.TenantDir.ConvergeSecretEnv | deploy/provisioner.py:800-850 | the file after convergence, and the error without a password; DeployedValues says which values it holds |
| TenantEnvFile.TenantDir.EnsureSecret | deploy/provisioner.py:873-906 | a token is appended when absent and refused when different or repeated |
| TenantEnvFile.TenantDir.Prepare | deploy/provisioner.py:923-926 | the `.env` part of a deployment is the text pipeline on the existing or the created file, and on a failure the text that the steps before it left |
| TenantEnvValues.DeployedValues | deploy/provisioner.py:789-906 | after any deployment that succeeds, the managed lines name the database of the plan as database and user, the URL taken apart gives that user, the password the file had and still has, the host of the plan or postgres, port 5432 and that database, and every configured token stands there once |
| TenantEnvValues.AppendedInOrder | deploy/provisioner.py:845-848 | a file without managed keys gains the three lines, written out, in this order |
| TenantEnvValues.ReadEnvValueExactly | deploy/provisioner.py:789-797 | a value is what follows the key on the first line that begins with it, trimmed, and nothing without such a line |
| TenantEnvValues.UrlTakenApart | deploy/provisioner.py:817-820 | a database URL gives its five parts back, whatever the password holds |
| TenantEnvFile.PipelineTextLines | deploy/provisioner.py:800-906 | the lines of the edited text are the edited lines if and only if the text does not end in a break other than a newline, convergence rewrites it, or no token is added |
| TenantEnvFile.DeployedLines | deploy/provisioner.py:800-906 | the lines of a redeployed file, for every file: converged, perhaps an empty line, then the missing tokens |
| TenantEnvFile.DeployAbsorbs | deploy/provisioner.py:800-906 | converging to A and then to B leaves the lines of converging straight to B if and only if the file does not end in a break other than a newline, receives no token, or is rewritten by both or neither |
| TenantEnvFile.FormFeedExample | deploy/provisioner.py:895-906 | a file ending in a form feed where it does not |
| TenantEnvFile.DeployAbsorbsExactly | deploy/provisioner.py:800-906 | on files with plain newlines absorption is byte for byte, so moving to another placement and back restores the file |
| TenantEnvFile.RedeployIsNoop | deploy/provisioner.py:923-926 | redeploying unchanged leaves any file as it is, byte for byte |
| TenantEnvFile.SecretsKeptVerbatim | deploy/provisioner.py:800-906 | every line the plan does not manage is kept verbatim and in order |
| TenantEnvFile.CreatedIsSettled | deploy/provisioner.py:566-602 | a freshly created env is already a fixed point |
| TenantEnvValues.CreatedValues | deploy/provisioner.py:566-602 | every line of a created file, written out over the placement, the secrets and the tokens |
| TenantEnvFile.CreatedTextIsSettled | deploy/provisioner.py:566-602 | and so is its text |
| RuntimeEnv.CreateRuntimeEnv | deploy/provisioner.py:605-695 | the loop over provider keys and the optional sections render the map, or raise when a profile lacks a key |
| RuntimeSettings.SettingsExactly | deploy/provisioner.py:605-695 | the whole map, setting by setting and in order, for every plan: nothing is overwritten |
| RuntimeSettings.MembersOkExactly | deploy/provisioner.py:320-350 | a roster is accepted exactly when every member is and no two share an address up to case and blanks |
| RuntimeSettings.StringReadsBack | deploy/provisioner.py:690-694 | a text written as a JSON string reads back as itself |
| RosterText.DumpsReads | deploy/provisioner.py:690-694 | what is written for any JSON value reads back as that value, whatever follows it |
| RosterText.RosterReadsBack | deploy/provisioner.py:690-694 | the setting of the roster, read as JSON, is the roster |
| RuntimeSettings.TenantIdExactly | deploy/provisioner.py:274 | the tenant id of the plan counts before that of the job |
| RuntimeEnv.ReadsBackExactly | deploy/provisioner.py:695 | a rendered map reads back as itself, one line per key, if and only if no value holds a line break |
| RuntimeEnv.RuntimeEnvReadsBackExactly | deploy/provisioner.py:263-409 | for every accepted plan keys are unique and the file reads back as the map if and only if no rendered profile value holds a line break |
| RuntimeEnv.CheckedPlansReadBack | deploy/provisioner.py:263-409 | schemas 4 and 5, and schema 3 without a profile, always read back and never raise |
| RuntimeEnv.UncheckedProfileBreaks | deploy/provisioner.py:361-382 | any object is accepted as the profile of a schema 3 plan, the file is written exactly when it has the keys the code indexes, and a line break in its locale breaks the file |
| RuntimeEnv.UncheckedProfileExample | deploy/provisioner.py:361-382 | beside every accepted schema 3 plan without a profile, one whose file is written and does not read back |
| DatabaseName.NameIsSafeIdentifier | deploy/provisioner.py:412-422 | for every valid slug and id the name has at most 63 characters and matches the safe identifier pattern; a truncated one has exactly 63 |
| DatabaseName.CollisionsExactly | deploy/provisioner.py:412-422 | exactly when two tenants are given one database; short slugs never collide with each other |
| RuntimeEnv.SharedDatabasesExactly | deploy/provisioner.py:387-403 | two accepted shared plans name one database exactly under that condition on their slugs and ids |
| DatabaseName.LongSlugHasShortTwin | deploy/provisioner.py:412-422 | every slug over 61 characters has a short valid slug with the same database |
| Deployments.AllocatedPorts | deploy/provisioner.py:723-734 | the loop collects exactly the ports of the records that can be read, and stops only at one that is no object |
| Deployments.CheckOthers | deploy/provisioner.py:740-752 | the scan of the other records reports a conflict only when there is one, and returns the port only when there is none |
| Deployments.ChoosePort | deploy/provisioner.py:737-761 | a tenant's own in-range port if it is read and held by no other record read, else the lowest port neither reserved nor in use, else exhaustion with every port taken; it stops only at a record that is no object |
| Deployments.AllocationIsDetermined | deploy/provisioner.py:737-761 | the state and the reads that fail determine the result, except which of two errors a tenant with its own port sees beside a record that is no object |
| Deployments.PortGivenExactly | deploy/provisioner.py:737-761 | when a claim is given a port at all: exactly when its own is read and unshared, or one in range is free, and no record in the way is no object |
| Deployments.GivenPort | deploy/provisioner.py:737-761 | a port given lies in the range, is held by no other record read, and is either the tenant's own or the lowest of the range that is neither bound nor recorded |
| Deployments.Root.constructor | deploy/provisioner.py:909-956 | an empty root |
| Deployments.Root.ProcessClaim | deploy/provisioner.py:1431-1454 | one claim from the record to the rendered compose file, in the order of the code; ClaimExactly and ClaimChangesExactly say how it ends |
| Deployments.ClaimExactly | deploy/provisioner.py:1431-1454 | from the state before and what happens around the claim, without the steps of the code: when each outcome is given, and that a claim renders if and only if a port is available, the secrets are written, the record does not raise, both images resolve, no recorded digest differs, the lease is held at both checks and the process lives |
| Deployments.ClaimChangesExactly | deploy/provisioner.py:909-956 | what a claim changes: nothing before the stamp, then version and port with the digests kept, the two digests only once both roles are pinned, and the compose file only when it renders |
| Deployments.ClaimKeepsPortsExactly | deploy/provisioner.py:737-761 | a claim keeps ports unique if and only if, in the state before it, no record that it cannot read holds the lowest port that it will see free and write |
| Deployments.PortsNeverShared | deploy/provisioner.py:909-956 | along every run, with any records unreadable at any step, no two records ever share a port if and only if no claim meets such a state |
| Deployments.RunningStacksKeepPorts | deploy/provisioner.py:737-761 | no claim does, and ports stay unique, as long as every tenant whose record cannot be read has its stack up on its port |
| Deployments.SharedPortRun | deploy/provisioner.py:723-761 | a run of two claims that ends with two tenants on one port and the next deployment stopped by the conflict |
| Deployments.PortsAreKept | deploy/provisioner.py:737-761 | along every run an own port that is read and in range is given back, reported as shared, or withheld because of a record that is no object; a tenant without one is told of exhaustion exactly when every port is seen taken; no conflict without a port given away |
| Deployments.DigestsNeverChange | deploy/provisioner.py:1125-1142 | while a tenant's record stays readable a recorded digest never changes |
| Deployments.ComposeIsPinned | deploy/provisioner.py:1431-1454 | every rendered compose file carries the recorded digests |
| Deployments.OneDigestPerTenant | deploy/provisioner.py:1431-1454 | so no release is ever rendered with two digests |
| Deployments.NewVersionNewDigestStops | deploy/provisioner.py:935-950 | a claim with another digest for either role always stops, with the outcome determined by the step that stops it, nothing rendered, and a record of the new version with the old digests |
| Deployments.DigestGuardExactly | deploy/provisioner.py:935-950 | a claim stops at the guard if and only if a port is available and the secrets are written, the stamped record is read back, and it names another digest for a role whose image resolves, the worker's after the api role has passed |
| Receipts.Directory.constructor | scripts/release_receipt.py:132-136 | an empty directory |
| Receipts.Directory.CmdPending | scripts/release_receipt.py:139-181 | where the command leaves the directory after any number of durable steps |
| Receipts.Directory.CmdPhase | scripts/release_receipt.py:184-197 | the same for a phase, which needs a pending release |
| Receipts.Directory.WriteReceipt | scripts/release_receipt.py:200-203 | the receipt is written under its release |
| Receipts.Directory.CmdFinalize | scripts/release_receipt.py:206-235 | the same for finalize, write by write |
| Receipts.Directory.CmdRollback | scripts/release_receipt.py:238-276 | the same for rollback, which never touches current or previous |
| Receipts.FinalizeFiles | scripts/release_receipt.py:206-235 | a completed finalize files the pending release under its own id with its phases and provenance, the status and times given, and changes no other receipt |
| Receipts.RollbackFiles | scripts/release_receipt.py:238-276 | a completed rollback files the pending release under its own id with its phases kept, or without one a minimal receipt under the id given, marked as rolled back with reason and times |
| Receipts.ReceiptsAreFiled | scripts/release_receipt.py:139-276 | after every crash-free run the receipts are exactly those of the finalizes and rollbacks, the last one for each release |
| Receipts.LastTwoFinalized | scripts/release_receipt.py:206-276 | after every crash-free run current and previous are the last two finalized releases |
| Receipts.EveryRunConsistent | scripts/release_receipt.py:139-276 | whatever crashes where, current is the newest promoted release and its receipt exists, and previous is its predecessor, torn, or a copy of current itself, exactly by the step at which the last copying finalize died |
| Receipts.CompletedFinalizeRestores | scripts/release_receipt.py:206-235 | any completed finalize restores the exact pair, whatever crashed before |
| Receipts.CurrentIsOldOrNew | scripts/release_receipt.py:206-235 | at every crash point current is wholly old, or wholly new with its receipt on disk |
| Receipts.RerunConverges | scripts/release_receipt.py:206-235 | re-running a finalize that died converges if and only if current had not been replaced; otherwise the predecessor is lost |
| Receipts.RollbackOverwritesReceipt | scripts/release_receipt.py:238-276 | a later rollback of a promoted release overwrites its receipt |
| Billing.RunIsReading | crates/control-plane-api/src/model.rs:196-221 | the state after any trace is a closed-form reading of its last start, payment, cancellation and refund |
| Billing.RedeliveryIsHarmless | crates/control-plane-api/src/model.rs:196-221 | a webhook delivered twice in a row, anywhere in any trace, changes nothing |
| Billing.RefundIsTerminal | crates/control-plane-api/src/model.rs:196-221 | only a fresh start leaves the refunded state |

## Left out

- CssFile.FileReadsAsDeduped: asks that what a removal leaves of a prelude neither opens a comment nor holds a brace; whether such remains do harm depends on where the comment they open ends, and is not classified (CommentRemainsExample is one that does). The exact condition is for the rules in their places; for preludes and bodies alone DeletionReadsExactly gives it for one removal.
- CssFile.FileKeepsMeaning: is one direction; MeaningKeptExactlyOnFiles is the exact statement.
- CssPromise.SeenAlikeExactly: asks for fitting edits, without which the text does not scan to the same rules.
- CssPromise.SeenSameExactly: asks for fitting edits, for rewritten rules without nested rules, and that no declaration is written back in part; SeenAlikeExactly, by the text as it will be written, covers such declarations too, and BracketExample is one.
- CssPromise.PromiseHolds: gives a sufficient condition; SeenSameExactly and SeenAlikeExactly are the exact ones.
- CssPromise.RuleThins: reads a property as its name and value text; fallback values, shorthands, vendor parsing and comments that separate two words are not part of the browser's model, an open bracket is taken to run to the end of the stylesheet and to lose its declaration, and how it tells selectors apart and reads bodies with nested rules or open strings is a parameter.
- CssFile.DedupeFile: takes the normalisation of selectors as a parameter, of which the script's is CssSelector.Normalize; leaves out the report it prints and the command line, and lower-cases ASCII letters only.
- DiscordThrottle.Throttle.DecideForward: leaves out the poisoned lock, past which every message is sent.
- LoginThrottle.Throttle.RecordFailure: models the arbitrary hash-map order by an arbitrary choice of the names to evict.
- Outcomes.NormalizeOutcomes: asks that no offset computation leaves 64 bits, where the code would panic.
- Timestamps.TuplesCompareAsInstants: takes the range and the text format of the date library as part of the model.
- TenantEnvFile.DeployAbsorbs: asks for derived values without line breaks, which validated placements have.
- RuntimeEnv.CreateRuntimeEnv: takes the URL parser and the printing of non-string values as parameters, and lower-cases ASCII letters only; plan values of unhashable types count as rejected.
- RuntimeSettings.SettingsExactly: takes the fixed server and tuning settings as constants of the model.
- RosterText.RosterReadsBack: asks that a float is printed as Python prints one, with a point, an exponent or a name.
- CssBlocks.GroupsUnderOneContext: tells groups apart by the preludes as written; at-rules that differ only in case or blanks are different contexts to the script.
- Deployments.Root.ProcessClaim: Docker, DNS, readiness checks and image resolution are arbitrary outcomes chosen per step.
- Braces inside CSS strings and anonymous layers: the scanner's reading of them is taken as it is.
- The lease protocol, session storage, the notifier outbox and the persisted heartbeat: their server side is not part of this model.
- Transport, audit and cache calls around the proxied surface, and the other route modules: calls around a network client.
- Configuration parsing, the network guard, health classification and the guarantee verdict: single-branch validators that would add only easy members.
- The frontend application, mock API and style guide: user interface and developer tooling.
