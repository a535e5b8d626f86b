# Hand-raise roles and team matching for a Discord league bot

This project is a Dafny model of the core of a Discord bot that runs evening practice
matches between university teams. A team "raises its hand" for a match hour by having a
member hold a short-lived marker role. Administrators can raise or lower hands for a team.
At match time the bot pairs the teams that raised their hands, leaving one team out when
the count is odd. A daily sweep deletes the marker roles.

The bot exists in two generations, and each is modelled with its own constants.

- **Newer generation** (`HelperConfig`, `RoleNameHelper`, `Sha126Utils`, `HelperUtils`).
  - Hours are 12, 21, 22 and 23.
  - Recruitment opens at 11:00 and closes 10 minutes before the match.
  - A marker role is named `"time:" + encrypt(now) + "-" + fingerprint(hour)`.
  - The fingerprint is the first 32 hex characters of SHA-256 of the decimal hour.
  - A name is parsed by skipping five characters and splitting on `"-"`.
  - A name is a bot-created tag when its timestamp decrypts and its fingerprint belongs
    to a configured hour.
  - The commands built on this scheme are `Handup`, `Handdown`, `AdminHandup`,
    `AdminHanddown` and `HandupList`, plus the sweep `RoleSweep`.
  - `HandRegistry` is the lower-hands loop that the two hand-down commands share.
- **Older generation** (`OldConfig`, `OldUtils`, `Matching`, `MatchCommand`).
  - Hours are 19 to 23.
  - Recruitment opens at 12:00 and closes 13 minutes before the match.
  - A slot role is named `"time:" + SHA-256 hex of the decimal hour`.
  - `Matching` is the scheduled matching job and `MatchCommand` the `/uc-match` command.
  - Both share the team tests and the sort-and-pop selection in `TeamSelection`.

The Discord guild is the class `Discord.Guild`.
- It holds the role table, in cache order, and the members.
- Each member holds a set of role ids.
- `member.roles.cache` and `role.members` are derived from these, in guild order.
- Commands that change roles are methods over a `Guild?`. A null guild is an interaction
  without a guild.
- Read-only code works on a `GuildState` value snapshot.

Each command returns an `Outcome`: `Rejected(reason)` for each guard that stops it, and
`Done(...)` with what it produced. Guard chains are stated as specification functions, and
the handler methods are proved equal to them.

Three things are parameters rather than code:
- the SHA-256 digest and the AES timestamp cipher, a `Crypto` value;
- the JST clock: hour, minute, `now` and the creation time;
- the random shuffle, a function on sequences.

`Primitives.Sound` states the only facts the proofs use about the cipher and the digest:
- the digest is 64 lower-case hex characters;
- the ciphertext is lower-case hex;
- decryption inverts encryption.

Distinct fingerprints for the four configured hours are assumed only where a lemma says
so, in its `requires`.

## Where the code departs from its evident intent

The model follows the code in each of these cases.

- **The least/normal split covers every team role, not only the participants.**
  - Both matching variants split all team roles (`src/matching.ts:120-133`,
    `src/commands/match.ts:115-125`).
  - On an odd count the final list is therefore built from the whole pool, participants
    or not.
  - In `/uc-match`, an odd count fails exactly when the pool size is even
    (`MatchCommand.OddCountPairsWholePool`).
- **The scheduled job cannot handle an odd count without least-priority teams.**
  - On an odd participating count, `src/matching.ts:145-149` pops from the normal pool and
    then appends the normal pool again.
  - The final list has odd length 2n-1, and the last pair's missing partner makes
    `returnRoleNameWithLeastTag(undefined)` throw.
  - The job then replies with its error message (`Matching.OddCountWithoutLeastTeamsFails`).
- **A removal or deletion failure fails the whole batch.**
  - Hand-down and the sweeps use `Promise.all`, so one refused call produces the error
    reply.
  - The other calls still take effect, as the model states, although the reply
    reports a failure.
- **The "still odd after exclusion" case is not a dedicated error.** It shows up as a
  `TypeError` inside the `try` and produces the generic error reply (`Failed`).
- **The shuffle is not uniform.** It is `sort(() => Math.random() - 0.5)`. The model
  takes an arbitrary permutation (`TeamSelection.Permutes`).
- **`/uc-handup-list` never lists anything in a real guild.** Its team filter calls
  `includes` on a `Set`; see "## Findings".
- **Some guards can never fire.**
  - `getTimeRoleName`'s null guard in both matching variants.
  - `callerTeamRoles.size === 0` in hand-down, which `checkHasAcceptRole` already
    excludes (`Handdown.TeamRoleGuardsAgree`).
  - `role.members.size > 0` in `adminHandup`, because every gathered role is held by the
    team member it came from.

## Model

| member | source | states |
|---|---|---|
| Seqs.Filter | src/commands/match.ts:92-102 | `filter` keeps exactly the elements passing the test, in order, and never more than it got |
| Seqs.FilterSplits | src/commands/match.ts:113-125 | filtering by a test and by its negation loses and duplicates nothing |
| Text.Drop | src/helper/role-name-helper.ts:14 | `slice(k)`: the characters after the first k, or "" |
| Text.Take | src/helper/sha126Utils.ts:9 | `slice(0, k)`: a prefix of length k, or the whole text when shorter |
| Text.Split | src/helper/role-name-helper.ts:14 | `split("-")`: at least one field, and no field contains the separator |
| Text.SplitWithoutSep | src/helper/role-name-helper.ts:14 | a text without the separator splits into itself alone |
| Text.SplitAtFirstSep | src/helper/role-name-helper.ts:14 | the first field is everything before the first separator, and the rest splits on its own |
| Text.DecimalString | src/helper/sha126Utils.ts:8 | `n.toString()`: non-empty, with a leading "-" exactly for negative numbers |
| Text.NatString | src/commands/match.ts:155 | a role id renders as a non-empty string of decimal digits |
| Primitives.JsRem | src/helper/utils.ts:56-64 | JavaScript's `%`: the remainder has the dividend's sign and is the dividend itself when it is smaller than the divisor |
| Discord.MemberRoles | src/helper/utils.ts:107 | a member's role cache holds exactly the guild roles whose id the member holds |
| Discord.RoleMembers | src/helper/utils.ts:104 | a role's members are exactly the guild members holding its id |
| Discord.FindByName | src/utils.ts:93-98 | undefined exactly when no role has the name; otherwise the first role in cache order that has it |
| Discord.FreshId | src/helper/utils.ts:89-92 | a created role gets an id larger than every id in use |
| Discord.WithoutRole | src/helper/rmTimeRole.ts:9 | deleting a role leaves exactly the roles with other ids, and ids stay unique |
| Discord.Guild.AddMemberRole | src/commands/handup.ts:104 | only the chosen member changes, gaining the role's id |
| Discord.Guild.RemoveMemberRole | src/commands/handdown.ts:124 | only the chosen member changes, losing the role's id |
| Discord.Guild.CreateRole | src/helper/utils.ts:89-92 | a role with the name and an unused id is appended; members are untouched |
| Discord.Guild.DeleteRole | src/helper/rmTimeRole.ts:9 | the role leaves the guild and every member's role set |
| RoleNameHelper.SplitRole | src/helper/role-name-helper.ts:9-16 | the two fields never contain "-"; the second is missing when the text after the header has no "-" |
| RoleNameHelper.SafeDecodeUnixTimestamp | src/helper/role-name-helper.ts:27-39 | -1 when decryption throws or gives a negative number; otherwise what was decrypted, which is non-negative or NaN |
| RoleNameHelper.GetTimeStampFromRoleName | src/helper/role-name-helper.ts:18-25 | null exactly when the timestamp field decodes below zero; otherwise the decrypted number, which is non-negative or NaN |
| RoleNameHelper.IsCreatedRole | src/helper/role-name-helper.ts:41-53 | a name is a bot-created tag exactly when it has a second field, its timestamp reads as non-null and that field is the fingerprint of a configured hour |
| RoleNameHelper.IsCreatedAndIsAtTimeRole | src/helper/role-name-helper.ts:55-61 | a tag at an hour is a created tag, and the hour's fingerprint belongs to a configured hour |
| RoleNameHelper.SplitRoleIgnoresHeader | src/helper/role-name-helper.ts:14 | the header characters are skipped by length and never compared: any five characters parse alike |
| RoleNameHelper.SplitTagged | src/helper/role-name-helper.ts:13-15 | header + a + "-" + tail splits into a and the first field of tail |
| RoleNameHelper.SplitRoleKeepsTwoFields | src/helper/role-name-helper.ts:14 | only the first two fields are kept; anything after a second "-" is dropped |
| RoleNameHelper.SplitRoleWithoutSep | src/helper/role-name-helper.ts:14-15 | without a "-" after the header the fingerprint field is undefined |
| RoleNameHelper.CreateRoleNow | src/helper/role-name-helper.ts:63-65 | a new tag opens with the five-character header that parsing skips |
| RoleNameHelper.SplitCreatedRole | src/helper/role-name-helper.ts:63-65 | round trip: a tag built by createRoleNow splits back into the ciphertext and the hour fingerprint |
| RoleNameHelper.SafeDecodeRoundTrip | src/helper/role-name-helper.ts:27-39 | decoding an encrypted timestamp gives it back |
| RoleNameHelper.SortNumber | src/helper/role-name-helper.ts:5-7 | the comparator is a number exactly when both timestamps decode, and is then negative exactly when the first is the earlier |
| RoleNameHelper.SortNumberByCreation | src/helper/role-name-helper.ts:5-7 | the comparator on two created tags is the difference of their creation times |
| RoleNameHelper.TimeStampOfCreatedRole | src/helper/role-name-helper.ts:18-25 | a created tag yields the time it was created at |
| RoleNameHelper.TimeStampIgnoresFingerprint | src/helper/role-name-helper.ts:18-20 | the timestamp read never looks at the fingerprint field |
| RoleNameHelper.CreatedRoleIsRecognised | src/helper/role-name-helper.ts:41-53 | a tag created for a configured hour passes isCreatedRole |
| RoleNameHelper.NoSecondFieldIsNotCreated | src/helper/role-name-helper.ts:42-45 | a name without "-" after the header (every team name) is never a created tag |
| RoleNameHelper.OldSchemeNameIsNotCreated | src/helper/role-name-helper.ts:41-45 | an older-generation name "time:" + SHA-256 hex is never a created tag |
| RoleNameHelper.WrongLengthFingerprintIsNotCreated | src/helper/role-name-helper.ts:49-51 | a fingerprint field that is not 32 characters long never validates |
| RoleNameHelper.GarbageIsNotCreated | src/helper/role-name-helper.ts:41-53 | "time:garbage-garbage" fails validation |
| RoleNameHelper.NaNTimestampIsAccepted | src/helper/role-name-helper.ts:21-23 | a timestamp whose plaintext parses to NaN passes both `< 0` tests: the tag counts as created and its timestamp reads as NaN, not null |
| RoleNameHelper.CreatedRoleIsAtItsHour | src/helper/role-name-helper.ts:55-65 | a tag created for hour t is a hand-raise for t |
| RoleNameHelper.CreatedRoleIsNotAtOtherHour | src/helper/role-name-helper.ts:55-61 | it is a hand-raise for no other configured hour, as long as the fingerprints of the hours differ |
| RoleNameHelper.AtTimeRoleHourIsUnique | src/helper/role-name-helper.ts:55-61 | a tag is a hand-raise for at most one configured hour |
| Sha126Utils.ToEncored128 | src/helper/sha126Utils.ts:6-10 | the fingerprint is a prefix of the hex digest of the number's decimal text; with a sound digest it is 32 lower-case hex characters |
| Sha126Utils.IsInStartOclocks | src/helper/sha126Utils.ts:12-20 | the flag loop is true exactly when some configured hour has that fingerprint |
| Sha126Utils.IsStartOclockFingerprint | src/helper/sha126Utils.ts:12-20 | with a sound digest, a fingerprint of a configured hour is 32 lower-case hex characters |
| Sha126Utils.GetAllCreatedEncored128 | src/helper/sha126Utils.ts:22-28 | the set holds exactly the fingerprints of the configured hours: at most one per hour, and exactly one per hour when they differ |
| Sha126Utils.FingerprintsOf | src/helper/sha126Utils.ts:22-28 | a string is in the set exactly when it is the fingerprint of one of the hours |
| Sha126Utils.FingerprintsOfSize | src/helper/sha126Utils.ts:22-28 | the set has at most as many elements as there are hours |
| Sha126Utils.DistinctFingerprintsOfSize | src/helper/sha126Utils.ts:22-28 | with pairwise different fingerprints the set has exactly one per hour |
| Sha126Utils.GetTimeTuples | src/helper/sha126Utils.ts:30-36 | one pair per configured hour, in order, each with that hour's fingerprint, which validates |
| HelperUtils.IsAcceptTime | src/helper/utils.ts:38-68 | hands are only ever accepted for a configured hour and from the recruitment hour on |
| HelperUtils.AcceptWindow | src/helper/utils.ts:38-68 | hands for hour w are taken exactly when w is a configured hour, the JST hour is at least the recruitment hour, and the clock is before (w-1):50 |
| HelperUtils.NoonWindow | src/helper/utils.ts:51-66 | for the 12 o'clock match the window is 11:00-11:49 only |
| HelperUtils.GetRoleByName | src/helper/utils.ts:70-80 | the loop returns the first role in cache order with that name, or nothing |
| HelperUtils.GetOrCreateRole | src/helper/utils.ts:82-100 | an existing role of that name is returned and nothing changes; otherwise a role of that name with an unused id is appended to the guild |
| HelperUtils.GrantHourRole | src/helper/utils.ts:86-98 | a refused creation (only possible when no role of that name exists) changes nothing; otherwise the role is the one getOrCreateRole gives, and it is added to exactly the chosen member unless the add is refused |
| HelperUtils.HasLeastRoleName | src/helper/utils.ts:102-114 | the flag loop is true exactly when some member holding the team role holds a role named 試合数5 |
| HelperUtils.HoldsNamed | src/helper/utils.ts:107-111 | the inner loop sets the flag exactly when one of the member's roles has the name |
| HelperUtils.ReturnRoleNameWithLeastTag | src/helper/utils.ts:116-119 | the display name is the tagged name of the team |
| HelperUtils.TaggedNameExtendsName | src/helper/utils.ts:116-119 | the display name starts with the team name; it equals it exactly for teams without the least-priority role, and otherwise ends in " (試合数5)" |
| HelperUtils.CheckHasAcceptRole | src/helper/utils.ts:121-129 | the flag loop is true exactly when the member holds a role whose name is an accepted team name |
| HelperUtils.GetAllRoleByTargetTime | src/helper/utils.ts:131-145 | nothing for an unconfigured hour; otherwise exactly the guild roles that are hand-raises for that hour, without repeats |
| HelperUtils.GetTimeRolesTuple | src/helper/utils.ts:147-156 | one entry per configured hour, in order, holding exactly that hour's hand-raise roles; when the hour fingerprints differ no role is listed under two hours |
| OldUtils.IsAcceptTime | src/utils.ts:37-66 | hands are only ever accepted for a configured hour and from the recruitment hour on |
| OldUtils.AcceptWindow | src/utils.ts:37-66 | hands for hour w are accepted exactly when w is configured, it is 12:00 or later, and the clock is before (w-1):47 |
| OldUtils.ParseTimeRoleName | src/utils.ts:68-76 | a time-role name is "time:" followed by the hex SHA-256 of the decimal hour |
| OldUtils.TimeRoleNameShape | src/utils.ts:68-76 | with a sound digest the name is 69 characters and has no "-" |
| OldUtils.GetTimeRoleName | src/utils.ts:86-91 | null exactly for an unconfigured hour, otherwise the hour's time-role name |
| OldUtils.GetTimeRoleTuples | src/utils.ts:78-84 | one tuple per configured hour, in Set order, each paired with its time-role name |
| OldUtils.GetAllTimeRoleNames | src/utils.ts:100-104 | the time-role name of every configured hour, in Set order |
| OldUtils.HasLeastRoleName | src/utils.ts:126-131 | a team can only be least-priority when the guild has a role named 試合数5 |
| OldUtils.HasLeastRoleNameOnIds | src/utils.ts:126-131 | a team is least-priority exactly when some member holds both the team role and a role named "試合数5" |
| OldUtils.ReturnRoleNameWithLeastTag | src/utils.ts:133-138 | a named team shows its bare name; only the fallback text can carry the tag; an undefined role throws |
| OldUtils.TeamNameIsUntagged | src/utils.ts:133-138 | an accepted team never shows the least-priority tag |
| OldUtils.CheckHasAcceptRole | src/utils.ts:140-142 | a member can only pass when the guild has a role with an accepted team name |
| OldUtils.CheckHasAcceptRoleOnIds | src/utils.ts:140-142 | a member passes exactly when it holds the id of a guild role named in the accepted team list |
| TeamSelection.MemberlessTeamIsLeast | src/matching.ts:120-131 | `every` over no members is true, so a team nobody holds is least-priority |
| TeamSelection.LeastTestAcceptsSubstrings | src/matching.ts:125 | the test is `leastRoleName.includes(name)`: a role named "試合", a substring, also makes a member least-priority |
| TeamSelection.PartitionSplitsPool | src/matching.ts:116-133 | every team of the whole pool, not only participants, is in exactly one of least and normal |
| TeamSelection.SplitByLeast | src/commands/match.ts:113-125 | the push loop builds exactly the least and normal lists of the pool, in pool order |
| TeamSelection.SplitBy | src/commands/match.ts:115-125 | a single pass sends each team to the first list if it passes the test and to the second otherwise |
| TeamSelection.InsertByCreated | src/matching.ts:142 | one insertion step of the sort adds exactly the new team |
| TeamSelection.InsertKeepsSorted | src/matching.ts:142 | inserting into a list ordered by creation time keeps it ordered |
| TeamSelection.SortByCreated | src/matching.ts:142 | `sort` by `createdTimestamp` returns an ordered permutation of its input |
| TeamSelection.LastIsLatest | src/matching.ts:143 | the last element of a sorted list has the largest creation time |
| TeamSelection.PopLatest | src/matching.ts:141-143 | `pop` after the sort takes one of the teams and leaves one fewer |
| TeamSelection.PopLatestIsLatest | src/matching.ts:141-143 | sort then `pop` removes one team of the list, one created no earlier than any other, and keeps the rest |
| TeamSelection.PairUp | src/matching.ts:158-162 | an even list gives one pair per two teams |
| TeamSelection.Flatten | src/matching.ts:158-162 | listing the pairs' teams gives two teams per pair |
| TeamSelection.PairUpFlattens | src/matching.ts:158-162 | pairing consecutive positions loses, repeats and reorders nothing |
| Matching.PoolOf | src/matching.ts:78-88 | the pool holds, once each, exactly the first guild role carrying each listed name |
| Matching.TeamPoolIsFirstOfEachName | src/matching.ts:78-88 | the team pool is the first role of each accepted team name; missing names are skipped |
| Matching.CollectTeamRoles | src/matching.ts:78-88 | the `for … of acceptRolls` loop builds exactly the team pool |
| Matching.CollectParticipating | src/matching.ts:91-105 | the `forEach` keeps exactly the pool teams with a member holding a role named like the time role, in pool order |
| Matching.PairTeams | src/matching.ts:157-162 | the `i += 2` loop completes exactly on an even list, giving its consecutive pairs; on an odd list the missing partner throws |
| Matching.SelectFinal | src/matching.ts:135-152 | a team is dropped exactly on an odd count with some team in either pool; it comes from the least pool whenever that is non-empty, and from the two pools in any case |
| Matching.ChooseFinal | src/matching.ts:135-152 | the sort-and-pop code computes the selection whose properties OddLeastSelection and SelectWithoutLeastIsOdd state |
| Matching.PairingSpec | src/matching.ts:107-172 | after the guards the only rejections are too few teams and a thrown error |
| Matching.MatchTeams | src/matching.ts:76-172 | the `try` block's result is the pairing specification over the team pool |
| Matching.Matching | src/matching.ts:29-182 | the whole job's result is the matching specification |
| Matching.MatchingGuards | src/matching.ts:38-63 | an unconfigured hour is rejected first, the null-name guard never fires, and a missing guild is rejected next |
| Matching.MissingTimeRoleIsRejected | src/matching.ts:65-74 | the "no time role" reply comes exactly when the guild has no role with the hour's name |
| Matching.TooFewTeamsAreRejected | src/matching.ts:107-114 | fewer than two participating teams give no pairing |
| Matching.EvenCountPairsParticipants | src/matching.ts:150-162 | an even count pairs every participant exactly once and leaves nobody out |
| Matching.OddCountDropsLatestLeastTeam | src/matching.ts:139-149 | on an odd count with least-priority teams, the dropped team is the latest-created least team; a pairing then covers the whole pool but that team, participants or not |
| Matching.MatchingOutcome | src/matching.ts:155-168 | a successful reply pairs consecutive positions of the shuffled final list and reports the selection's excluded team |
| Matching.OddLeastSelection | src/matching.ts:139-144 | popping the latest least team leaves the rest of the least pool plus the normal pool |
| Matching.SelectWithoutLeastIsOdd | src/matching.ts:145-149 | without least teams the final list is the normal pool minus one plus the normal pool again, of odd length 2n-1 |
| Matching.OddCountWithoutLeastTeamsFails | src/matching.ts:145-162 | so an odd participating count with no least-priority team always ends in the error reply |
| Matching.PairingWithoutLeastFails | src/matching.ts:145-162 | the same, over any pool and time role |
| MatchCommand.CommandPairing | src/commands/match.ts:90-167 | after the guards the only rejections are too few teams and a thrown error |
| MatchCommand.PairNames | src/commands/match.ts:145-150 | the loop completes exactly on an even list, giving its consecutive pairs; on an odd list `.name` of undefined throws |
| MatchCommand.CommandSelect | src/commands/match.ts:127-140 | a team is dropped exactly on an odd count with some team in either pool; it comes from the least pool whenever that is non-empty, and from the two pools in any case |
| MatchCommand.ChooseFinal | src/commands/match.ts:127-140 | the sort-and-pop code computes the selection whose properties OddCountDropsLatestTeam states |
| MatchCommand.PairPool | src/commands/match.ts:90-167 | the `try` block's result is the pairing specification over the command's pool |
| MatchCommand.Execute | src/commands/match.ts:28-168 | the command's reply is the match specification |
| MatchCommand.MatchGuards | src/commands/match.ts:36-88 | guards in order: unconfigured hour, then missing guild, then a caller neither admin nor holding an accepted team role; the null-name guard never fires |
| MatchCommand.CommandPool | src/commands/match.ts:92-96 | the pool holds exactly the guild roles with an accepted team name |
| MatchCommand.CommandPoolIsAcceptedRoles | src/commands/match.ts:92-96 | the pool is every guild role with an accepted team name, not only the first of each name |
| MatchCommand.TooFewTeamsAreRejected | src/commands/match.ts:104-111 | once the guards pass, fewer than two participants give no pairing |
| MatchCommand.EvenCountPairsParticipants | src/commands/match.ts:129-150 | an even count pairs every participant exactly once and excludes nobody |
| MatchCommand.OddCountDropsLatestTeam | src/commands/match.ts:131-140 | on an odd count the latest least team is dropped, or the latest normal team when there is no least team; the final list is the rest of both pools |
| MatchCommand.OddSelectionCoversPool | src/commands/match.ts:131-143 | the final list is one shorter than the pool, and a pairing of it plus the dropped team is the whole pool |
| MatchCommand.OddCountPairsWholePool | src/commands/match.ts:131-154 | an odd count fails exactly when the pool size is even; otherwise every pool team, participant or not, is paired once or dropped |
| MatchCommand.OddCountSelection | src/commands/match.ts:131-143 | the odd-count selection over the pool's least and normal split drops one team and covers the rest of the pool |
| MatchCommand.PairingOutcome | src/commands/match.ts:143-154 | the reply fails exactly when the shuffled list is odd; otherwise it pairs consecutive positions and reports the excluded team |
| HandRegistry.RemovedIdsExactly | src/commands/handdown.ts:121-124 | a member loses exactly the ids of its roles that match the hour and whose removal does not fail |
| HandRegistry.CollectExactly | src/commands/handdown.ts:116-123 | the `deletedRoleSet` holds each matching role once, in first-seen order |
| HandRegistry.AnyRefusedExactly | src/commands/handdown.ts:124-130 | the batch fails exactly when one of the member's matching roles cannot be removed |
| HandRegistry.CollectAllExactly | src/commands/handdown.ts:116-127 | over the whole team the reported set holds each role some team member holds and that matches the hour, once |
| HandRegistry.AnyRefusedAllExactly | src/commands/handdown.ts:129-130 | `Promise.all` rejects exactly when some collected role's removal fails |
| HandRegistry.LowersRoleSnoc | src/commands/handdown.ts:120 | one more member adds exactly its own matching roles to the reported set |
| HandRegistry.LowerOneMember | src/commands/handdown.ts:121-126 | the inner loop strips exactly the member's matching roles and no other member changes |
| HandRegistry.LowerStep | src/commands/handdown.ts:121-126 | one more role of the member updates the removed ids, the set and the failure flag by that role alone |
| HandRegistry.LowerHands | src/commands/handdown.ts:119-130 | every guild member ends as the per-member lowering says; guild roles stay; the report and the failure flag are the team-wide ones |
| HandRegistry.Bullets | src/commands/handdown.ts:134-142 | one "- name" line per reported role, in order |
| HandRegistry.JoinIncludesPart | src/commands/handdown.ts:140-142 | `join` keeps every part in the text |
| HandRegistry.LoweredMessage | src/commands/handdown.ts:133-146 | the success text opens with a level-2 header naming the team |
| HandRegistry.LoweredMessageListsRoles | src/commands/handdown.ts:133-146 | an empty report gives the header plus the "no target" line; otherwise every reported role's line is in the message |
| HandRegistry.LoweringRemovesExactlyHourRoles | src/commands/handdown.ts:119-127 | only team members change, only by losing roles, and a role goes exactly when it matches the hour and its removal does not fail |
| HandRegistry.LoweringIsIdempotent | src/commands/handdown.ts:119-127 | lowering an already lowered member changes nothing |
| HandRegistry.SecondLoweringMeetsNothing | src/commands/handdown.ts:119-127 | after a successful lowering no team member holds a role for that hour |
| HandRegistry.SecondLoweringReportsNothing | src/commands/handdown.ts:116-146 | so running it again reports an empty set and cannot fail |
| Handup.HasRaised | src/commands/handup.ts:83-90 | the `break` loop finds a raised hand exactly when one of the caller's own roles matches the hour |
| Handup.Execute | src/commands/handup.ts:29-122 | a failing guard changes nothing; otherwise the tag role is found or created, then added to the caller only, and each API failure gives the error reply |
| Handup.HandupCheck | src/commands/handup.ts:51-98 | a successful check yields the requested hour, which is configured, for a guild in which the caller holds an accepted team role |
| Handup.HandupGuards | src/commands/handup.ts:51-98 | an unacceptable time is rejected first; the raise goes ahead exactly when the time is acceptable, the guild exists, the caller holds a team role and none of the caller's roles matches the hour; and then the hour is configured |
| Handup.GrantedRoleRaisesHand | src/commands/handup.ts:100-104 | after the raise the caller holds a role matching the hour |
| Handup.SecondHandupIsRejected | src/commands/handup.ts:83-104 | a second raise for the same hour is rejected as already raised |
| Handup.HandupMessageNamesRole | src/commands/handup.ts:106-110 | the success reply names the granted role |
| Handdown.Execute | src/commands/handdown.ts:28-165 | a missing guild or a failing guard changes nothing; otherwise every guild member is lowered for the team and hour, guild roles stay, and a failed removal gives the error reply |
| Handdown.TeamRoleGuardsAgree | src/commands/handdown.ts:73-93 | `checkHasAcceptRole` fails exactly when the caller holds no team role, so the following `size === 0` guard never fires |
| Handdown.HanddownCheck | src/commands/handdown.ts:60-113 | a successful check is for a configured hour, and selects a guild role with an accepted team name that the caller holds |
| Handdown.HanddownGuards | src/commands/handdown.ts:60-113 | an unacceptable time is rejected first; no team role is rejected as such; the lowering goes ahead exactly when the time is acceptable and the caller holds exactly one team role, which is then the selected team |
| Handdown.OtherHoursSurvive | src/commands/handdown.ts:120-127 | tags for any other configured hour are kept, given distinct hour fingerprints |
| AdminHandup.FirstHolder | src/commands/adminHandup.ts:106 | `members.values().next()` is the first guild member, in member order, that holds the team role |
| AdminHandup.CollectTeamRoles | src/commands/adminHandup.ts:120-128 | the nested loops gather exactly the roles held by team members that have a member, each once |
| AdminHandup.GatherStep | src/commands/adminHandup.ts:121-127 | one more team member adds only its own roles to the gathered set |
| AdminHandup.GatherRolesStep | src/commands/adminHandup.ts:123-127 | one more role is added when it passes the test and is new |
| AdminHandup.HourRolesAmong | src/commands/adminHandup.ts:130-136 | `nowTimeRoles` holds, once each, the gathered roles matching the hour |
| AdminHandup.TeamHasRaised | src/commands/adminHandup.ts:120-138 | the check reports a raised hand exactly when some team member holds a role matching the hour |
| AdminHandup.Execute | src/commands/adminHandup.ts:30-178 | a failing guard changes nothing; otherwise the tag role is found or created, then added to the team's first member only, and each API failure gives the error reply |
| AdminHandup.GatherRolesExactly | src/commands/adminHandup.ts:123-127 | the set holds each passing role once, and nothing else |
| AdminHandup.GatherExactly | src/commands/adminHandup.ts:120-128 | the gathered set is exactly the roles some team member holds and some member holds, without repeats |
| AdminHandup.TeamRaisedIsFoundByLoops | src/commands/adminHandup.ts:120-138 | a non-empty `nowTimeRoles` means exactly that some team member holds a role for the hour |
| AdminHandup.AdminHandupCheck | src/commands/adminHandup.ts:74-145 | a successful check is for an admin caller and yields the requested, configured hour, for an accepted team role that some member holds |
| AdminHandup.AdminHandupGuards | src/commands/adminHandup.ts:74-145 | a non-admin is rejected; the raise goes ahead exactly for an admin, a configured hour, an accepted team with a member, and a team with no hand raised for that hour |
| AdminHandup.HolderRaisesTeam | src/commands/adminHandup.ts:120-138 | any team member's tag for the hour counts for the whole team |
| AdminHandup.SecondAdminHandupIsRejected | src/commands/adminHandup.ts:120-151 | after a raise, a second one for the same team and hour is rejected as already raised |
| AdminHanddown.Execute | src/commands/adminHanddown.ts:29-193 | a missing guild or a failing guard changes nothing; otherwise every guild member is lowered for the chosen team and hour, guild roles stay, and a failed removal gives the error reply |
| AdminHanddown.AdminHanddownCheck | src/commands/adminHanddown.ts:71-139 | a successful check is for an admin caller, yields the selected role and hour, the hour configured and the role an accepted team role that some member holds |
| AdminHanddown.AdminHanddownGuards | src/commands/adminHanddown.ts:71-139 | a non-admin is rejected; the lowering goes ahead exactly for an admin, a configured hour with no clock check, an accepted team role, and a team with at least one member |
| AdminHanddown.TeamMembersLoseHourRoles | src/commands/adminHanddown.ts:147-154 | a team member loses a role exactly when it matches the hour and its removal does not fail |
| HandupList.EntryLines | src/commands/handup-list.ts:115-118 | one line per listed team |
| HandupList.SectionTexts | src/commands/handup-list.ts:112-122 | one text per section |
| HandupList.CollectNames | src/commands/handup-list.ts:95-102 | the two inner loops collect, member by member, the names of the members' roles matching the hour |
| HandupList.HourNamesStep | src/commands/handup-list.ts:96-101 | one more member appends exactly its own matching names |
| HandupList.HeldNames | src/commands/handup-list.ts:97-101 | the innermost loop keeps the names of the roles that match the hour, in order |
| HandupList.NamesOfStep | src/commands/handup-list.ts:97-101 | one more role appends its name exactly when it matches |
| HandupList.TeamEntries | src/commands/handup-list.ts:93-106 | the per-hour loop keeps, in order, the teams with at least one name, each with its names joined by ", " |
| HandupList.BuildSections | src/commands/handup-list.ts:87-110 | the `forEach` over the hours keeps, in hour order, the hours with at least one entry |
| HandupList.SectionsStep | src/commands/handup-list.ts:89-109 | one more hour appends its section exactly when it has entries |
| HandupList.Listing | src/commands/handup-list.ts:79-124 | from the team roles on, the command builds the title followed by the rendered sections of the teams that have a member holding a bot-created tag |
| HandupList.Execute | src/commands/handup-list.ts:26-144 | the handler as written returns the as-written outcome: the guards, then the error reply for an admin whenever the guild has a cached role, else the title alone |
| HandupList.ExecuteIntended | src/commands/handup-list.ts:26-129 | the handler with the intended filter returns the intended outcome: the same guards, then the listing |
| HandupList.RenderSections | src/commands/handup-list.ts:112-122 | the `map` renders each section in turn |
| HandupList.SectionTextsSnoc | src/commands/handup-list.ts:112-122 | rendering one more section appends its text alone |
| HandupList.TeamRolesOf | src/commands/handup-list.ts:72-76 | the intended team filter keeps exactly the guild roles whose name is an accepted team name |
| HandupList.ListedTeamsExactly | src/commands/handup-list.ts:72-83 | with line 74 read as the intended membership test of `acceptRolls`, a team is listed exactly when it is a guild role with an accepted name and some member holding it holds a bot-created tag |
| HandupList.NamesOfExactly | src/commands/handup-list.ts:97-101 | a name is collected exactly when some held role with that name matches the hour |
| HandupList.HourNamesExactly | src/commands/handup-list.ts:96-102 | a name is collected exactly when some team member holds a matching role with that name |
| HandupList.SharedRoleListedPerHolder | src/commands/handup-list.ts:96-102 | names are gathered per member, so a role held by k members appears at least k times |
| HandupList.EntriesAreTeams | src/commands/handup-list.ts:93-106 | every entry is a listed team with a non-empty name list, shown joined by ", " |
| HandupList.TeamsAreEntries | src/commands/handup-list.ts:103-105 | every team with a non-empty name list gets an entry |
| HandupList.SectionsExactly | src/commands/handup-list.ts:89-110 | every section is a configured hour with its non-empty entries, and every hour with entries gets a section |
| HandupList.SectionsFollowHours | src/commands/handup-list.ts:89-110 | sections appear in increasing hour order, as the hours are configured |
| HandupList.TeamNamesNonEmpty | src/commands/handup-list.ts:103 | a team's name list is non-empty exactly when some member holds a role matching the hour |
| HandupList.TeamShownUnderHour | src/commands/handup-list.ts:93-106 | a team appears under hour t exactly when it is listed and some member holds a role matching t |
| HandupList.SectionIffEntries | src/commands/handup-list.ts:107-109 | an hour gets a section exactly when it has entries |
| HandupList.EntriesIffTeamHolds | src/commands/handup-list.ts:103-108 | an hour has entries exactly when some team has a member holding a matching role |
| HandupList.SectionForHourExactly | src/commands/handup-list.ts:89-110 | a section for hour t appears exactly when some listed team has a member holding a role matching t |
| HandupList.JoinStartsWithFirst | src/commands/handup-list.ts:120 | a join begins with its first part |
| HandupList.ListMessageShape | src/commands/handup-list.ts:112-124 | the message starts with the title, each section with its hour header, and with no sections it is the title alone |
| HandupList.NoTeamsNoSections | src/commands/handup-list.ts:87-110 | with no participating team, no hour gets a section |
| HandupList.ListingOutcomes | src/commands/handup-list.ts:40-143 | as written: missing guild, missing member and non-admin are rejected in that order; an admin gets the error reply exactly when the guild has a cached role, and otherwise the title alone |
| HandupList.IntendedListingOutcomes | src/commands/handup-list.ts:40-129 | as intended: the same guards, and an admin always gets the listing of the listed teams over the configured hours |
| HandupList.EveryoneRoleBreaksListing | src/commands/handup-list.ts:72-76 | an admin in a guild whose only role is @everyone gets the error reply as written, and the title as intended |
| RoleSweep.Remaining | src/helper/rmTimeRole.ts:6-15 | after the deletions the guild keeps exactly the roles whose ids were not deleted |
| RoleSweep.RemainingStep | src/helper/rmTimeRole.ts:9 | deleting one more role removes just that id from what remains |
| RoleSweep.RemainingNone | src/helper/rmTimeRole.ts:6-15 | with nothing deleted the guild's roles are unchanged |
| RoleSweep.DeleteTargets | src/helper/rmTimeRole.ts:6-15 | each target is deleted unless its deletion fails; members lose exactly the deleted ids; the batch fails exactly when some deletion fails |
| RoleSweep.StrippedStep | src/helper/rmTimeRole.ts:9 | deleting one more role strips just that id from every member |
| RoleSweep.DeleteStep | src/helper/rmTimeRole.ts:6-15 | one more target adds its id to the deleted set unless it fails, and then the batch fails |
| RoleSweep.Sweep | src/helper/rmTimeRole.ts:4-17 | filter then delete: the guild loses exactly the targets that did not fail, members lose their ids, and the targets are returned unless a deletion failed |
| RoleSweep.RemoveCreatedRoles | src/helper/rmTimeRole.ts:4-17 | the sweep whose targets are the roles named like a bot-created tag |
| RoleSweep.RemoveNamedRoles | src/rmTimeRole.ts:3-24 | the sweep whose targets are the roles whose name is in the given list |
| RoleSweep.SweepLeavesExactly | src/rmTimeRole.ts:10-22 | a role survives exactly when it is not a target or its deletion failed |
| RoleSweep.SameIdSameRole | src/helper/rmTimeRole.ts:9 | with unique ids, a deletion by id removes just one role |
| RoleSweep.NoTargets | src/helper/rmTimeRole.ts:5 | no matching name means no targets |
| RoleSweep.SweepStripsMembers | src/rmTimeRole.ts:13-22 | an id is stripped from members exactly when it belongs to a target whose deletion did not fail |
| RoleSweep.NothingToSweep | src/helper/rmTimeRole.ts:5-16 | with no bot-created roles present, nothing is deleted and the empty list is returned |
| RoleSweep.EmptyNameListSweepsNothing | src/rmTimeRole.ts:10-23 | an empty name list deletes nothing and returns the empty list |
| RoleSweep.CreatedSweepSparesOtherNames | src/helper/rmTimeRole.ts:5-9 | a role whose name is not a bot-created tag is never deleted |

## Left out

- The internals of SHA-256 and AES-128-CBC (`src/helper/timestampCryptoUtils.ts`, `createHash`) are foreign code. They are the parameter `Crypto`, constrained only by `Primitives.Sound`. `src/helper/timestampCryptoUtils.ts` is not part of this model beyond that.
- Digest collisions between configured hours are not ruled out. Lemmas that need the hours to have different fingerprints say so in their `requires` (`HourFingerprintsDistinct`).
- The wall clock: `getJPDate` and the encrypted `now` are not modelled. Hour, minute, timestamp and creation time are parameters.
- `Math.random`: the shuffle is a parameter that may be any permutation. Uniformity and the actual order are not modelled.
- Concurrency: `Promise.all` batches are modelled as sequential loops. Which calls fail is a parameter (a set of refused role ids, or a flag for role creation and role adding). Interleavings, partial completion order and the rejected promise's message are not modelled.
- Discord I/O:
  - `deferReply`/`editReply`/`reply` and their failure branches;
  - embeds, colours and console logging;
  - channel fetching and `channel.send` in the scheduled matching job;
  - the message texts are modelled only where a property is about them: the match listings, the lowering report, the hand-up replies and the hand-up list.
- Type tests:
  - The `as GuildMember` casts in `handup.ts` and `handdown.ts` are modelled as an index of a guild member.
  - The `instanceof GuildMember` / `instanceof Role` tests on options are modelled as `Option` values.
  - The `instanceof` tests on cache entries always hold in the model.
- Discord caches are assumed coherent with the guild: `role.members` and `member.roles.cache` are computed from the role table and the members, in guild order. Role ids are natural numbers, and a new role gets a fresh id.
- `getOrCreateRole` of the older generation (`src/utils.ts:106-124`) is not modelled separately. It does the same as the newer one, `HelperUtils.GetOrCreateRole`, and no modelled older code calls it.
- `src/scheduler.ts`, `src/recruitment.ts`, `src/index.ts`, `src/helper/registerCommands.ts`, `src/commands/index.ts` and `src/commands/allHanddown.ts` are not part of this model. They hold cron wiring, message sending, bootstrap and command registration, and the last only forwards to the sweep.
- Matching.OddCountDropsLatestLeastTeam: states the excluded team and the coverage only for a reply that succeeds, because the code can fail after choosing (see above).
- The in-place sort and `pop` are modelled by their effect in `Matching.SelectFinal` and `MatchCommand.CommandSelect`: the popped team is one with the largest creation time. The order of the teams left behind is not modelled, because the shuffle discards it.

## Findings

| source | as written | input that shows it | evidently intended | confidence | as-written member | corrected member |
|---|---|---|---|---|---|---|
| src/commands/handup-list.ts:74 | the team filter calls `acceptRolls.includes(role.name)`, but `acceptRolls` is a `Set` (`src/helper/utils.ts:7`), which has no `includes`; the first cached role makes the callback throw a TypeError, and the catch replies with the error | an administrator runs `/uc-handup-list` in any guild, which always has the @everyone role (`HandupList.EveryoneRoleBreaksListing`) | `acceptRolls.has(role.name)`, as every other use of this set does, so that an administrator gets the listing | high; not executed | HandupList.Execute | HandupList.ExecuteIntended |
