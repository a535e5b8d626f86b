/** The configuration constants of the newer generation of the bot (src/helper/utils.ts). */
module HelperConfig {

  /** Recruitment hours (24-hour clock, JST), in Set insertion order. */
  const StartOclocks: seq<int> := [12, 21, 22, 23]

  /** No hand may be raised before this hour. */
  const StartRecruitment: int := 11

  /** Names of the team roles allowed to raise a hand. */
  const AcceptRolls: seq<string> := ["KMU", "UT", "NGT", "ITF", "HU", "Tohoku", "mir", "Rits",
                                     "MUS", "SU", "KU×TT", "Hosei", "K!T", "tym"]

  /** A member holding a role with this name makes its team "least priority". */
  const LeastRoleName: string := "試合数5"

  /** Hands close this many minutes before the match hour. */
  const StartBeforeLimitMinutes: int := 10

  /** Every bot-created marker role name starts with this. */
  const RoleHeader: string := "time:"
}
