/** The configuration constants of the older generation of the bot (src/utils.ts). */
module OldConfig {

  /** Recruitment hours (24-hour clock, JST), in Set insertion order. */
  const StartOclocks: seq<int> := [19, 20, 21, 22, 23]

  /** No hand may be raised before this hour. */
  const StartRecruitment: int := 12

  /** Names of the team roles allowed to take part, in array order. */
  const AcceptRolls: seq<string> := ["KMU", "UT", "NGT", "ITF", "HU", "Tohoku", "mir", "Rits",
                                     "MUS", "SU", "KU×TT", "Hosei", "K!T", "tym"]

  /** A member holding a role with this name makes its team "least priority". */
  const LeastRoleName: string := "試合数5"

  /** Hands close this many minutes before the match hour. */
  const StartBeforeLimitMinutes: int := 13

  /** Prefix of a time-slot role name. */
  const TimeRolePrefix: string := "time:"
}
