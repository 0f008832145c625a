/** The event records read from the JSON collections, and the two operations
    that the program defines on them. */
module Events {
  import opened Outcomes

  /** Rust's `u8`. */
  type uint8 = x: int | 0 <= x < 0x100

  /** A hint attached to an event: a display name and free text. */
  datatype Tip = Tip(name: string, content: string)

  /** A group activity; both kinds carry their tips in authoring order. */
  datatype GroupEvent =
    | TeamEvent(name: string, levelRequirement: uint8, merits: uint8, teamSize: uint8,
                location: string, tips: seq<Tip>)
    | LeagueEvent(name: string, requirements: string, rewards: string, leagueSize: uint8,
                  location: string, tips: seq<Tip>)

  /** Three-way comparison of a team event's level requirement with `value`:
      -1 when the requirement is below `value`, otherwise 0 when `value` is 0
      and 1 when it is not. A league event has no level requirement and the
      program panics. */
  function CompareLevelRequirement(e: GroupEvent, value: uint8): (r: Result<int>)
    ensures r.Err? <==> e.LeagueEvent?
    ensures r.Err? ==> r.error == NotATeamEvent
    ensures r.Ok? ==> r.value in {-1, 0, 1}
    ensures r.Ok? ==> (r.value == -1 <==> e.levelRequirement < value)
    ensures r.Ok? ==> (r.value == 0 <==> value == 0)
    ensures r.Ok? ==> (r.value == 1 <==> value <= e.levelRequirement && value != 0)
  {
    match e
    case TeamEvent(_, levelRequirement, _, _, _, _) =>
      if levelRequirement < value then Ok(-1)
      else if value == 0 then Ok(0)
      else Ok(1)
    case LeagueEvent(_, _, _, _, _, _) => Err(NotATeamEvent)
  }

  /** The tip list of either kind of event, unchanged. */
  function GetTips(e: GroupEvent): (r: seq<Tip>)
    ensures r == e.tips
  {
    match e
    case TeamEvent(_, _, _, _, _, tips) => tips
    case LeagueEvent(_, _, _, _, _, tips) => tips
  }
}
