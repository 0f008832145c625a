/** The split of the team events into a low-level and a high-level group
    (`main`, the `partition` call on the team collection). */
module Partitioning {
  import opened Outcomes
  import opened Events

  /** The level at which the team events are split. */
  const LevelThreshold: uint8 := 36

  /** Rust's `Iterator::partition` with the predicate
      `compare_level_requirement(threshold) < 0`: the predicate runs on each
      event from the front, and the first league event panics. */
  function Partition(events: seq<GroupEvent>, threshold: uint8)
    : (r: Result<(seq<GroupEvent>, seq<GroupEvent>)>)
    ensures r.Err? ==> r.error == NotATeamEvent
  {
    if events == [] then Ok(([], []))
    else
      match CompareLevelRequirement(events[0], threshold)
      case Err(e) => Err(e)
      case Ok(c) =>
        match Partition(events[1..], threshold)
        case Err(e) => Err(e)
        case Ok((low, high)) =>
          if c < 0 then Ok(([events[0]] + low, high)) else Ok((low, [events[0]] + high))
  }

  /** The split the program performs: low bucket `g1`, high bucket `g2`. */
  function SplitTeamEvents(teamEvents: seq<GroupEvent>): (r: Result<(seq<GroupEvent>, seq<GroupEvent>)>)
    ensures r.Ok? <==> forall e | e in teamEvents :: e.TeamEvent?
    ensures r.Ok? ==> r.value == (Below(teamEvents, 36), AtOrAbove(teamEvents, 36))
    ensures r.Ok? ==> forall e | e in r.value.0 :: e.TeamEvent? && e.levelRequirement < 36
    ensures r.Ok? ==> forall e | e in r.value.1 :: e.TeamEvent? && e.levelRequirement >= 36
    ensures r.Ok? ==> multiset(r.value.0) + multiset(r.value.1) == multiset(teamEvents)
  {
    PartitionCorrect(teamEvents, LevelThreshold);
    PartitionIsStableFilter(teamEvents, LevelThreshold);
    Partition(teamEvents, LevelThreshold)
  }

  // Reference definition of a stable split: the two in-order filters.

  /** The team events of `s` whose requirement is below `threshold`, in order. */
  function Below(s: seq<GroupEvent>, threshold: uint8): (r: seq<GroupEvent>)
    ensures forall e | e in r :: e in s && e.TeamEvent? && e.levelRequirement < threshold
  {
    if s == [] then []
    else if s[0].TeamEvent? && s[0].levelRequirement < threshold then [s[0]] + Below(s[1..], threshold)
    else Below(s[1..], threshold)
  }

  /** The team events of `s` whose requirement is at least `threshold`, in order. */
  function AtOrAbove(s: seq<GroupEvent>, threshold: uint8): (r: seq<GroupEvent>)
    ensures forall e | e in r :: e in s && e.TeamEvent? && e.levelRequirement >= threshold
  {
    if s == [] then []
    else if s[0].TeamEvent? && s[0].levelRequirement >= threshold then [s[0]] + AtOrAbove(s[1..], threshold)
    else AtOrAbove(s[1..], threshold)
  }

  /** On team events the two filters lose and duplicate nothing. */
  lemma {:induction false} FiltersSplitMultiset(s: seq<GroupEvent>, threshold: uint8)
    requires forall e | e in s :: e.TeamEvent?
    ensures multiset(Below(s, threshold)) + multiset(AtOrAbove(s, threshold)) == multiset(s)
  {
    if s != [] {
      assert forall e | e in s[1..] :: e in s;
      FiltersSplitMultiset(s[1..], threshold);
      assert s == [s[0]] + s[1..];
    }
  }

  /** The partition fails precisely when a league event is present; otherwise
      it is exactly the pair of in-order filters below and at-or-above the
      threshold. */
  lemma {:induction false} PartitionIsStableFilter(events: seq<GroupEvent>, threshold: uint8)
    ensures Partition(events, threshold).Ok? <==> forall e | e in events :: e.TeamEvent?
    ensures Partition(events, threshold).Ok? ==>
      Partition(events, threshold).value == (Below(events, threshold), AtOrAbove(events, threshold))
  {
    if events != [] {
      PartitionIsStableFilter(events[1..], threshold);
      assert forall e | e in events :: e == events[0] || e in events[1..];
    }
  }

  /** The four guarantees of the split: the low bucket lies below the
      threshold, the high bucket at or above it, together they are the input
      with nothing lost or duplicated, and each keeps input order (it is the
      in-order filter). */
  lemma PartitionCorrect(events: seq<GroupEvent>, threshold: uint8)
    ensures var r := Partition(events, threshold);
      r.Ok? ==>
        && (forall e | e in r.value.0 :: e.TeamEvent? && e.levelRequirement < threshold)
        && (forall e | e in r.value.1 :: e.TeamEvent? && e.levelRequirement >= threshold)
        && multiset(r.value.0) + multiset(r.value.1) == multiset(events)
        && |r.value.0| + |r.value.1| == |events|
  {
    PartitionIsStableFilter(events, threshold);
    if Partition(events, threshold).Ok? {
      FiltersSplitMultiset(events, threshold);
    }
  }

  /** Threshold 0 puts every team event in the high bucket: the odd
      `value == 0` branch of the comparison cannot change the split. */
  lemma {:induction false} PartitionAtZero(events: seq<GroupEvent>)
    requires forall e | e in events :: e.TeamEvent?
    ensures Partition(events, 0) == Ok(([], events))
  {
    if events != [] {
      assert forall e | e in events[1..] :: e in events;
      PartitionAtZero(events[1..]);
      assert events == [events[0]] + events[1..];
    }
  }
}
