/** generateSchedule (src/utils/scheduler.ts): one team per service day,
    chosen from two rotation queues. */
module Scheduler {
  import opened Calendar
  import opened Types
  import opened ServiceDayCalculator
  import opened Sequences

  // ---------------------------------------------------------------------
  // Roster pools and unavailability
  // ---------------------------------------------------------------------

  /** `members.filter(m => m.type === kind)`. */
  function OfKind(members: seq<Member>, kind: MemberType): (pool: seq<Member>)
    ensures forall m :: m in pool <==> m in members && m.kind == kind
    ensures multiset(pool) <= multiset(members)
  {
    Filter(members, (m: Member) => m.kind == kind)
  }

  /** `isSameDay(new Date(ud.date), day)`: the entry's date text is the
      ISO calendar date of `day`. */
  function NamesDay(entry: UnavailableDate, day: Date): (b: bool)
    ensures b && 0 <= day.year <= 9999 && 0 <= day.month < 12 && 0 <= day.day < 100 ==>
              |entry.date| == 10 && entry.date[4] == '-' && entry.date[7] == '-'
  {
    entry.date == IsoDate(day)
  }

  /** A dated entry names at most one day of a four-digit year. */
  lemma NamesDayUnique(entry: UnavailableDate, a: Date, b: Date)
    requires ValidDate(a) && 0 <= a.year <= 9999 && ValidDate(b) && 0 <= b.year <= 9999
    requires NamesDay(entry, a) && NamesDay(entry, b)
    ensures a == b
  {
    IsoDateInjective(a, b);
  }

  /** The standing weekly conflict the scan tests (`unavailableDays.some`). */
  predicate HasRecurringConflict(m: Member, dayOfWeek: DayOfWeek) {
    exists ud :: ud in m.unavailableDays && ud.dayOfWeek == dayOfWeek
  }

  /** The one-off conflict the scan tests (`unavailableDates?.some`). */
  predicate HasSpecificConflict(m: Member, day: Date) {
    exists ud :: ud in m.unavailableDates && NamesDay(ud, day)
  }

  predicate Unavailable(m: Member, day: Date) {
    HasRecurringConflict(m, Weekday(day)) || HasSpecificConflict(m, day)
  }

  /** `unavailableDays.find(ud => ud.dayOfWeek === dayOfWeek)`. */
  function FindDay(entries: seq<UnavailableDay>, dayOfWeek: DayOfWeek): (r: Option<UnavailableDay>)
    ensures r.Some? ==> r.value in entries && r.value.dayOfWeek == dayOfWeek
    ensures r.None? <==> forall ud :: ud in entries ==> ud.dayOfWeek != dayOfWeek
  {
    if entries == [] then None
    else if entries[0].dayOfWeek == dayOfWeek then Some(entries[0])
    else
      var r := FindDay(entries[1..], dayOfWeek);
      assert forall ud :: ud in entries ==> ud == entries[0] || ud in entries[1..];
      r
  }

  /** `unavailableDates?.find(ud => isSameDay(new Date(ud.date), day))`. */
  function FindDate(entries: seq<UnavailableDate>, day: Date): (r: Option<UnavailableDate>)
    ensures r.Some? ==> r.value in entries && NamesDay(r.value, day)
    ensures r.None? <==> forall ud :: ud in entries ==> !NamesDay(ud, day)
  {
    if entries == [] then None
    else if NamesDay(entries[0], day) then Some(entries[0])
    else
      var r := FindDate(entries[1..], day);
      assert forall ud :: ud in entries ==> ud == entries[0] || ud in entries[1..];
      r
  }

  /** `find` returns the first matching entry: none before it matches. */
  lemma {:induction false} FindDayIsFirst(entries: seq<UnavailableDay>, dayOfWeek: DayOfWeek)
    requires FindDay(entries, dayOfWeek).Some?
    ensures exists i :: 0 <= i < |entries| && entries[i] == FindDay(entries, dayOfWeek).value &&
              forall j :: 0 <= j < i ==> entries[j].dayOfWeek != dayOfWeek
  {
    if entries[0].dayOfWeek != dayOfWeek {
      var tail := entries[1..];
      FindDayIsFirst(tail, dayOfWeek);
      var i :| 0 <= i < |tail| && tail[i] == FindDay(tail, dayOfWeek).value &&
               forall j :: 0 <= j < i ==> tail[j].dayOfWeek != dayOfWeek;
      assert entries[i + 1] == tail[i];
      assert forall j :: 0 < j < i + 1 ==> entries[j] == tail[j - 1];
    }
  }

  lemma {:induction false} FindDateIsFirst(entries: seq<UnavailableDate>, day: Date)
    requires FindDate(entries, day).Some?
    ensures exists i :: 0 <= i < |entries| && entries[i] == FindDate(entries, day).value &&
              forall j :: 0 <= j < i ==> !NamesDay(entries[j], day)
  {
    if !NamesDay(entries[0], day) {
      var tail := entries[1..];
      FindDateIsFirst(tail, day);
      var i :| 0 <= i < |tail| && tail[i] == FindDate(tail, day).value &&
               forall j :: 0 <= j < i ==> !NamesDay(tail[j], day);
      assert entries[i + 1] == tail[i];
      assert forall j :: 0 < j < i + 1 ==> entries[j] == tail[j - 1];
    }
  }

  // ---------------------------------------------------------------------
  // One selection: scan, rotate, fall back
  // ---------------------------------------------------------------------

  /** Index of the first candidate at or after `from` that is free on `day`. */
  function FirstAvailableFrom(queue: seq<Member>, day: Date, from: nat): (r: Option<nat>)
    requires from <= |queue|
    ensures r.Some? ==> from <= r.value < |queue| && !Unavailable(queue[r.value], day)
    ensures r.Some? ==> forall j :: from <= j < r.value ==> Unavailable(queue[j], day)
    ensures r.None? ==> forall j :: from <= j < |queue| ==> Unavailable(queue[j], day)
    decreases |queue| - from
  {
    if from == |queue| then None
    else if !Unavailable(queue[from], day) then Some(from)
    else FirstAvailableFrom(queue, day, from + 1)
  }

  /** `queue.splice(i, 1); queue.push(queue[i])`: the candidate at `i` moves to the back. */
  function Rotate(queue: seq<Member>, i: nat): (r: seq<Member>)
    requires i < |queue|
    ensures |r| == |queue| && r[|r| - 1] == queue[i]
    ensures multiset(r) == multiset(queue)
  {
    assert queue == queue[..i] + [queue[i]] + queue[i + 1..];
    queue[..i] + queue[i + 1..] + [queue[i]]
  }

  /** What one selection yields: the pick, the queue afterwards, and whether
      the pick was forced because every candidate conflicts. */
  datatype Pick = Pick(chosen: Member, queue: seq<Member>, forced: bool)

  /** The scan of lines 46-62 (and 69-86): take the first candidate free on
      `day`, else the front one; either way it is rotated to the back. */
  function Choose(queue: seq<Member>, day: Date): (p: Pick)
    requires |queue| > 0
    ensures multiset(p.queue) == multiset(queue) && |p.queue| == |queue|
    ensures p.chosen in queue && p.queue[|queue| - 1] == p.chosen
    ensures p.forced <==> forall j :: 0 <= j < |queue| ==> Unavailable(queue[j], day)
    ensures p.forced <==> Unavailable(p.chosen, day)
  {
    match FirstAvailableFrom(queue, day, 0)
    case Some(i) => Pick(queue[i], Rotate(queue, i), false)
    case None => Pick(queue[0], Rotate(queue, 0), true)
  }

  /** The index Choose takes: the first free candidate, or 0 when none is free. */
  function ChosenIndex(queue: seq<Member>, day: Date): (i: nat)
    requires |queue| > 0
    ensures i < |queue|
  {
    match FirstAvailableFrom(queue, day, 0)
    case Some(i) => i
    case None => 0
  }

  /** Choose picks the first conflict-free candidate, or the front one when
      there is none, and moves exactly that candidate to the back. */
  lemma ChooseIsFirstFreeOrFront(queue: seq<Member>, day: Date)
    requires |queue| > 0
    ensures var i := ChosenIndex(queue, day);
      && Choose(queue, day).chosen == queue[i]
      && Choose(queue, day).queue == queue[..i] + queue[i + 1..] + [queue[i]]
      && (forall j :: 0 <= j < i ==> Unavailable(queue[j], day))
      && (!Unavailable(queue[i], day) || (i == 0 && forall j :: 0 <= j < |queue| ==> Unavailable(queue[j], day)))
  {
  }

  /** The scan written as the source writes it: an indexed loop that breaks
      at the first free candidate, then the fallback to the front. */
  method SelectCandidate(queue: seq<Member>, day: Date) returns (chosen: Member, rotated: seq<Member>, forced: bool)
    requires |queue| > 0
    ensures Pick(chosen, rotated, forced) == Choose(queue, day)
  {
    var dayOfWeek := Weekday(day);
    var selected: Option<Member> := None;
    rotated := queue;
    for i := 0 to |queue|
      invariant selected.None?
      invariant rotated == queue
      invariant forall j :: 0 <= j < i ==> Unavailable(queue[j], day)
    {
      var candidate := rotated[i];
      var hasRecurringConflict := HasRecurringConflict(candidate, dayOfWeek);
      var hasSpecificConflict := HasSpecificConflict(candidate, day);
      if !hasRecurringConflict && !hasSpecificConflict {
        selected := Some(candidate);
        rotated := rotated[..i] + rotated[i + 1..] + [candidate];
        assert FirstAvailableFrom(queue, day, 0) == Some(i);
        break;
      }
    }
    forced := false;
    if selected.None? {
      // every candidate conflicts: take the front one anyway
      assert FirstAvailableFrom(queue, day, 0).None?;
      selected := Some(rotated[0]);
      rotated := rotated[1..] + [rotated[0]];
      assert rotated == Rotate(queue, 0);
      forced := true;
    }
    chosen := selected.value;
  }

  // ---------------------------------------------------------------------
  // Conflict text
  // ---------------------------------------------------------------------

  const LeaderLabel: string := "Líder: "
  const ParticipantLabel: string := "Auxiliar: "

  /** `conflictReason ? `${conflictReason}, ${fragment}` : fragment`. */
  function AppendReason(reason: string, fragment: string): string {
    if reason != "" then reason + ", " + fragment else fragment
  }

  /** The conflict text as lines 94-102 build it, "" standing for none: the
      leader's recurring label, overwritten by the leader's specific-date
      label; then, only when the participant pick was forced, the
      participant's recurring and specific-date labels appended. */
  function ConflictReason(leader: Member, participant: Option<Member>, participantConflict: bool, day: Date): string {
    var afterLeader := LeaderReason(leader, day);
    if participantConflict && participant.Some? then WithParticipantReason(afterLeader, participant.value, day)
    else afterLeader
  }

  /** Lines 95-96. */
  function LeaderReason(leader: Member, day: Date): string {
    var leaderRecurring := FindDay(leader.unavailableDays, Weekday(day));
    var leaderSpecific := FindDate(leader.unavailableDates, day);
    var afterRecurring := if leaderRecurring.Some? then LeaderLabel + leaderRecurring.value.role else "";
    if leaderSpecific.Some? then LeaderLabel + leaderSpecific.value.role else afterRecurring
  }

  /** Lines 98-101. */
  function WithParticipantReason(reason: string, participant: Member, day: Date): string {
    AppendParticipantLabels(reason, FindDay(participant.unavailableDays, Weekday(day)),
                            FindDate(participant.unavailableDates, day))
  }

  /** The participant's recurring label, then its specific-date label, each
      appended when the entry was found. */
  function AppendParticipantLabels(reason: string, recurring: Option<UnavailableDay>, specific: Option<UnavailableDate>): string {
    var afterRecurring :=
      if recurring.Some? then AppendReason(reason, ParticipantLabel + recurring.value.role) else reason;
    if specific.Some? then AppendReason(afterRecurring, ParticipantLabel + specific.value.role) else afterRecurring
  }

  /** `parts` joined with `separator` between neighbours. */
  function Join(parts: seq<string>, separator: string): string
    decreases |parts|
  {
    if parts == [] then ""
    else if |parts| == 1 then parts[0]
    else Join(parts[..|parts| - 1], separator) + separator + parts[|parts| - 1]
  }

  /** The leader's part of the text: the specific-date label when there is
      one (it is more precise), else the recurring label, else nothing. */
  function LeaderFragment(leader: Member, day: Date): seq<string> {
    var specific := FindDate(leader.unavailableDates, day);
    var recurring := FindDay(leader.unavailableDays, Weekday(day));
    if specific.Some? then [LeaderLabel + specific.value.role]
    else if recurring.Some? then [LeaderLabel + recurring.value.role]
    else []
  }

  /** The participant's part: its recurring label, then its specific-date label. */
  function ParticipantFragments(participant: Member, day: Date): seq<string> {
    ParticipantLabels(FindDay(participant.unavailableDays, Weekday(day)), FindDate(participant.unavailableDates, day))
  }

  function ParticipantLabels(recurring: Option<UnavailableDay>, specific: Option<UnavailableDate>): seq<string> {
    (if recurring.Some? then [ParticipantLabel + recurring.value.role] else []) +
    (if specific.Some? then [ParticipantLabel + specific.value.role] else [])
  }

  function ReasonFragments(leader: Member, participant: Option<Member>, participantConflict: bool, day: Date): seq<string> {
    LeaderFragment(leader, day) +
    (if participantConflict && participant.Some? then ParticipantFragments(participant.value, day) else [])
  }

  /** Appending a non-empty fragment is joining one more part. */
  lemma AppendReasonJoins(parts: seq<string>, fragment: string)
    requires forall i :: 0 <= i < |parts| ==> parts[i] != ""
    requires fragment != ""
    ensures AppendReason(Join(parts, ", "), fragment) == Join(parts + [fragment], ", ")
  {
    assert (parts + [fragment])[..|parts|] == parts;
    if parts != [] {
      JoinNonEmpty(parts);
    }
  }

  lemma {:induction false} JoinNonEmpty(parts: seq<string>)
    requires parts != [] && parts[|parts| - 1] != ""
    ensures Join(parts, ", ") != ""
  {
  }

  /** The step-by-step text of the source is exactly the fragments of both
      roles, leader first, joined with ", ". */
  lemma ConflictReasonIsJoin(leader: Member, participant: Option<Member>, participantConflict: bool, day: Date)
    ensures ConflictReason(leader, participant, participantConflict, day)
         == Join(ReasonFragments(leader, participant, participantConflict, day), ", ")
  {
    var lf := LeaderFragment(leader, day);
    assert LeaderReason(leader, day) == Join(lf, ", ");
    if participantConflict && participant.Some? {
      var p := participant.value;
      AppendParticipantLabelsJoins(lf, FindDay(p.unavailableDays, Weekday(day)), FindDate(p.unavailableDates, day));
    } else {
      assert lf == ReasonFragments(leader, participant, participantConflict, day);
    }
  }

  /** Appending the participant's labels one by one is joining them after
      the parts already there. */
  lemma AppendParticipantLabelsJoins(parts: seq<string>, recurring: Option<UnavailableDay>, specific: Option<UnavailableDate>)
    requires forall i :: 0 <= i < |parts| ==> parts[i] != ""
    ensures AppendParticipantLabels(Join(parts, ", "), recurring, specific)
         == Join(parts + ParticipantLabels(recurring, specific), ", ")
  {
    var first := if recurring.Some? then [ParticipantLabel + recurring.value.role] else [];
    var afterRecurring :=
      if recurring.Some? then AppendReason(Join(parts, ", "), ParticipantLabel + recurring.value.role) else Join(parts, ", ");
    assert afterRecurring == Join(parts + first, ", ") by {
      if recurring.Some? {
        AppendReasonJoins(parts, ParticipantLabel + recurring.value.role);
      } else {
        assert parts + first == parts;
      }
    }
    assert forall i :: 0 <= i < |parts + first| ==> (parts + first)[i] != "";
    var second := if specific.Some? then [ParticipantLabel + specific.value.role] else [];
    assert ParticipantLabels(recurring, specific) == first + second;
    Reassociate(parts, first, second);
    if specific.Some? {
      AppendReasonJoins(parts + first, ParticipantLabel + specific.value.role);
    } else {
      assert (parts + first) + second == parts + first;
    }
  }

  /** There is a text exactly when the leader conflicts or the participant
      pick was forced onto a conflicting participant. */
  lemma ConflictReasonEmpty(leader: Member, participant: Option<Member>, participantConflict: bool, day: Date)
    requires participantConflict ==> participant.Some? && Unavailable(participant.value, day)
    ensures ConflictReason(leader, participant, participantConflict, day) == ""
        <==> !Unavailable(leader, day) && !participantConflict
  {
    ConflictReasonIsJoin(leader, participant, participantConflict, day);
    var parts := ReasonFragments(leader, participant, participantConflict, day);
    if parts != [] {
      JoinNonEmpty(parts);
    }
  }

  // ---------------------------------------------------------------------
  // The whole month
  // ---------------------------------------------------------------------

  /** `gen-${index}`. */
  function TeamId(index: nat): string {
    "gen-" + Decimal(index)
  }

  /** One day's assignment and the two queues after it. */
  datatype DayOutcome = DayOutcome(assignment: Assignment, leaders: seq<Member>, participants: seq<Member>)

  /** Lines 42-112 for one day. The participant pick runs when the
      participant pool (whose size the queue keeps) is non-empty. */
  function AssignDay(day: Date, index: nat, leaders: seq<Member>, participants: seq<Member>): (o: DayOutcome)
    requires |leaders| > 0
    ensures multiset(o.leaders) == multiset(leaders) && |o.leaders| == |leaders|
    ensures multiset(o.participants) == multiset(participants) && |o.participants| == |participants|
  {
    var leaderPick := Choose(leaders, day);
    var leader := leaderPick.chosen;
    var participantPick := if |participants| > 0 then Some(Choose(participants, day)) else None;
    var participant := if participantPick.Some? then Some(participantPick.value.chosen) else None;
    var participantConflict := participantPick.Some? && participantPick.value.forced;
    var leaderConflict :=
      FindDay(leader.unavailableDays, Weekday(day)).Some? || FindDate(leader.unavailableDates, day).Some?;
    var reason := ConflictReason(leader, participant, participantConflict, day);
    var team := Team(TeamId(index), if participant.Some? then [leader, participant.value] else [leader]);
    DayOutcome(
      Assignment(day, team, participantConflict || leaderConflict, if reason == "" then None else Some(reason)),
      leaderPick.queue,
      if participantPick.Some? then participantPick.value.queue else participants)
  }

  /** The assignments for `days[k..]`, starting from the given queues. */
  function Run(days: seq<Date>, k: nat, leaders: seq<Member>, participants: seq<Member>): (r: seq<Assignment>)
    requires k <= |days| && |leaders| > 0
    ensures |r| == |days| - k
    decreases |days| - k
  {
    if k == |days| then []
    else
      var o := AssignDay(days[k], k, leaders, participants);
      [o.assignment] + Run(days, k + 1, o.leaders, o.participants)
  }

  /** A run from `k` starts with day `k` and continues with the run from
      `next == k + 1`, from the queues day `k` left. */
  lemma RunTail(days: seq<Date>, k: nat, next: nat, leaders: seq<Member>, participants: seq<Member>)
    requires next == k + 1 && next <= |days| && |leaders| > 0
    ensures var o := AssignDay(days[k], k, leaders, participants);
      && |Run(days, k, leaders, participants)| == |days| - k
      && Run(days, k, leaders, participants)[0] == o.assignment
      && Run(days, k, leaders, participants)[1..] == Run(days, next, o.leaders, o.participants)
  {
    var o := AssignDay(days[k], k, leaders, participants);
    RunStep(days, k, next, leaders, participants);
  }

  /** generateSchedule, given the orders the shuffle produced. */
  function Schedule(month: int, year: int, leaderOrder: seq<Member>, participantOrder: seq<Member>): (r: seq<Assignment>)
    ensures |leaderOrder| == 0 ==> r == []
    ensures |leaderOrder| > 0 ==> |r| == |ServiceDays(month, year)| && r != []
  {
    if |leaderOrder| == 0 then []
    else
      var days := ServiceDays(month, year);
      ServiceDaysNonEmpty(month, year);
      Run(days, 0, leaderOrder, participantOrder)
  }

  /** The shuffle yields some permutation of the pool. */
  predicate IsShuffleOf(order: seq<Member>, pool: seq<Member>) {
    multiset(order) == multiset(pool)
  }

  /** What every emitted assignment satisfies, for the day and the position
      it covers and the two pools the queues hold. */
  predicate WellFormed(a: Assignment, day: Date, index: nat, leaderPool: seq<Member>, participantPool: seq<Member>) {
    && a.date == day
    && a.team.id == TeamId(index)
    && |a.team.members| == (if |participantPool| > 0 then 2 else 1)
    && a.team.members[0] in leaderPool
    && (|participantPool| > 0 ==> a.team.members[1] in participantPool)
    && (a.hasConflict <==>
          Unavailable(a.team.members[0], day) ||
          (|a.team.members| == 2 && Unavailable(a.team.members[1], day)))
    && (a.conflictReason.None? <==> !a.hasConflict)
  }

  lemma AssignDayWellFormed(day: Date, index: nat, leaders: seq<Member>, participants: seq<Member>)
    requires |leaders| > 0
    ensures WellFormed(AssignDay(day, index, leaders, participants).assignment, day, index, leaders, participants)
  {
    var leaderPick := Choose(leaders, day);
    if |participants| > 0 {
      var p := Choose(participants, day);
      ConflictReasonEmpty(leaderPick.chosen, Some(p.chosen), p.forced, day);
    } else {
      ConflictReasonEmpty(leaderPick.chosen, None, false, day);
    }
  }

  /** WellFormed only looks at which members the pools hold. */
  lemma WellFormedSamePools(a: Assignment, day: Date, index: nat,
                            leaders: seq<Member>, participants: seq<Member>,
                            leaderPool: seq<Member>, participantPool: seq<Member>)
    requires multiset(leaders) == multiset(leaderPool) && multiset(participants) == multiset(participantPool)
    requires WellFormed(a, day, index, leaders, participants)
    ensures WellFormed(a, day, index, leaderPool, participantPool)
  {
    assert |multiset(participants)| == |multiset(participantPool)|;
    assert a.team.members[0] in multiset(leaders);
    if |participants| > 0 {
      assert a.team.members[1] in multiset(participants);
    }
  }

  lemma {:induction false} RunWellFormed(days: seq<Date>, k: nat, leaders: seq<Member>, participants: seq<Member>,
                                         leaderPool: seq<Member>, participantPool: seq<Member>)
    requires k <= |days| && |leaders| > 0
    requires multiset(leaders) == multiset(leaderPool) && multiset(participants) == multiset(participantPool)
    ensures |Run(days, k, leaders, participants)| == |days| - k
    ensures forall d :: k <= d < |days| ==>
              WellFormed(Run(days, k, leaders, participants)[d - k], days[d], d, leaderPool, participantPool)
    decreases |days| - k
  {
    if k < |days| {
      var j := k + 1;
      var o := AssignDay(days[k], k, leaders, participants);
      RunTail(days, k, j, leaders, participants);
      AssignDayWellFormed(days[k], k, leaders, participants);
      WellFormedSamePools(o.assignment, days[k], k, leaders, participants, leaderPool, participantPool);
      RunWellFormed(days, j, o.leaders, o.participants, leaderPool, participantPool);
      WellFormedShift(days, k, j, Run(days, k, leaders, participants), Run(days, j, o.leaders, o.participants),
                      leaderPool, participantPool);
    }
  }

  /** A schedule for `days[k..]` whose first day is well formed and whose
      tail is well formed for `days[j..]` is well formed throughout. */
  lemma WellFormedShift(days: seq<Date>, k: nat, j: nat, run: seq<Assignment>, tail: seq<Assignment>,
                        leaderPool: seq<Member>, participantPool: seq<Member>)
    requires j == k + 1 && j <= |days|
    requires |run| == |days| - k && run[1..] == tail
    requires WellFormed(run[0], days[k], k, leaderPool, participantPool)
    requires forall d :: j <= d < |days| ==> WellFormed(tail[d - j], days[d], d, leaderPool, participantPool)
    ensures forall d :: k <= d < |days| ==> WellFormed(run[d - k], days[d], d, leaderPool, participantPool)
  {
    forall d | k < d < |days|
      ensures WellFormed(run[d - k], days[d], d, leaderPool, participantPool)
    {
      assert run[d - k] == tail[d - j];
    }
  }

  predicate NoLeader(members: seq<Member>) {
    forall m :: m in members ==> m.kind != Leader
  }

  /** Without a leader the schedule is empty whatever the participants are;
      otherwise there is exactly one well-formed assignment per service day,
      in service-day order, led by a leader of the roster and staffed by a
      participant of the roster whenever there is one. */
  lemma ScheduleShape(month: int, year: int, members: seq<Member>, leaderOrder: seq<Member>, participantOrder: seq<Member>)
    requires IsShuffleOf(leaderOrder, OfKind(members, Leader))
    requires IsShuffleOf(participantOrder, OfKind(members, Participant))
    ensures NoLeader(members) <==> Schedule(month, year, leaderOrder, participantOrder) == []
    ensures !NoLeader(members) ==>
      var schedule, days := Schedule(month, year, leaderOrder, participantOrder), ServiceDays(month, year);
      && |schedule| == |days|
      && forall d :: 0 <= d < |days| ==>
           && WellFormed(schedule[d], days[d], d, OfKind(members, Leader), OfKind(members, Participant))
           && schedule[d].team.members[0].kind == Leader
           && (|schedule[d].team.members| == 2 <==> !NoParticipant(members))
           && (|schedule[d].team.members| == 2 ==> schedule[d].team.members[1].kind == Participant)
  {
    var leaders, participants := OfKind(members, Leader), OfKind(members, Participant);
    OfKindEmpty(members, Leader);
    OfKindEmpty(members, Participant);
    assert |leaderOrder| == |leaders| && |participantOrder| == |participants| by {
      assert |multiset(leaderOrder)| == |multiset(leaders)|;
      assert |multiset(participantOrder)| == |multiset(participants)|;
    }
    if !NoLeader(members) {
      ServiceDaysNonEmpty(month, year);
      ScheduleWellFormed(month, year, leaderOrder, participantOrder, leaders, participants);
    }
  }

  /** Every assignment of a schedule is well formed for the pools the orders
      are shuffles of. */
  lemma ScheduleWellFormed(month: int, year: int, leaderOrder: seq<Member>, participantOrder: seq<Member>,
                           leaders: seq<Member>, participants: seq<Member>)
    requires |leaderOrder| > 0
    requires multiset(leaderOrder) == multiset(leaders) && multiset(participantOrder) == multiset(participants)
    ensures |Schedule(month, year, leaderOrder, participantOrder)| == |ServiceDays(month, year)|
    ensures forall d :: 0 <= d < |ServiceDays(month, year)| ==>
      WellFormed(Schedule(month, year, leaderOrder, participantOrder)[d], ServiceDays(month, year)[d], d,
                 leaders, participants)
  {
    var days := ServiceDays(month, year);
    var k: nat := 0;
    RunWellFormed(days, k, leaderOrder, participantOrder, leaders, participants);
    var schedule := Run(days, k, leaderOrder, participantOrder);
    forall d | 0 <= d < |days|
      ensures WellFormed(schedule[d], days[d], d, leaders, participants)
    {
      assert schedule[d] == schedule[d - k];
    }
  }

  /** A pool of one kind is empty exactly when no member is of that kind. */
  lemma OfKindEmpty(members: seq<Member>, kind: MemberType)
    ensures OfKind(members, kind) == [] <==> forall m :: m in members ==> m.kind != kind
  {
    var pool := OfKind(members, kind);
    if pool != [] {
      assert pool[0] in pool;
    }
  }

  predicate NoParticipant(members: seq<Member>) {
    forall m :: m in members ==> m.kind != Participant
  }

  // ---------------------------------------------------------------------
  // Round robin when nobody is ever unavailable
  // ---------------------------------------------------------------------

  predicate AlwaysAvailable(m: Member) {
    m.unavailableDays == [] && m.unavailableDates == []
  }

  /** The queue after `n` plain rotations: the candidate at `n` mod its
      length is at the front. */
  function Turned(queue: seq<Member>, n: nat): (r: seq<Member>)
    ensures |r| == |queue| && multiset(r) == multiset(queue)
  {
    if |queue| == 0 then queue
    else
      var s := n % |queue|;
      assert queue == queue[..s] + queue[s..];
      queue[s..] + queue[..s]
  }

  lemma TurnedStep(queue: seq<Member>, n: nat, m: nat)
    requires |queue| > 0 && m == n + 1
    ensures Turned(queue, n)[0] == queue[n % |queue|]
    ensures Turned(queue, n)[1..] + [Turned(queue, n)[0]] == Turned(queue, m)
  {
    var s := n % |queue|;
    ModSuccessor(n, |queue|);
    var t := Turned(queue, n);
    assert t == queue[s..] + queue[..s];
    if s + 1 < |queue| {
      assert t[1..] + [t[0]] == queue[s + 1..] + queue[..s + 1];
    } else {
      assert t[1..] + [t[0]] == queue;
    }
  }

  lemma ModSuccessor(n: nat, len: nat)
    requires len > 0
    ensures (n + 1) % len == if n % len + 1 == len then 0 else n % len + 1
  {
    var q := n / len;
    assert n == len * q + n % len;
    if n % len + 1 == len {
      ModUnique(n + 1, len, q + 1, 0);
    } else {
      ModUnique(n + 1, len, q, n % len + 1);
    }
  }

  /** The remainder is the only r in [0, len) with a == len * q + r. */
  lemma ModUnique(a: int, len: int, q: int, r: int)
    requires len > 0 && 0 <= r < len && a == len * q + r
    ensures a % len == r
  {
    var q', r' := a / len, a % len;
    assert a == len * q' + r';
    assert len * (q - q') == r' - r by {
      assert len * (q - q') == len * q - len * q';
    }
    MulOutside(len, q - q');
  }

  /** A non-zero multiple of `len` is at least `len` away from zero. */
  lemma {:induction false} MulOutside(len: int, t: int)
    requires len >= 0
    ensures t >= 1 ==> len * t >= len
    ensures t <= -1 ==> len * t <= -len
    decreases if t < 0 then -t else t
  {
    if t > 1 {
      MulOutside(len, t - 1);
      assert len * t == len * (t - 1) + len;
    } else if t < -1 {
      MulOutside(len, t + 1);
      assert len * t == len * (t + 1) - len;
    }
  }

  /** With nobody unavailable the front candidate is taken and rotated. */
  lemma ChooseWhenAllAvailable(queue: seq<Member>, day: Date)
    requires |queue| > 0
    requires forall m :: m in queue ==> AlwaysAvailable(m)
    ensures Choose(queue, day) == Pick(queue[0], queue[1..] + [queue[0]], false)
  {
    assert queue[0] in queue;
    assert FirstAvailableFrom(queue, day, 0) == Some(0);
  }

  lemma {:induction false} RoundRobinFrom(days: seq<Date>, k: nat, leaders: seq<Member>, participants: seq<Member>)
    requires k <= |days| && |leaders| > 0
    requires forall m :: m in leaders ==> AlwaysAvailable(m)
    requires forall m :: m in participants ==> AlwaysAvailable(m)
    ensures |Run(days, k, Turned(leaders, k), Turned(participants, k))| == |days| - k
    ensures forall d :: k <= d < |days| ==>
      RoundRobinDay(Run(days, k, Turned(leaders, k), Turned(participants, k))[d - k], days[d], d, leaders, participants)
    decreases |days| - k
  {
    var lq, pq := Turned(leaders, k), Turned(participants, k);
    if k < |days| {
      var j := k + 1;
      RoundRobinFirst(days, k, j, leaders, participants);
      RoundRobinFrom(days, j, leaders, participants);
      RunTail(days, k, j, lq, pq);
      RoundRobinShift(days, k, j, Run(days, k, lq, pq), Run(days, j, Turned(leaders, j), Turned(participants, j)),
                      leaders, participants);
    }
  }

  /** The first day of a run from `k` takes the front of both turned queues
      and leaves them turned `j == k + 1` times. */
  lemma RoundRobinFirst(days: seq<Date>, k: nat, j: nat, leaders: seq<Member>, participants: seq<Member>)
    requires j == k + 1 && j <= |days| && |leaders| > 0
    requires forall m :: m in leaders ==> AlwaysAvailable(m)
    requires forall m :: m in participants ==> AlwaysAvailable(m)
    ensures var o := AssignDay(days[k], k, Turned(leaders, k), Turned(participants, k));
      && o.leaders == Turned(leaders, j)
      && o.participants == Turned(participants, j)
      && RoundRobinDay(o.assignment, days[k], k, leaders, participants)
  {
    var lq, pq := Turned(leaders, k), Turned(participants, k);
    assert forall m :: m in lq ==> m in multiset(leaders);
    assert forall m :: m in pq ==> m in multiset(participants);
    AssignDayWhenAllAvailable(days[k], k, lq, pq);
    TurnedStep(leaders, k, j);
    if |participants| > 0 {
      TurnedStep(participants, k, j);
    }
  }

  /** With nobody unavailable a day takes the front of each queue, rotates
      both, and has no conflict. */
  lemma AssignDayWhenAllAvailable(day: Date, index: nat, leaders: seq<Member>, participants: seq<Member>)
    requires |leaders| > 0
    requires forall m :: m in leaders ==> AlwaysAvailable(m)
    requires forall m :: m in participants ==> AlwaysAvailable(m)
    ensures var o := AssignDay(day, index, leaders, participants);
      && o.leaders == leaders[1..] + [leaders[0]]
      && o.participants == (if |participants| > 0 then participants[1..] + [participants[0]] else participants)
      && o.assignment.date == day
      && o.assignment.team.members
           == (if |participants| > 0 then [leaders[0], participants[0]] else [leaders[0]])
      && !o.assignment.hasConflict
  {
    ChooseWhenAllAvailable(leaders, day);
    assert leaders[0] in leaders;
    if |participants| > 0 {
      ChooseWhenAllAvailable(participants, day);
    }
  }

  /** A schedule for `days[k..]` whose first day is round-robin and whose
      tail is the round-robin schedule for `days[j..]` is round-robin. */
  lemma RoundRobinShift(days: seq<Date>, k: nat, j: nat, run: seq<Assignment>, tail: seq<Assignment>,
                        leaders: seq<Member>, participants: seq<Member>)
    requires j == k + 1 && j <= |days| && |leaders| > 0
    requires |run| == |days| - k && run[1..] == tail
    requires RoundRobinDay(run[0], days[k], k, leaders, participants)
    requires forall d :: j <= d < |days| ==> RoundRobinDay(tail[d - j], days[d], d, leaders, participants)
    ensures forall d :: k <= d < |days| ==> RoundRobinDay(run[d - k], days[d], d, leaders, participants)
  {
    forall d | k < d < |days|
      ensures RoundRobinDay(run[d - k], days[d], d, leaders, participants)
    {
      assert run[d - k] == tail[d - j];
    }
  }

  /** Day `index` is led by the leader at `index` mod |leaders| of the initial
      order and staffed by the participant at `index` mod |participants|,
      with no conflict. */
  predicate RoundRobinDay(a: Assignment, day: Date, index: nat, leaders: seq<Member>, participants: seq<Member>)
    requires |leaders| > 0
  {
    && a.date == day
    && |a.team.members| >= 1
    && a.team.members[0] == leaders[index % |leaders|]
    && (|participants| > 0 ==> |a.team.members| == 2 && a.team.members[1] == participants[index % |participants|])
    && !a.hasConflict
  }

  /** When nobody has any unavailability, day d is led by the d-th leader of
      the initial order, cyclically, and staffed by the d-th participant,
      cyclically: every leader serves once before any serves twice. */
  lemma RoundRobin(month: int, year: int, leaderOrder: seq<Member>, participantOrder: seq<Member>)
    requires |leaderOrder| > 0
    requires forall m :: m in leaderOrder ==> AlwaysAvailable(m)
    requires forall m :: m in participantOrder ==> AlwaysAvailable(m)
    ensures |Schedule(month, year, leaderOrder, participantOrder)| == |ServiceDays(month, year)|
    ensures forall d :: 0 <= d < |ServiceDays(month, year)| ==>
      RoundRobinDay(Schedule(month, year, leaderOrder, participantOrder)[d], ServiceDays(month, year)[d], d,
                    leaderOrder, participantOrder)
  {
    var days := ServiceDays(month, year);
    assert Turned(leaderOrder, 0) == leaderOrder;
    assert Turned(participantOrder, 0) == participantOrder;
    RoundRobinFrom(days, 0, leaderOrder, participantOrder);
  }

  // ---------------------------------------------------------------------
  // The generator as the source writes it
  // ---------------------------------------------------------------------

  /** generateSchedule: copies of the shuffled pools are the rotation
      queues; each service day the leader queue, then (when there are
      participants) the participant queue is scanned, and the conflict flag
      and text are recomputed for the final picks. */
  method GenerateSchedule(month: int, year: int, members: seq<Member>,
                          leaderOrder: seq<Member>, participantOrder: seq<Member>)
    returns (assignments: seq<Assignment>)
    requires IsShuffleOf(leaderOrder, OfKind(members, Leader))
    requires IsShuffleOf(participantOrder, OfKind(members, Participant))
    ensures assignments == Schedule(month, year, leaderOrder, participantOrder)
  {
    var serviceDays := ServiceDays(month, year);
    assignments := [];
    var leaders, participants := leaderOrder, participantOrder;
    if |leaders| == 0 {
      return;
    }
    var leaderQueue, participantQueue := leaders, participants;
    for index := 0 to |serviceDays|
      invariant |leaderQueue| == |leaders| && |participantQueue| == |participants|
      invariant assignments + Run(serviceDays, index, leaderQueue, participantQueue)
             == Run(serviceDays, 0, leaders, participants)
    {
      ghost var next := index + 1;
      var assignment, leadersAfter, participantsAfter :=
        AssignServiceDay(serviceDays[index], index, leaderQueue, participantQueue);
      RunExtends(serviceDays, index, next, leaderQueue, participantQueue,
                 assignments, assignment, leadersAfter, participantsAfter);
      assignments, leaderQueue, participantQueue := assignments + [assignment], leadersAfter, participantsAfter;
    }
    assert Run(serviceDays, |serviceDays|, leaderQueue, participantQueue) == [];
  }

  /** One turn of the loop: appending day `k`'s assignment to those already
      made and continuing from the queues it left keeps the same total. */
  lemma RunExtends(days: seq<Date>, k: nat, next: nat, leaders: seq<Member>, participants: seq<Member>,
                   done: seq<Assignment>, a: Assignment, leadersAfter: seq<Member>, participantsAfter: seq<Member>)
    requires next == k + 1 && next <= |days| && |leaders| > 0
    requires DayOutcome(a, leadersAfter, participantsAfter) == AssignDay(days[k], k, leaders, participants)
    ensures |leadersAfter| > 0
    ensures (done + [a]) + Run(days, next, leadersAfter, participantsAfter)
         == done + Run(days, k, leaders, participants)
  {
    RunStep(days, k, next, leaders, participants);
    var rest := Run(days, next, leadersAfter, participantsAfter);
    Reassociate(done, [a], rest);
  }

  /** A run from `k` is its first day followed by the run from `next == k + 1`. */
  lemma RunStep(days: seq<Date>, k: nat, next: nat, leaders: seq<Member>, participants: seq<Member>)
    requires next == k + 1 && next <= |days| && |leaders| > 0
    ensures var o := AssignDay(days[k], k, leaders, participants);
      Run(days, k, leaders, participants) == [o.assignment] + Run(days, next, o.leaders, o.participants)
  {
    var o := AssignDay(days[k], k, leaders, participants);
    assert Run(days, k, leaders, participants) == [o.assignment] + Run(days, k + 1, o.leaders, o.participants);
  }

  /** The body of the loop over the service days (lines 42-112): pick the
      leader, pick the participant when the pool has one, then build the
      conflict flag and text for the final picks. */
  method AssignServiceDay(day: Date, index: nat, leaderQueue: seq<Member>, participantQueue: seq<Member>)
    returns (assignment: Assignment, leadersAfter: seq<Member>, participantsAfter: seq<Member>)
    requires |leaderQueue| > 0
    ensures DayOutcome(assignment, leadersAfter, participantsAfter) == AssignDay(day, index, leaderQueue, participantQueue)
  {
    var dayOfWeek := Weekday(day);

    // 1. pick the leader
    var selectedLeader, leaderForced;
    selectedLeader, leadersAfter, leaderForced := SelectCandidate(leaderQueue, day);

    // 2. pick the participant
    var selectedParticipant: Option<Member> := None;
    var participantConflict := false;
    participantsAfter := participantQueue;
    if |participantQueue| > 0 {
      var candidate;
      candidate, participantsAfter, participantConflict := SelectCandidate(participantQueue, day);
      selectedParticipant := Some(candidate);
    }

    // 3. the conflict flag and text for the final picks
    var leaderRecurringConflict := FindDay(selectedLeader.unavailableDays, dayOfWeek);
    var leaderSpecificConflict := FindDate(selectedLeader.unavailableDates, day);
    var leaderConflict := leaderRecurringConflict.Some? || leaderSpecificConflict.Some?;
    var conflictReason := "";
    if leaderRecurringConflict.Some? {
      conflictReason := LeaderLabel + leaderRecurringConflict.value.role;
    }
    if leaderSpecificConflict.Some? {
      conflictReason := LeaderLabel + leaderSpecificConflict.value.role;
    }
    assert conflictReason == LeaderReason(selectedLeader, day);
    if participantConflict {
      var recurring := FindDay(selectedParticipant.value.unavailableDays, dayOfWeek);
      var specific := FindDate(selectedParticipant.value.unavailableDates, day);
      if recurring.Some? {
        conflictReason := AppendReason(conflictReason, ParticipantLabel + recurring.value.role);
      }
      if specific.Some? {
        conflictReason := AppendReason(conflictReason, ParticipantLabel + specific.value.role);
      }
    }
    assert conflictReason == ConflictReason(selectedLeader, selectedParticipant, participantConflict, day);

    var team := Team(TeamId(index),
                     if selectedParticipant.Some? then [selectedLeader, selectedParticipant.value] else [selectedLeader]);
    assignment := Assignment(day, team, participantConflict || leaderConflict,
                             if conflictReason == "" then None else Some(conflictReason));
  }
}
