/** The member-list handlers of src/App.tsx. Each builds a new member list
    from the old one (map, filter or append) and hands it to the state
    setter; here each is a function from the old list to the new one. */
module Roster {
  import opened Calendar
  import opened Types
  import opened ServiceDayCalculator
  import opened Scheduler
  import opened Sequences

  // ---------------------------------------------------------------------
  // Updating the one member with a given id
  // ---------------------------------------------------------------------

  /** `members.map(m => m.id === id ? update(m) : m)`. */
  function UpdateWhere(members: seq<Member>, id: string, update: Member -> Member): (r: seq<Member>)
    ensures |r| == |members|
    ensures forall i :: 0 <= i < |members| ==>
              r[i] == (if members[i].id == id then update(members[i]) else members[i])
  {
    if members == [] then []
    else [if members[0].id == id then update(members[0]) else members[0]] + UpdateWhere(members[1..], id, update)
  }

  /** An update that leaves every member it is applied to as it was changes
      no list. */
  lemma UpdateWhereIdentity(members: seq<Member>, id: string, update: Member -> Member)
    requires forall i :: 0 <= i < |members| && members[i].id == id ==> update(members[i]) == members[i]
    ensures UpdateWhere(members, id, update) == members
  {
  }

  // ---------------------------------------------------------------------
  // handleRemoveMember
  // ---------------------------------------------------------------------

  /** `members.filter(m => m.id !== id)` (lines 136-138). */
  function RemoveMember(members: seq<Member>, id: string): (r: seq<Member>)
    ensures forall m :: m in r <==> m in members && m.id != id
    ensures multiset(r) <= multiset(members)
  {
    Filter(members, (m: Member) => m.id != id)
  }

  /** Exactly the members with another id survive, and they keep their
      order: removing from a concatenation removes from each part. */
  lemma RemoveMemberKeeps(front: seq<Member>, back: seq<Member>, id: string)
    ensures forall m :: m in RemoveMember(front, id) <==> m in front && m.id != id
    ensures RemoveMember(front + back, id) == RemoveMember(front, id) + RemoveMember(back, id)
  {
    FilterConcat(front, back, (m: Member) => m.id != id);
  }

  /** Removing an id nobody has changes nothing. */
  lemma RemoveAbsentMember(members: seq<Member>, id: string)
    requires forall m :: m in members ==> m.id != id
    ensures RemoveMember(members, id) == members
  {
    FilterKeepsAll(members, (m: Member) => m.id != id);
  }

  // ---------------------------------------------------------------------
  // toggleUnavailableDay
  // ---------------------------------------------------------------------

  /** The label a weekly unavailability gets when it is toggled on. */
  const BusyRole: string := "Ocupado"

  /** `unavailableDays.filter(ud => ud.dayOfWeek !== day)`. */
  function WithoutDay(entries: seq<UnavailableDay>, day: DayOfWeek): (r: seq<UnavailableDay>)
    ensures forall ud :: ud in r <==> ud in entries && ud.dayOfWeek != day
  {
    Filter(entries, (ud: UnavailableDay) => ud.dayOfWeek != day)
  }

  /** Lines 142-148 for the member concerned: drop every entry for `day`
      when there is one, else append a "busy" entry for it. */
  function ToggleDay(m: Member, day: DayOfWeek): (r: Member)
    ensures r == m.(unavailableDays := r.unavailableDays)
    ensures HasRecurringConflict(r, day) <==> !HasRecurringConflict(m, day)
    ensures HasRecurringConflict(m, day) ==>
              forall ud :: ud in r.unavailableDays <==> ud in m.unavailableDays && ud.dayOfWeek != day
    ensures !HasRecurringConflict(m, day) ==> r.unavailableDays == m.unavailableDays + [UnavailableDay(day, BusyRole)]
  {
    if FindDay(m.unavailableDays, day).Some? then
      m.(unavailableDays := WithoutDay(m.unavailableDays, day))
    else
      var entry := UnavailableDay(day, BusyRole);
      assert entry in m.unavailableDays + [entry];
      m.(unavailableDays := m.unavailableDays + [entry])
  }

  /** toggleUnavailableDay (lines 140-152). */
  function ToggleUnavailableDay(members: seq<Member>, memberId: string, day: DayOfWeek): (r: seq<Member>)
    ensures |r| == |members|
    ensures forall i :: 0 <= i < |members| && members[i].id == memberId ==>
              (HasRecurringConflict(r[i], day) <==> !HasRecurringConflict(members[i], day))
    ensures forall i :: 0 <= i < |members| && members[i].id != memberId ==> r[i] == members[i]
  {
    UpdateWhere(members, memberId, (m: Member) => ToggleDay(m, day))
  }

  /** The member concerned has an entry for `day` afterwards exactly when it
      had none before, and only its weekly list changes; every other member
      is unchanged. */
  lemma ToggleUnavailableDayFlips(members: seq<Member>, memberId: string, day: DayOfWeek)
    ensures var r := ToggleUnavailableDay(members, memberId, day);
      && |r| == |members|
      && forall i :: 0 <= i < |members| ==>
           if members[i].id == memberId then
             && r[i] == members[i].(unavailableDays := r[i].unavailableDays)
             && (HasRecurringConflict(r[i], day) <==> !HasRecurringConflict(members[i], day))
             && (HasRecurringConflict(members[i], day) ==>
                   r[i].unavailableDays == WithoutDay(members[i].unavailableDays, day))
             && (!HasRecurringConflict(members[i], day) ==>
                   r[i].unavailableDays == members[i].unavailableDays + [UnavailableDay(day, BusyRole)])
           else r[i] == members[i]
  {
  }

  /** The weekly entries kept when a day is switched off stay in order:
      filtering a concatenation filters each part. */
  lemma WithoutDayKeepsOrder(front: seq<UnavailableDay>, back: seq<UnavailableDay>, day: DayOfWeek)
    ensures WithoutDay(front + back, day) == WithoutDay(front, day) + WithoutDay(back, day)
  {
    FilterConcat(front, back, (ud: UnavailableDay) => ud.dayOfWeek != day);
  }

  /** On a list where the member concerned has no entry for `day`, toggling
      twice gives the list back. */
  lemma ToggleTwice(members: seq<Member>, memberId: string, day: DayOfWeek)
    requires forall m :: m in members && m.id == memberId ==> !HasRecurringConflict(m, day)
    ensures ToggleUnavailableDay(ToggleUnavailableDay(members, memberId, day), memberId, day) == members
  {
    var once := ToggleUnavailableDay(members, memberId, day);
    var twice := ToggleUnavailableDay(once, memberId, day);
    forall i | 0 <= i < |members|
      ensures twice[i] == members[i]
    {
      if members[i].id == memberId {
        var m := members[i];
        assert m in members;
        var entry := UnavailableDay(day, BusyRole);
        assert FindDay(m.unavailableDays, day).None?;
        assert once[i] == m.(unavailableDays := m.unavailableDays + [entry]);
        assert FindDay(once[i].unavailableDays, day).Some? by {
          assert entry in once[i].unavailableDays;
        }
        var other := (ud: UnavailableDay) => ud.dayOfWeek != day;
        FilterConcat(m.unavailableDays, [entry], other);
        FilterKeepsAll(m.unavailableDays, other);
        FilterKeepsNone([entry], other);
      }
    }
  }

  // ---------------------------------------------------------------------
  // addUnavailableDate / removeUnavailableDate
  // ---------------------------------------------------------------------

  predicate HasDate(entries: seq<UnavailableDate>, date: string) {
    exists ud :: ud in entries && ud.date == date
  }

  /** No two entries of the list carry the same date text. */
  predicate DistinctDates(entries: seq<UnavailableDate>) {
    forall i, j :: 0 <= i < j < |entries| ==> entries[i].date != entries[j].date
  }

  /** Lines 157-161 for the member concerned: nothing when it already has
      an entry for `date`, else `{date, role}` appended. */
  function AddDate(m: Member, date: string, role: string): (r: Member)
    ensures HasDate(m.unavailableDates, date) ==> r == m
    ensures !HasDate(m.unavailableDates, date) ==>
              r == m.(unavailableDates := m.unavailableDates + [UnavailableDate(date, role)])
  {
    if HasDate(m.unavailableDates, date) then m
    else m.(unavailableDates := m.unavailableDates + [UnavailableDate(date, role)])
  }

  /** addUnavailableDate (lines 154-164): nothing at all when the date or
      the label is empty. */
  function AddUnavailableDate(members: seq<Member>, memberId: string, date: string, role: string): (r: seq<Member>)
    ensures date == "" || role == "" ==> r == members
    ensures |r| == |members|
    ensures forall i :: 0 <= i < |members| && members[i].id != memberId ==> r[i] == members[i]
  {
    if date == "" || role == "" then members
    else UpdateWhere(members, memberId, (m: Member) => AddDate(m, date, role))
  }

  /** The member concerned gains `{date, role}` exactly when the date and
      label are non-empty and it had no entry for `date`. */
  lemma AddUnavailableDateEffect(members: seq<Member>, memberId: string, date: string, role: string, i: nat)
    requires i < |members| && members[i].id == memberId
    ensures var m, r := members[i], AddUnavailableDate(members, memberId, date, role)[i];
      if date != "" && role != "" && !HasDate(m.unavailableDates, date) then
        r == m.(unavailableDates := m.unavailableDates + [UnavailableDate(date, role)])
      else r == m
  {
  }

  /** Adding a date keeps every member free of duplicate dates. */
  lemma AddUnavailableDateKeepsDistinct(members: seq<Member>, memberId: string, date: string, role: string)
    requires forall m :: m in members ==> DistinctDates(m.unavailableDates)
    ensures forall m :: m in AddUnavailableDate(members, memberId, date, role) ==> DistinctDates(m.unavailableDates)
  {
    var r := AddUnavailableDate(members, memberId, date, role);
    forall m | m in r
      ensures DistinctDates(m.unavailableDates)
    {
      var i :| 0 <= i < |r| && r[i] == m;
      var original := members[i];
      assert original in members;
      if m != original {
        AddUnavailableDateEffect(members, memberId, date, role, i);
        var entries := original.unavailableDates;
        assert m.unavailableDates == entries + [UnavailableDate(date, role)];
        forall j | 0 <= j < |entries|
          ensures entries[j].date != date
        {
          assert entries[j] in entries;
        }
      }
    }
  }

  /** `(m.unavailableDates || []).filter(d => d.date !== date)`. */
  function WithoutDate(entries: seq<UnavailableDate>, date: string): (r: seq<UnavailableDate>)
    ensures forall ud :: ud in r <==> ud in entries && ud.date != date
  {
    Filter(entries, (ud: UnavailableDate) => ud.date != date)
  }

  /** The entries kept stay in order: filtering a concatenation filters
      each part. */
  lemma WithoutDateKeepsOrder(front: seq<UnavailableDate>, back: seq<UnavailableDate>, date: string)
    ensures WithoutDate(front + back, date) == WithoutDate(front, date) + WithoutDate(back, date)
  {
    FilterConcat(front, back, (ud: UnavailableDate) => ud.date != date);
  }

  /** removeUnavailableDate (lines 166-173). */
  function RemoveUnavailableDate(members: seq<Member>, memberId: string, date: string): (r: seq<Member>)
    ensures |r| == |members|
    ensures forall i :: 0 <= i < |members| && members[i].id == memberId ==>
              r[i].unavailableDays == members[i].unavailableDays && !HasDate(r[i].unavailableDates, date)
    ensures forall i :: 0 <= i < |members| && members[i].id != memberId ==> r[i] == members[i]
  {
    UpdateWhere(members, memberId, (m: Member) => m.(unavailableDates := WithoutDate(m.unavailableDates, date)))
  }

  /** Only the member concerned changes, and its dated list becomes the old
      one without the entries for `date`, the others kept in order. */
  lemma RemoveUnavailableDateEffect(members: seq<Member>, memberId: string, date: string)
    ensures var r := RemoveUnavailableDate(members, memberId, date);
      && |r| == |members|
      && forall i :: 0 <= i < |members| ==>
           if members[i].id == memberId then
             && r[i] == members[i].(unavailableDates := r[i].unavailableDates)
             && r[i] == members[i].(unavailableDates := WithoutDate(members[i].unavailableDates, date))
             && forall ud :: ud in r[i].unavailableDates <==> ud in members[i].unavailableDates && ud.date != date
           else r[i] == members[i]
  {
  }

  /** Adding a date the member concerned does not have and removing it
      again gives the list back. */
  lemma AddThenRemoveDate(members: seq<Member>, memberId: string, date: string, role: string)
    requires forall m :: m in members && m.id == memberId ==> !HasDate(m.unavailableDates, date)
    ensures RemoveUnavailableDate(AddUnavailableDate(members, memberId, date, role), memberId, date) == members
  {
    var added := AddUnavailableDate(members, memberId, date, role);
    var removed := RemoveUnavailableDate(added, memberId, date);
    forall i | 0 <= i < |members|
      ensures removed[i] == members[i]
    {
      if members[i].id == memberId {
        var m := members[i];
        assert m in members;
        AddUnavailableDateEffect(members, memberId, date, role, i);
        var entry := UnavailableDate(date, role);
        var other := (ud: UnavailableDate) => ud.date != date;
        FilterConcat(m.unavailableDates, [entry], other);
        FilterKeepsAll(m.unavailableDates, other);
        FilterKeepsNone([entry], other);
      }
    }
  }

  // ---------------------------------------------------------------------
  // handleAddMember
  // ---------------------------------------------------------------------

  /** The characters `String.prototype.trim` strips: the WhiteSpace and
      LineTerminator code points of ECMAScript (sections 12.2 and 12.3 of
      ECMA-262). */
  predicate IsTrimSpace(c: char) {
    c in {'\U{9}', '\U{A}', '\U{B}', '\U{C}', '\U{D}', '\U{20}', '\U{A0}', '\U{1680}',
          '\U{2000}', '\U{2001}', '\U{2002}', '\U{2003}', '\U{2004}', '\U{2005}', '\U{2006}', '\U{2007}',
          '\U{2008}', '\U{2009}', '\U{200A}', '\U{2028}', '\U{2029}', '\U{202F}', '\U{205F}', '\U{3000}',
          '\U{FEFF}'}
  }

  function TrimStart(s: string): (r: string)
    ensures |r| <= |s| && r == s[|s| - |r|..]
    ensures r != [] ==> !IsTrimSpace(r[0])
    ensures forall i :: 0 <= i < |s| - |r| ==> IsTrimSpace(s[i])
  {
    if s != [] && IsTrimSpace(s[0]) then TrimStart(s[1..]) else s
  }

  function TrimEnd(s: string): (r: string)
    ensures |r| <= |s| && r == s[..|r|]
    ensures r != [] ==> !IsTrimSpace(r[|r| - 1])
    ensures forall i :: |r| <= i < |s| ==> IsTrimSpace(s[i])
  {
    if s != [] && IsTrimSpace(s[|s| - 1]) then TrimEnd(s[..|s| - 1]) else s
  }

  /** `s.trim()`. */
  function Trim(s: string): (r: string)
    ensures exists k :: TrimmedAt(s, r, k)
    ensures r != [] ==> !IsTrimSpace(r[0]) && !IsTrimSpace(r[|r| - 1])
  {
    var front := TrimStart(s);
    var trimmed := TrimEnd(front);
    var k := |s| - |front|;
    assert trimmed == s[k..k + |trimmed|];
    assert TrimmedAt(s, trimmed, k);
    trimmed
  }

  /** `r` is `s[k..k + |r|]`, and every character of `s` outside that
      stretch is one `trim` strips. */
  predicate TrimmedAt(s: string, r: string, k: int) {
    && 0 <= k <= |s| - |r| && r == s[k..k + |r|]
    && (forall i :: 0 <= i < k ==> IsTrimSpace(s[i]))
    && (forall i :: k + |r| <= i < |s| ==> IsTrimSpace(s[i]))
  }

  /** A name trims to nothing exactly when every character of it is one
      `trim` strips. */
  lemma TrimEmpty(s: string)
    ensures Trim(s) == "" <==> forall i :: 0 <= i < |s| ==> IsTrimSpace(s[i])
  {
    var t := TrimStart(s);
    assert t != [] ==> t[0] == s[|s| - |t|];
  }

  /** handleAddMember (lines 118-134). The fresh id and the color drawn at
      random are inputs; the member keeps the name as typed, untrimmed. */
  function AddMember(members: seq<Member>, name: string, kind: MemberType, id: string, color: string): (r: seq<Member>)
    ensures r == members <==> Trim(name) == ""
    ensures r != members ==> |r| == |members| + 1 && r[..|members|] == members && r[|members|].id == id
  {
    if Trim(name) == "" then members
    else members + [Member(id, name, kind, [], [], if kind == Leader then Some(color) else None)]
  }

  /** A blank name changes nothing; any other name appends exactly one
      member, with that name and kind, no unavailability, and a color
      exactly when it is a leader. */
  lemma AddMemberEffect(members: seq<Member>, name: string, kind: MemberType, id: string, color: string)
    ensures var r := AddMember(members, name, kind, id, color);
      if forall i :: 0 <= i < |name| ==> IsTrimSpace(name[i]) then r == members
      else
        && |r| == |members| + 1 && r[..|members|] == members
        && r[|members|].id == id && r[|members|].name == name && r[|members|].kind == kind
        && r[|members|].unavailableDays == [] && r[|members|].unavailableDates == []
        && (r[|members|].color.Some? <==> kind == Leader)
  {
    TrimEmpty(name);
  }

  /** Adding a member under a fresh id and removing that id gives the list back. */
  lemma AddThenRemoveMember(members: seq<Member>, name: string, kind: MemberType, id: string, color: string)
    requires forall m :: m in members ==> m.id != id
    ensures RemoveMember(AddMember(members, name, kind, id, color), id) == members
  {
    RemoveAbsentMember(members, id);
    if Trim(name) != "" {
      var added := Member(id, name, kind, [], [], if kind == Leader then Some(color) else None);
      RemoveMemberKeeps(members, [added], id);
      assert RemoveMember([added], id) == [];
    }
  }

  // ---------------------------------------------------------------------
  // handleGenerate
  // ---------------------------------------------------------------------

  const MinLeaders: nat := 6
  const MinParticipants: nat := 4

  /** handleGenerate (lines 175-190): the schedule is replaced by a freshly
      generated one only when the roster has at least six leaders and four
      participants; otherwise it is left as it was. The month shown and the
      shuffled orders are inputs. */
  function HandleGenerate(members: seq<Member>, schedule: seq<Assignment>, month: int, year: int,
                          leaderOrder: seq<Member>, participantOrder: seq<Member>): (r: seq<Assignment>)
    ensures |OfKind(members, Leader)| < MinLeaders || |OfKind(members, Participant)| < MinParticipants ==> r == schedule
    ensures |OfKind(members, Leader)| >= MinLeaders && |OfKind(members, Participant)| >= MinParticipants ==>
              r == Schedule(month, year, leaderOrder, participantOrder)
  {
    if |OfKind(members, Leader)| < MinLeaders || |OfKind(members, Participant)| < MinParticipants then schedule
    else Schedule(month, year, leaderOrder, participantOrder)
  }

  /** Below the headcount the schedule is untouched; at or above it, every
      service day of the month gets a two-person team, a leader followed
      by a participant. */
  lemma HandleGenerateGate(members: seq<Member>, schedule: seq<Assignment>, month: int, year: int,
                           leaderOrder: seq<Member>, participantOrder: seq<Member>)
    requires IsShuffleOf(leaderOrder, OfKind(members, Leader))
    requires IsShuffleOf(participantOrder, OfKind(members, Participant))
    ensures var r := HandleGenerate(members, schedule, month, year, leaderOrder, participantOrder);
      if |OfKind(members, Leader)| < MinLeaders || |OfKind(members, Participant)| < MinParticipants then
        r == schedule
      else
        && |r| == |ServiceDays(month, year)|
        && forall d :: 0 <= d < |r| ==>
             && r[d].date == ServiceDays(month, year)[d]
             && |r[d].team.members| == 2
             && r[d].team.members[0].kind == Leader
             && r[d].team.members[1].kind == Participant
  {
    var leaders, participants := OfKind(members, Leader), OfKind(members, Participant);
    if |leaders| >= MinLeaders && |participants| >= MinParticipants {
      assert leaders[0] in leaders && participants[0] in participants;
      ScheduleShape(month, year, members, leaderOrder, participantOrder);
    }
  }

  // ---------------------------------------------------------------------
  // The default roster
  // ---------------------------------------------------------------------

  /** The roster the app starts from and resets to (lines 60-77 and 95-112). */
  const DefaultRoster: seq<Member> := DefaultLeaders + DefaultParticipants

  const DefaultLeaders: seq<Member> := [
      Member("1", "Carlos", Leader, [], [], Some("#6366f1")),
      Member("2", "Claudinei", Leader, [], [], Some("#10b981")),
      Member("3", "Marcos", Leader, [], [], Some("#f59e0b")),
      Member("4", "Tamara", Leader, [], [], Some("#f43f5e")),
      Member("5", "Victor", Leader, [], [], Some("#8b5cf6")),
      Member("6", "Wales", Leader, [], [], Some("#06b6d4"))
  ]

  const DefaultParticipants: seq<Member> := [
      Member("7", "Rebeca", Participant, [], [], None),
      Member("8", "Joabe", Participant, [], [], None),
      Member("9", "Milena", Participant, [], [], None),
      Member("10", "Weverson", Participant, [], [], None),
      Member("11", "Letícia", Participant, [], [], None),
      Member("12", "Kalebe", Participant, [], [], None),
      Member("13", "Luis", Participant, [], [], None),
      Member("14", "Kauan", Participant, [], [], None),
      Member("15", "Edmilson", Participant, [], [], None),
      Member("16", "Davi", Participant, [], [], None)
  ]

  /** The default roster has six leaders and ten participants, so it passes
      the headcount gate. */
  lemma DefaultRosterHeadcount()
    ensures |OfKind(DefaultRoster, Leader)| == 6 && |OfKind(DefaultRoster, Participant)| == 10
    ensures |OfKind(DefaultRoster, Leader)| >= MinLeaders && |OfKind(DefaultRoster, Participant)| >= MinParticipants
  {
    assert |DefaultLeaders| == 6 && |DefaultParticipants| == 10;
    PoolsOfSplitRoster(DefaultLeaders, DefaultParticipants);
  }

  /** A roster listing its leaders and then its participants has exactly
      those as its pools. */
  lemma PoolsOfSplitRoster(leaders: seq<Member>, participants: seq<Member>)
    requires forall i :: 0 <= i < |leaders| ==> leaders[i].kind == Leader
    requires forall i :: 0 <= i < |participants| ==> participants[i].kind == Participant
    ensures OfKind(leaders + participants, Leader) == leaders
    ensures OfKind(leaders + participants, Participant) == participants
  {
    var isLeader := (m: Member) => m.kind == Leader;
    var isParticipant := (m: Member) => m.kind == Participant;
    FilterConcat(leaders, participants, isLeader);
    FilterConcat(leaders, participants, isParticipant);
    FilterKeepsAll(leaders, isLeader);
    FilterKeepsNone(participants, isLeader);
    FilterKeepsAll(participants, isParticipant);
    FilterKeepsNone(leaders, isParticipant);
  }
}
