/** The roster's data shapes (src/types.ts). */
module Types {
  import opened Calendar

  datatype Option<+T> = None | Some(value: T)

  datatype MemberType = Leader | Participant

  /** A standing weekly unavailability, with the label shown for it. */
  datatype UnavailableDay = UnavailableDay(dayOfWeek: DayOfWeek, role: string)

  /** A one-off unavailability; `date` is the text the date field produced. */
  datatype UnavailableDate = UnavailableDate(date: string, role: string)

  /** A roster member. The optional `unavailableDates` of the source is a
      plain sequence here: an absent list and an empty one behave alike.
      The source field `type` is called `kind` (`type` is a Dafny keyword). */
  datatype Member = Member(
    id: string,
    name: string,
    kind: MemberType,
    unavailableDays: seq<UnavailableDay>,
    unavailableDates: seq<UnavailableDate>,
    color: Option<string>)

  datatype Team = Team(id: string, members: seq<Member>)

  /** One service day's team. The generator always sets `hasConflict`, so it
      is a plain boolean here. */
  datatype Assignment = Assignment(
    date: Date,
    team: Team,
    hasConflict: bool,
    conflictReason: Option<string>)
}
