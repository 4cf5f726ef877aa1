# Sonosched duty roster, modelled in Dafny

Sonosched builds a monthly rota for the sound team of a church. The roster
holds leaders and participants. Each member may carry weekly
unavailabilities (a weekday and a label) and one-off unavailabilities (an
ISO date text and a label).

The engine in `src/utils/scheduler.ts` has two parts:
- `getServiceDays` lists the Sundays, Wednesdays and Saturdays of a month.
- `generateSchedule` walks those days with two rotation queues, one for
  leaders and one for participants. Each day it takes the first queue member
  who is free, or the front member when nobody is free, and moves that member
  to the back. It then records whether the final team conflicts and why.

The handlers in `src/App.tsx` edit the member list:
- removing a member;
- toggling a weekly unavailability;
- adding and removing a dated unavailability;
- adding a member;
- the headcount gate before generating (at least six leaders and four
  participants).

The project has six files:
- `sequences.dfy` (module `Sequences`): `Array.prototype.filter` and its laws. The roster handlers and the pool split use it.
- `calendar.dfy` (module `Calendar`): proleptic Gregorian day numbers, weekdays and ISO date text. These replace JavaScript's `Date` and date-fns.
- `types.dfy` (module `Types`): the records of `src/types.ts`.
- `service_days.dfy` (module `ServiceDayCalculator`): `getServiceDays`.
- `scheduler.dfy` (module `Scheduler`): `generateSchedule`.
  - The method `GenerateSchedule` keeps the source's loop, with the queues as sequence variables.
  - `SelectCandidate` keeps the indexed scan with `break` and the fallback.
  - `AssignServiceDay` is the loop body.
  - Each method is proved equal to a specification function (`Schedule`, `Choose`, `AssignDay`), and the rota's properties are proved as lemmas about those functions.
- `roster.dfy` (module `Roster`): the `App.tsx` handlers as functions from the old member list to the new one, with their laws.

Two behaviours of the code a reader might not expect:
- **No leaders.** `generateSchedule` returns `[]` when the roster has no leader (line 35); there is no separate failure value. `Scheduler.ScheduleShape` states this.
- **Specific date versus weekday in the text.** For the leader, a specific-date label replaces the weekly one (lines 95-96). For a participant whose pick was forced, both labels are appended, weekly first, each prefixed `Auxiliar: ` (lines 100-101).

## Model

| member | source | states |
|---|---|---|
| Sequences.Filter | src/App.tsx:137 | `filter` keeps exactly the elements the predicate accepts, and never adds a copy of any element |
| Sequences.FilterConcat | src/App.tsx:137 | filtering a concatenation filters each part, so the kept elements stay in their original order |
| Sequences.FilterKeepsAll | src/App.tsx:137 | a filter that accepts every element returns the list unchanged |
| Sequences.FilterKeepsNone | src/App.tsx:137 | a filter that accepts no element returns the empty list |
| Calendar.DaysInMonth | src/utils/scheduler.ts:13 | `endOfMonth`: a month has 28 to 31 days, and 29 exactly for February of a Gregorian leap year |
| Calendar.MarchYearLength | src/utils/scheduler.ts:13 | the year ending with a leap February is 366 days long, any other 365 |
| Calendar.DayNumberNext | src/utils/scheduler.ts:15 | `eachDayOfInterval`: the day after a valid date is a valid date numbered one higher, across month and year ends |
| Calendar.DayNumberNextMonth | src/utils/scheduler.ts:15 | the first of the next month follows the last day of this one |
| Calendar.DayNumberEpoch | src/utils/scheduler.ts:19 | `getDay` is anchored at 1970-01-01, day 0, a Thursday |
| Calendar.Weekday | src/utils/scheduler.ts:19 | `getDay` counts from Sunday as 0: 1 January 1970 is a Thursday (4) and 4 January 1970 a Sunday (0) |
| Calendar.WeekdayNext | src/utils/scheduler.ts:19 | consecutive days have consecutive weekdays modulo 7 |
| Calendar.WeekdayInMonth | src/utils/scheduler.ts:19 | within a month, the weekday of day n is the weekday of the 1st shifted by n-1 |
| Calendar.DecimalValue | src/utils/scheduler.ts:49 | the decimal text of a number spells that number |
| Calendar.ZeroPadValue | src/utils/scheduler.ts:49 | zero padding does not change the number a digit text spells |
| Calendar.DecimalLength | src/utils/scheduler.ts:49 | a number below 10^k has at most k digits |
| Calendar.IsoDate | src/utils/scheduler.ts:49 | for a four-digit year, a month in 0..11 and a day below 100, the text is ten characters with `-` at positions 4 and 7 |
| Calendar.IsoDateLayout | src/utils/scheduler.ts:49 | the text of a valid date with a four-digit year is ten characters, with the year, month and day fields at fixed positions |
| Calendar.IsoDateInjective | src/utils/scheduler.ts:49 | two valid dates with four-digit years have the same `YYYY-MM-DD` text only if they are the same date |
| Calendar.IsoDateExample | src/utils/scheduler.ts:49 | 3 February 2024 (month 1, counted from 0) is written `2024-02-03` |
| Calendar.IsoDatePaddedYear | src/utils/scheduler.ts:49 | 25 December 987 is written `0987-12-25`, with the year padded to four digits |
| ServiceDayCalculator.MonthStart | src/utils/scheduler.ts:12 | `startOfMonth(new Date(year, month))` is the valid first day of month `month` mod 12; for a month in 0..11 it is that month of `year`, a year in 0..99 being read as 1900 + year; a month outside 0..11 carries into the year by floor division |
| ServiceDayCalculator.MonthStartCarry | src/utils/scheduler.ts:12 | month 12 of 2023 starts 2024-01-01, month -1 of 2024 starts 2023-12-01, and year 24 is read as 1924 |
| ServiceDayCalculator.MonthDays | src/utils/scheduler.ts:15 | the interval from the start to the end of the month is days 1 to DaysInMonth of that month, in order |
| ServiceDayCalculator.KeepServiceDays | src/utils/scheduler.ts:18-21 | the weekday filter keeps exactly the Sundays, Wednesdays and Saturdays, and keeps calendar order |
| ServiceDayCalculator.ServiceDays | src/utils/scheduler.ts:11-22 | the result holds exactly the dates of the month whose weekday is 0, 3 or 6, strictly ascending and so without duplicates |
| ServiceDayCalculator.ServiceDaysNonEmpty | src/utils/scheduler.ts:11-22 | every month has at least one service day |
| ServiceDayCalculator.FirstSunday | src/utils/scheduler.ts:11-22 | the first Sunday of a month is a valid day of that month within its first seven days |
| ServiceDayCalculator.ServiceDaysFebruary2024 | src/utils/scheduler.ts:11-22 | February 2024 gives the 3rd, 4th, 7th, 10th, 11th, 14th, 17th, 18th, 21st, 24th, 25th and 28th |
| ServiceDayCalculator.ChronologicalUnique | src/utils/scheduler.ts:18-21 | two strictly ascending lists with the same dates are equal, so the result is determined by which dates qualify |
| Scheduler.OfKind | src/utils/scheduler.ts:32-33 | each pool holds exactly the roster members of that type, each at most as often as in the roster |
| Scheduler.OfKindEmpty | src/utils/scheduler.ts:35 | a pool is empty exactly when no member has that type |
| Scheduler.NamesDay | src/utils/scheduler.ts:49 | an entry names a day of a four-digit year only if its text has the ten-character `YYYY-MM-DD` shape |
| Scheduler.NamesDayUnique | src/utils/scheduler.ts:49 | a dated entry matches at most one day of a four-digit year |
| Scheduler.FindDay | src/utils/scheduler.ts:90 | `find` on weekly entries yields an entry for the weekday, or nothing exactly when there is none |
| Scheduler.FindDayIsFirst | src/utils/scheduler.ts:90 | the entry found is the first one for that weekday |
| Scheduler.FindDate | src/utils/scheduler.ts:91 | `find` on dated entries yields an entry naming the day, or nothing exactly when there is none |
| Scheduler.FindDateIsFirst | src/utils/scheduler.ts:91 | the dated entry found is the first one naming that day |
| Scheduler.FirstAvailableFrom | src/utils/scheduler.ts:46-57 | the scan stops at the first candidate with neither a weekly nor a dated conflict, or finds none when all conflict |
| Scheduler.Rotate | src/utils/scheduler.ts:53-54 | `splice` then `push` keeps the queue's length and members and puts the chosen candidate last |
| Scheduler.Choose | src/utils/scheduler.ts:46-62 | the queue stays a permutation of itself with the pick at the back; the pick is forced exactly when every candidate conflicts, which is exactly when the pick conflicts |
| Scheduler.ChooseIsFirstFreeOrFront | src/utils/scheduler.ts:46-62 | the pick is the first free candidate, or the front one when none is free, and the new queue is the old one with exactly that candidate moved to the back |
| Scheduler.SelectCandidate | src/utils/scheduler.ts:46-62 | the indexed scan with `break` and the `shift`/`push` fallback computes the same pick, queue and forced flag as Choose |
| Scheduler.AppendReasonJoins | src/utils/scheduler.ts:100-101 | appending a fragment with `, ` to a non-empty text is joining one more part |
| Scheduler.AppendParticipantLabelsJoins | src/utils/scheduler.ts:97-102 | appending the participant's weekly, then dated, label is joining them after the leader's part |
| Scheduler.ConflictReasonIsJoin | src/utils/scheduler.ts:94-102 | the step-by-step text is the leader's fragment (dated label over weekly) followed by the forced participant's weekly then dated labels, joined with `, ` |
| Scheduler.ConflictReasonEmpty | src/utils/scheduler.ts:94-111 | the text is empty, so `conflictReason` is absent, exactly when the leader is free and the participant pick was not forced |
| Scheduler.AssignDay | src/utils/scheduler.ts:41-112 | one day's picks leave each queue a permutation of itself, with the same length |
| Scheduler.AssignDayWellFormed | src/utils/scheduler.ts:104-111 | the assignment carries the day, an index-derived id, a leader from the queue and, exactly when the participant queue is non-empty, a participant; `hasConflict` holds exactly when a team member is unavailable; the reason is absent exactly when there is no conflict |
| Scheduler.Run | src/utils/scheduler.ts:41-113 | the loop over the service days from day k on emits exactly one assignment per remaining day |
| Scheduler.RunWellFormed | src/utils/scheduler.ts:41-113 | the assignment at each position is well formed for that service day, for the pools the queues were drawn from |
| Scheduler.Schedule | src/utils/scheduler.ts:29-115 | with no leader the result is empty; otherwise it has exactly one assignment per service day of the month, and so is never empty |
| Scheduler.ScheduleShape | src/utils/scheduler.ts:29-115 | with no leader the result is empty whatever the participants; otherwise there is one assignment per service day, in order, with a leader first and a participant second exactly when the roster has participants, and the conflict flag matches unavailability exactly |
| Scheduler.TurnedStep | src/utils/scheduler.ts:53-61 | rotating the front of a queue turned n times gives the queue turned n+1 times |
| Scheduler.ChooseWhenAllAvailable | src/utils/scheduler.ts:46-55 | when nobody has an unavailability, the front candidate is taken and rotated to the back |
| Scheduler.AssignDayWhenAllAvailable | src/utils/scheduler.ts:41-112 | when nobody has an unavailability, a day takes the front of each queue, rotates both queues and has no conflict |
| Scheduler.RoundRobin | src/utils/scheduler.ts:37-87 | when nobody has an unavailability, day d is led by leader d mod L of the initial order and staffed by participant d mod P, with no conflict, so every leader serves once before any serves twice |
| Scheduler.GenerateSchedule | src/utils/scheduler.ts:24-116 | the loop with its two queues returns exactly Schedule for the shuffled orders, so it has every property proved of Schedule |
| Scheduler.RunExtends | src/utils/scheduler.ts:41-113 | one turn of the loop appends the day's assignment and continues from the queues it left, so the assignments made plus those still to come stay the whole schedule |
| Scheduler.AssignServiceDay | src/utils/scheduler.ts:41-112 | the loop body (leader scan, participant scan when there are participants, flag and text built step by step) yields AssignDay's assignment and queues |
| Roster.UpdateWhere | src/App.tsx:141-151 | `map` applies the update to exactly the members with the given id and leaves every other member and the length unchanged |
| Roster.UpdateWhereIdentity | src/App.tsx:141-151 | an update that changes none of the matching members leaves the list unchanged |
| Roster.RemoveMember | src/App.tsx:136-138 | the new list holds exactly the members with another id, each at most as often as before |
| Roster.RemoveMemberKeeps | src/App.tsx:136-138 | removal keeps exactly the members with another id, in their original order |
| Roster.RemoveAbsentMember | src/App.tsx:136-138 | removing an id that nobody has changes nothing |
| Roster.WithoutDay | src/App.tsx:145 | exactly the weekly entries for other weekdays are kept |
| Roster.WithoutDayKeepsOrder | src/App.tsx:145 | the weekly entries kept stay in their original order |
| Roster.ToggleDay | src/App.tsx:142-149 | only the weekly list changes; the member has an entry for the day afterwards exactly when it had none; switching off keeps exactly the entries for other weekdays; switching on appends `{day, 'Ocupado'}` after the old entries |
| Roster.ToggleUnavailableDay | src/App.tsx:140-152 | the length is kept, each member with that id has an entry for the day afterwards exactly when it had none, and every other member is unchanged |
| Roster.ToggleUnavailableDayFlips | src/App.tsx:140-152 | each member with that id flips its entry for the day and changes nothing but its weekly list. That list becomes the old one without the day's entries when it had one, and the old one followed by `{day, 'Ocupado'}` otherwise. All other members are unchanged |
| Roster.ToggleTwice | src/App.tsx:140-152 | toggling twice, starting with no entry for the day, gives the list back |
| Roster.AddDate | src/App.tsx:157-161 | a member that already has the date is unchanged; otherwise `{date, role}` is appended to its dated list |
| Roster.AddUnavailableDate | src/App.tsx:154-164 | nothing changes when the date or the label is empty; other members are never changed; the length is kept |
| Roster.AddUnavailableDateEffect | src/App.tsx:154-164 | the member concerned gains `{date, role}` exactly when both are non-empty and it had no entry for the date |
| Roster.AddUnavailableDateKeepsDistinct | src/App.tsx:154-164 | if no member has two entries with the same date, none has after adding |
| Roster.WithoutDate | src/App.tsx:169 | exactly the dated entries with another date are kept |
| Roster.WithoutDateKeepsOrder | src/App.tsx:169 | the kept entries stay in their original order |
| Roster.RemoveUnavailableDate | src/App.tsx:166-173 | the length is kept; each member with that id keeps its weekly list and has no entry for the date afterwards; every other member is unchanged |
| Roster.RemoveUnavailableDateEffect | src/App.tsx:166-173 | only the members with that id change; each one's dated list becomes the old one without the entries for the date, the others kept in their order and with their repeats |
| Roster.AddThenRemoveDate | src/App.tsx:154-173 | adding a date the member does not have and then removing it gives the list back |
| Roster.TrimStart | src/App.tsx:119 | the leading white space and line terminators are stripped, and only those |
| Roster.TrimEnd | src/App.tsx:119 | the trailing white space and line terminators are stripped, and only those |
| Roster.Trim | src/App.tsx:119 | the trimmed name is a contiguous stretch of the name that neither starts nor ends with white space, and everything cut off on either side is white space or a line terminator |
| Roster.TrimEmpty | src/App.tsx:119 | a name trims to nothing exactly when every character is white space or a line terminator |
| Roster.AddMember | src/App.tsx:118-134 | the list is unchanged exactly when the trimmed name is empty; otherwise it is the old list with one member appended under the given id |
| Roster.AddMemberEffect | src/App.tsx:118-134 | a blank name changes nothing; otherwise exactly one member is appended with the given id, name and type, no unavailability, and a color exactly when it is a leader |
| Roster.AddThenRemoveMember | src/App.tsx:118-138 | adding a member under a fresh id and removing that id gives the list back |
| Roster.HandleGenerate | src/App.tsx:175-190 | below six leaders or four participants the schedule is kept; otherwise it is replaced by the one generated for the month |
| Roster.HandleGenerateGate | src/App.tsx:175-190 | below six leaders or four participants the schedule is unchanged; otherwise every service day gets a leader followed by a participant |
| Roster.PoolsOfSplitRoster | src/App.tsx:176-177 | a list of leaders followed by a list of participants has exactly those as its two pools |
| Roster.DefaultRosterHeadcount | src/App.tsx:95-112 | the default roster has six leaders and ten participants, so it passes the gate |

## Left out

- The shuffle `sort(() => Math.random() - 0.5)` (src/utils/scheduler.ts:32-33) is not modelled. Its comparator is random. The shuffled orders are inputs instead, required to be permutations of the two pools (`IsShuffleOf`).
- date-fns and JavaScript `Date` are replaced by integer calendar dates and a proleptic Gregorian day count. Time of day, time zones and daylight-saving shifts are not modelled.
- `isSameDay(new Date(ud.date), day)` is modelled as equality of the entry's text with the day's `YYYY-MM-DD` text (`Scheduler.NamesDay`). JavaScript parses a date-only text as midnight UTC. West of Greenwich that instant falls on the previous local day, so the real comparison depends on the time zone of the browser. The model compares calendar dates only.
- `unavailableDates` is optional in `src/types.ts`. The model uses a sequence, with an absent list read as the empty one, as the code's `?.` and `|| []` do.
- `hasConflict` is optional in `src/types.ts`. The generator always sets it, so the model uses a plain boolean.
- The team id `gen-${index}` is modelled as `"gen-"` followed by the decimal index (`Scheduler.TeamId`). No property of it is proved beyond its being derived from the index.
- `currentDate.getMonth()` and `getFullYear()` in handleGenerate (src/App.tsx:185-186) become the month and year inputs of `Roster.HandleGenerate`.
- `crypto.randomUUID()` and the random leader color (src/App.tsx:122-126) become the `id` and `color` inputs of `Roster.AddMember`.
- `setMembers`, `setSchedule`, `useState`, `useEffect`, `useMemo`, `localStorage`, `alert`, `confirm` and all JSX (src/App.tsx:55-91 and 192 onwards) are not modelled. They are UI and I/O. Each handler is modelled as the new list it hands to the setter.
- handleResetToDefault's confirmation dialog is not modelled. Only its roster is, as `Roster.DefaultRoster` (src/App.tsx:95-112, the same list as lines 60-77).
- src/components/MemberManager.tsx and src/constants.ts are not part of this model. They are presentation and label tables.
- `MonthlySchedule` in src/types.ts is not modelled. No core function uses it.
- The member's `type` field is named `kind`, because `type` is a Dafny keyword.
- Copying the pools into queues (`[...leaders]`, src/utils/scheduler.ts:38-39) needs no model. Dafny sequences are values, so the caller's roster cannot be modified by the generator.
- JavaScript strings are UTF-16. The model's strings are sequences of Unicode scalar values, and `trim` is modelled by the list of ECMAScript white space and line terminator code points (sections 12.2 and 12.3 of ECMA-262).
- IsoDateInjective: proved only for years 0..9999. Other years use the signed six-digit form, and the model does not prove that form injective. The roster's dates are four-digit years.
