# We-Band back end: slot codec, weekly calendar and meet roster

This project models the core of the We-Band back end, a service where users keep a
weekly availability calendar and form meets (groups) whose members compare
schedules.

- **Slot codec** (`SlotCodec`). A day is 30 half-hour slots, each 0 or 1.
  It is stored as the 4-byte `block_data` column, most significant bit first,
  and the last two bits of byte 3 are padding. `BinaryToBlocks` and
  `BlocksToBinary` are the controllers' loops, proved equal to the functions
  `Decode` and `Encode`. Both round trips are proved.
- **Week window** (`WeekWindow`). This is the Sunday-to-Saturday week around
  a reference day. Days are day numbers, with day 0 being 1970-01-01.
- **Schedule table** (`Schedules`). This is the `schedule` table keyed by
  (user, date). It provides the range query the controllers issue and the
  seven-day view they build: stored days are decoded, missing days are all
  zeros.
- **Weekly calendar** (`Calendar`). This is GET /calendar/week: its two 400
  cases, the window, and the seven decoded days.
- **Meet roster** (`Meets`). A `Roster` object holds the `group` and `member`
  tables and has one method per controller: create, join, detail, update,
  delete, and exit or kick. Each method has the source's error cases in the
  source's order, and each state-changing method keeps the invariant
  `Consistent`. The meet list (`MyMeets`) is a function over the two tables.
- **Support modules.** `Outcomes` holds the error kinds and their HTTP
  statuses, and the parse outcomes of a date string. `Text` models
  JavaScript's `String.prototype.trim`. `SortedIds` holds the `orderBy`
  sorts.

The model follows the code in three places:

- The meet detail's seven days start at the group's own date, not at a Sunday.
- In exit or kick, the 403 check (neither owner nor target) runs before the
  400 check (the target is the owner).
- Nothing in the modelled code writes the `schedule` table, so the table is
  an input.

## Model

| member | source | states |
|---|---|---|
| SlotCodec.Decode | src/controllers/meetsControllers.ts:9-19 | a stored buffer stands for exactly 30 blocks, each 0 or 1 |
| SlotCodec.Encode | src/controllers/meetsControllers.ts:24-36 | the packed form is 4 bytes and never sets the two padding bits of byte 3 |
| SlotCodec.BinaryToBlocks | src/controllers/meetsControllers.ts:9-19 | the push loop over 4 bytes × 8 bits, cut to 30 entries, yields `Decode(buffer)`; a byte past the end of the buffer reads as 0 |
| SlotCodec.BlocksToBinary | src/controllers/meetsControllers.ts:24-36 | OR-ing `1 << (7 - i % 8)` into byte `i / 8` for every slot equal to 1, starting from four zero bytes, yields `Encode(blocks)` |
| SlotCodec.EncodeSlot | src/controllers/meetsControllers.ts:27-32 | slot i is bit `7 - i % 8` of byte `i / 8`; that bit is set exactly when `blocks[i] == 1`, and bits 30 and 31 are never set |
| SlotCodec.DecodeEncode | src/controllers/meetsControllers.ts:9-36 | decoding the packed form of any 30-entry 0/1 array gives the array back |
| SlotCodec.EncodeDecode | src/controllers/meetsControllers.ts:9-36 | packing a decoded buffer gives its first four bytes back with bits 30 and 31 cleared |
| SlotCodec.DecodeIgnoresPadding | src/controllers/calendarControllers.ts:10-21 | buffers that agree on their first 30 bits decode alike, so the padding bits and any bytes past the fourth never matter |
| SlotCodec.SetSlot | src/controllers/meetsControllers.ts:29-31 | setting bit `7 - i % 8` of byte `i / 8` for an on slot i extends the packed prefix from slots below i to slots below i + 1 |
| SlotCodec.AllSlots | src/controllers/meetsControllers.ts:24-36 | four bytes holding exactly the on slots among the 30 are `Encode(blocks)` |
| SlotCodec.PackDecodedByte | src/controllers/meetsControllers.ts:24-36 | repacking the decoded bits of byte j gives the byte back, with the low two bits dropped for byte 3 |
| WeekWindow.Weekday | src/controllers/calendarControllers.ts:50 | `getDay()` lies in 0..6 |
| WeekWindow.WeekStart | src/controllers/calendarControllers.ts:48-50 | the window starts on a Sunday no more than six days before the reference day |
| WeekWindow.SundayWithinSixDays | src/controllers/calendarControllers.ts:48-53 | the Sunday at most six days before the reference day is unique, and it is the window's start |
| WeekWindow.SameWindow | src/controllers/calendarControllers.ts:48-53 | two reference days give the same window if and only if the second lies in the first one's Sunday-to-Saturday week |
| WeekWindow.WeekEnd | src/controllers/calendarControllers.ts:52-53 | `endDate`, six days after the start, is a Saturday |
| WeekWindow.WeekdayNext | src/controllers/calendarControllers.ts:69-71 | consecutive days have consecutive weekdays, Saturday wrapping to Sunday |
| Schedules.Rows | src/controllers/calendarControllers.ts:55-63 | the range query returns exactly the rows of the given users dated within [start, end], unchanged |
| Schedules.WeekOf | src/controllers/calendarControllers.ts:68-80 | the seven-day view holds seven days dated start to start + 6, each with 30 blocks |
| Schedules.WeekOfShape | src/controllers/calendarControllers.ts:68-80 | the view holds seven days dated start to start + 6 in increasing order; each has 30 blocks in {0, 1}, which are the decoded row when one exists and all zeros otherwise |
| Schedules.WeekOfLocal | src/controllers/calendarControllers.ts:55-80 | only the user's own rows inside the window affect the view |
| Schedules.RowsSuffice | src/controllers/calendarControllers.ts:55-80 | building the view from the range query's rows gives the view of the whole table |
| Calendar.GetWeeklyCalendar | src/controllers/calendarControllers.ts:26-92 | a missing or empty `day` is refused as missing (400); an unparsable one is refused as malformed (400); otherwise the answer is the window's Sunday and the user's seven days from it |
| Outcomes.StatusCode | src/controllers/meetsControllers.ts:168-499 | one table across the controllers (join 198, update 355-361, delete 412-418, exit or kick 440-499, and the calendar's two 400s): each failure maps to one of 400, 403, 404 or 409, with 404 exactly for a missing meet or member, 403 exactly for a missing permission, and 409 exactly for a duplicate join |
| Text.SkipForward | src/controllers/meetsControllers.ts:56 | the scan from the left stops at the first character that is not whitespace, or at the end, having passed only whitespace |
| Text.SkipBackward | src/controllers/meetsControllers.ts:56 | the scan from the right stops after the last character that is not whitespace, or at its lower bound, having passed only whitespace |
| Text.TrimBounds | src/controllers/meetsControllers.ts:80 | `trim` keeps one contiguous slice: only whitespace lies outside it, a non-empty slice neither starts nor ends with whitespace, and an empty one lies at the end of the input |
| Text.Trim | src/controllers/meetsControllers.ts:56-58 | `trim` gives a contiguous slice of the input with only whitespace cut from either side, and a non-empty result neither starts nor ends with whitespace |
| Text.TrimEmptyIff | src/controllers/meetsControllers.ts:56-58 | a name is refused as blank exactly when it is entirely whitespace |
| Text.TrimIdempotent | src/controllers/meetsControllers.ts:367-368 | trimming a stored name again changes nothing |
| SortedIds.Descending | src/controllers/meetsControllers.ts:135-138 | `orderBy: { group_id: 'desc' }` lists every id of the set once, in strictly decreasing order |
| SortedIds.Ascending | src/controllers/meetsControllers.ts:244-248 | the member ids are listed once each, in strictly increasing order |
| SortedIds.DescendingUnique | src/controllers/meetsControllers.ts:135-138 | any strictly decreasing listing of the set is the one `Descending` gives, so the meet list's order is fully determined |
| Meets.MyMeets | src/controllers/meetsControllers.ts:117-161 | the list has one entry per group the user has a member row for, largest id first; each entry is that group's info with its number of member rows; no memberships gives the empty list |
| Meets.MyMeetsComplete | src/controllers/meetsControllers.ts:125-155 | every group the user has a member row for appears in the user's list |
| Meets.SoleMemberListed | src/controllers/meetsControllers.ts:125-155 | a group whose only member row is the user's appears in the user's list with a member count of 1 |
| Meets.DistinctUsers | src/controllers/meetsControllers.ts:141-146 | the rows of one group have pairwise different user ids, because (group_id, user_id) is the primary key |
| Meets.MemberCountIsMembers | src/controllers/meetsControllers.ts:141-154 | the `memberCount` of the list equals the number of members the detail lists |
| Meets.Lookup | src/controllers/meetsControllers.ts:315 | the blocks shown for a member on a date are the decoded row stored under that member and date, or 30 zeros when there is none |
| Meets.DaysOf | src/controllers/meetsControllers.ts:313-316 | a member's days follow the dates in order; each holds the decoded row for that date when one was fetched and 30 zeros otherwise |
| Meets.DaysOfWindow | src/controllers/meetsControllers.ts:288-318 | looking a member's seven dates up in the decoded rows of the range query gives that member's seven-day view of the whole table |
| Meets.DecodeRows | src/controllers/meetsControllers.ts:288-295 | the loop over the fetched rows yields a map with exactly the fetched (user, date) keys, each holding the decoded blocks of its row |
| Meets.OwnerIsMember | src/controllers/meetsControllers.ts:86-92 | under the invariant the owner is always a member, so a group's member list is never empty and the owner sees the group in their own list |
| Meets.AddGroupConsistent | src/controllers/meetsControllers.ts:76-92 | adding a group under an unused in-range id together with its owner's member row keeps the invariant |
| Meets.AddGroupListed | src/controllers/meetsControllers.ts:76-92 | a new group whose only member row is its owner's shows in the owner's list with a member count of 1 |
| Meets.Roster.CreateMeet | src/controllers/meetsControllers.ts:48-110 | a missing or blank name is refused (400) before the date is looked at; an unparsable date is refused (400); no date or an empty string means today; otherwise the group with the trimmed name and the caller as owner is added, together with the owner's member row; the invariant is kept; the new group shows in the owner's list with a member count of 1 |
| Meets.Roster.JoinMeet | src/controllers/meetsControllers.ts:168-208 | a missing group gives 404; an existing membership gives 409 and leaves the tables unchanged; otherwise exactly one member row is added, the count grows by one, and the group appears in the user's list |
| Meets.Roster.GetMeetDetail | src/controllers/meetsControllers.ts:215-332 | a missing group gives 404 and any existing group gives a successful answer, whether or not the requester is a member; the answer has the group's name and date; `participate` is true exactly when the requester has a member row; there is one entry per member, in increasing id order, each holding the member's seven days starting at the group's own date |
| Meets.Roster.UpdateMeet | src/controllers/meetsControllers.ts:343-394 | the checks run in order: 404, then 403 for a non-owner, then 400 for a supplied blank name, then 400 for a supplied unparsable date (an empty string included); on success only the supplied fields change, trimmed, the owner stays, and the invariant is kept |
| Meets.Roster.DeleteMeet | src/controllers/meetsControllers.ts:400-430 | 404, then 403 for a non-owner; on success the group and all its member rows go, it appears in nobody's list, and the invariant is kept |
| Meets.Roster.ExitOrKick | src/controllers/meetsControllers.ts:440-499 | the checks run in the source's order: 404, 403 unless the actor is the owner or the target, 400 when the target is the owner, 404 when the target is not a member; on success exactly the target's row goes, the result says whether it was a self-exit or a kick, and the invariant is kept |

## Left out

- Authentication. The `!req.user` 400 answers, the JWT and OAuth middleware, and the `Number.isFinite` checks on route parameters are left out. The acting user and the ids are inputs.
- Meets.Roster.CreateMeet: the retry loop that draws `Math.floor(100000 + Math.random() * 900000)` until it finds an unused id is left out. The caller supplies the id it settles on, in range and unused. The clock's current day is the parameter `today`.
- Dates are day numbers. JavaScript `Date` instants, time zones, `setHours` normalisation and the `toISOString().split('T')[0]` string keys are left out. A date string arrives already classified as absent, empty, unparsable or a day.
- Meets.Roster.GetMeetDetail: member names and the `USER_<id>` fallback are left out, so each entry carries the user id. The database returns members in no stated order; the model fixes increasing id order.
- Meets.Roster.GetMeetDetail: the source returns early with an empty `member` array when a group has no members. The general path gives the same answer, and `OwnerIsMember` shows that under the invariant this case never happens.
- Logging, response message texts, and the 500 answers for unexpected exceptions are left out.
- Concurrency is left out. Each controller is one atomic step, so races between the id check and the insert, or between two joins, are not modelled.
- `blocksToBinary` has no caller in the source. It is modelled and proved anyway, because it is the inverse of the decoder.
- Writes to the `schedule` table are not modelled, because no modelled code performs them.
