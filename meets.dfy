/** The meet (group) controllers over the `group` and `member` tables:
    create, list, join, detail, update, delete, and exit or kick. */
module Meets {
  import opened Outcomes
  import opened Text
  import SortedIds
  import SlotCodec
  import opened Schedules
  import Sets

  /** `Math.floor(100000 + Math.random() * 900000)` lies in this range. */
  const MinMeetId := 100000
  const MaxMeetId := 999999

  /** A `group` row without its key. */
  datatype Meet = Meet(name: string, date: int, owner: int)

  /** A `member` row; (group_id, user_id) is its primary key. */
  datatype Membership = Membership(groupId: int, userId: int)

  /** The `meet` object the controllers answer with. */
  datatype MeetInfo = MeetInfo(groupId: int, name: string, date: int, owner: int)

  /** One entry of GET /meets. */
  datatype MeetSummary = MeetSummary(info: MeetInfo, memberCount: nat)

  /** One entry of the detail's `member` array, identified by user id. */
  datatype MemberWeek = MemberWeek(userId: int, days: seq<DayBlocks>)

  datatype MeetDetail = MeetDetail(meetId: int, meetName: string, startDate: int, participate: bool, members: seq<MemberWeek>)

  /** How a successful exit/kick is reported. */
  datatype Removal = SelfExit | Kicked

  /** The blocks `scheduleMap.get(userId)?.get(dateStr) ?? new Array(30).fill(0)` gives. */
  function Lookup(scheduleMap: map<ScheduleKey, seq<int>>, user: int, date: int): (blocks: seq<int>)
    ensures ScheduleKey(user, date) in scheduleMap ==> blocks == scheduleMap[ScheduleKey(user, date)]
    ensures ScheduleKey(user, date) !in scheduleMap ==>
      |blocks| == SlotCodec.SlotCount && forall i :: 0 <= i < |blocks| ==> blocks[i] == 0
  {
    var key := ScheduleKey(user, date);
    if key in scheduleMap then scheduleMap[key] else NoBlocks()
  }

  /** `dateStrs.map(...)`: one member's days, looked up in the decoded rows. */
  function DaysOf(scheduleMap: map<ScheduleKey, seq<int>>, user: int, dates: seq<int>): (days: seq<DayBlocks>)
    ensures |days| == |dates|
    ensures forall i :: 0 <= i < |dates| ==> days[i].date == dates[i]
    ensures forall i :: 0 <= i < |dates| && ScheduleKey(user, dates[i]) in scheduleMap ==>
      days[i].blocks == scheduleMap[ScheduleKey(user, dates[i])]
    ensures forall i :: 0 <= i < |dates| && ScheduleKey(user, dates[i]) !in scheduleMap ==>
      days[i].blocks == NoBlocks()
  {
    seq(|dates|, i requires 0 <= i < |dates| => DayBlocks(dates[i], Lookup(scheduleMap, user, dates[i])))
  }

  /** Looking a member's days up in the decoded rows of the range query
      over the members and the seven dates gives the member's seven-day view
      of the whole table. */
  lemma DaysOfWindow(store: Store, users: set<int>, start: int, scheduleMap: map<ScheduleKey, seq<int>>,
                     user: int, dates: seq<int>)
    requires |dates| == 7 && forall k :: 0 <= k < 7 ==> dates[k] == start + k
    requires user in users
    requires scheduleMap.Keys == Rows(store, users, start, start + 6).Keys
    requires forall k :: k in scheduleMap ==> scheduleMap[k] == SlotCodec.Decode(store[k])
    ensures DaysOf(scheduleMap, user, dates) == WeekOf(store, user, start)
  {
    var got := DaysOf(scheduleMap, user, dates);
    var want := WeekOf(store, user, start);
    assert |got| == |want| == 7;
    forall i | 0 <= i < 7
      ensures got[i] == want[i]
    {
      var d := start + i;
      var key := ScheduleKey(user, d);
      assert key in scheduleMap <==> key in Rows(store, users, start, start + 6);
      LookupDay(store, scheduleMap, user, d);
      assert got[i] == DayBlocks(d, Lookup(scheduleMap, user, d));
      assert want[i] == DayBlocks(d, BlocksOn(store, user, d));
    }
  }

  /** One day of `DaysOfWindow`. */
  lemma LookupDay(store: Store, scheduleMap: map<ScheduleKey, seq<int>>, user: int, d: int)
    requires ScheduleKey(user, d) in scheduleMap <==> ScheduleKey(user, d) in store
    requires ScheduleKey(user, d) in scheduleMap ==>
      scheduleMap[ScheduleKey(user, d)] == SlotCodec.Decode(store[ScheduleKey(user, d)])
    ensures Lookup(scheduleMap, user, d) == BlocksOn(store, user, d)
  {
  }

  /** The user ids of the group's member rows. */
  function MembersOf(members: set<Membership>, id: int): set<int>
  {
    set m | m in members && m.groupId == id :: m.userId
  }

  /** The group's member rows, as `member.groupBy` counts them. */
  function MemberRows(members: set<Membership>, id: int): set<Membership>
  {
    set m | m in members && m.groupId == id
  }

  /** Rows of one group differ in their user id, so there are as many user
      ids as rows. */
  lemma {:induction false} DistinctUsers(rows: set<Membership>, id: int)
    requires forall m :: m in rows ==> m.groupId == id
    ensures |set m | m in rows :: m.userId| == |rows|
    decreases rows
  {
    if rows != {} {
      var m := Sets.Pick(rows);
      var rest := rows - {m};
      DistinctUsers(rest, id);
      var users := set x | x in rows :: x.userId;
      var restUsers := set x | x in rest :: x.userId;
      assert users == restUsers + {m.userId};
      assert forall x :: x in rest ==> x.userId != m.userId;
      assert m.userId !in restUsers;
    }
  }

  /** The count GET /meets shows (member rows of the group) is the number of
      members the detail lists. */
  lemma MemberCountIsMembers(members: set<Membership>, id: int)
    ensures |MemberRows(members, id)| == |MembersOf(members, id)|
  {
    DistinctUsers(MemberRows(members, id), id);
    assert MembersOf(members, id) == set m | m in MemberRows(members, id) :: m.userId;
  }

  /** The groups `user` has a member row for. */
  function JoinedIds(groups: map<int, Meet>, members: set<Membership>, user: int): set<int>
  {
    set id | id in groups && Membership(id, user) in members
  }

  function Info(groups: map<int, Meet>, id: int): MeetInfo
    requires id in groups
  {
    MeetInfo(id, groups[id].name, groups[id].date, groups[id].owner)
  }

  function Summary(groups: map<int, Meet>, members: set<Membership>, id: int): MeetSummary
    requires id in groups
  {
    MeetSummary(Info(groups, id), |MemberRows(members, id)|)
  }

  /** getMyMeets: the user's groups, largest id first, each with the
      number of its member rows. */
  function MyMeets(groups: map<int, Meet>, members: set<Membership>, user: int): (r: seq<MeetSummary>)
    ensures |r| == |JoinedIds(groups, members, user)|
    ensures forall i, j :: 0 <= i < j < |r| ==> r[i].info.groupId > r[j].info.groupId
    ensures forall i :: 0 <= i < |r| ==>
      r[i].info.groupId in JoinedIds(groups, members, user) && r[i] == Summary(groups, members, r[i].info.groupId)
  {
    var ids := SortedIds.Descending(JoinedIds(groups, members, user));
    assert forall i :: 0 <= i < |ids| ==> ids[i] in JoinedIds(groups, members, user);
    Summaries(groups, members, ids)
  }

  /** The summaries of the listed groups, in the listed order. */
  function Summaries(groups: map<int, Meet>, members: set<Membership>, ids: seq<int>): (r: seq<MeetSummary>)
    requires forall i :: 0 <= i < |ids| ==> ids[i] in groups
    ensures |r| == |ids|
    ensures forall i :: 0 <= i < |r| ==> r[i].info.groupId == ids[i] && r[i] == Summary(groups, members, ids[i])
  {
    seq(|ids|, i requires 0 <= i < |ids| => Summary(groups, members, ids[i]))
  }

  /** Every group the user has a member row for is in the user's list. */
  lemma MyMeetsComplete(groups: map<int, Meet>, members: set<Membership>, user: int, id: int)
    requires id in JoinedIds(groups, members, user)
    ensures exists i :: 0 <= i < |MyMeets(groups, members, user)| && MyMeets(groups, members, user)[i].info.groupId == id
  {
    var ids := SortedIds.Descending(JoinedIds(groups, members, user));
    var r := MyMeets(groups, members, user);
    assert r == Summaries(groups, members, ids);
    assert id in ids;
    var i :| 0 <= i < |ids| && ids[i] == id;
    assert r[i].info.groupId == id;
  }

  /** A group whose one member row is `user`'s shows up in `user`'s list
      with a member count of 1. */
  lemma SoleMemberListed(groups: map<int, Meet>, members: set<Membership>, id: int, user: int)
    requires id in groups && MemberRows(members, id) == {Membership(id, user)}
    ensures MeetSummary(Info(groups, id), 1) in MyMeets(groups, members, user)
  {
    assert Membership(id, user) in members;
    assert id in JoinedIds(groups, members, user);
    var list := MyMeets(groups, members, user);
    MyMeetsComplete(groups, members, user, id);
    var i :| 0 <= i < |list| && list[i].info.groupId == id;
    assert list[i] == MeetSummary(Info(groups, id), 1);
  }

  /** The invariant every controller keeps: ids in range, every owner a
      member of their own group, and no membership of a group that does not
      exist. */
  ghost predicate Consistent(groups: map<int, Meet>, members: set<Membership>)
  {
    && (forall id :: id in groups ==> MinMeetId <= id <= MaxMeetId)
    && (forall id :: id in groups ==> Membership(id, groups[id].owner) in members)
    && (forall m :: m in members ==> m.groupId in groups)
  }

  /** Under the invariant a group always has its owner among its members,
      so its member list is never empty and the owner sees the group in
      their own list. */
  lemma OwnerIsMember(groups: map<int, Meet>, members: set<Membership>, id: int)
    requires Consistent(groups, members) && id in groups
    ensures groups[id].owner in MembersOf(members, id)
    ensures MembersOf(members, id) != {}
    ensures id in JoinedIds(groups, members, groups[id].owner)
  {
    assert Membership(id, groups[id].owner) in members;
  }

  /** Adding a group under an unused in-range id, together with its owner's
      member row, keeps the invariant. */
  lemma AddGroupConsistent(groups: map<int, Meet>, members: set<Membership>, id: int, meet: Meet)
    requires Consistent(groups, members)
    requires MinMeetId <= id <= MaxMeetId && id !in groups
    ensures Consistent(groups[id := meet], members + {Membership(id, meet.owner)})
  {
    var groups', members' := groups[id := meet], members + {Membership(id, meet.owner)};
    forall g | g in groups' ensures Membership(g, groups'[g].owner) in members' {
      if g != id {
        assert groups'[g] == groups[g];
      }
    }
  }

  /** A group id that no row mentions yet has, after the owner's row is
      added, that row as its only member row, so the new group shows in the
      owner's list with a member count of 1. */
  lemma AddGroupListed(groups: map<int, Meet>, members: set<Membership>, id: int, meet: Meet)
    requires forall m :: m in members ==> m.groupId != id
    ensures MeetSummary(Info(groups[id := meet], id), 1) in
      MyMeets(groups[id := meet], members + {Membership(id, meet.owner)}, meet.owner)
  {
    var members' := members + {Membership(id, meet.owner)};
    assert MemberRows(members', id) == {Membership(id, meet.owner)};
    SoleMemberListed(groups[id := meet], members', id, meet.owner);
  }

  /** The `for (const s of schedules)` loop: every fetched row, decoded,
      under its (user, date) key. */
  method DecodeRows(schedules: Store) returns (scheduleMap: map<ScheduleKey, seq<int>>)
    ensures scheduleMap.Keys == schedules.Keys
    ensures forall k :: k in scheduleMap ==> scheduleMap[k] == SlotCodec.Decode(schedules[k])
  {
    scheduleMap := map[];
    var pending := schedules.Keys;
    while pending != {}
      invariant pending <= schedules.Keys
      invariant scheduleMap.Keys == schedules.Keys - pending
      invariant forall k :: k in scheduleMap ==> scheduleMap[k] == SlotCodec.Decode(schedules[k])
      decreases pending
    {
      ghost var someRow := Sets.Pick(pending);
      var s :| s in pending;
      var blocks := SlotCodec.BinaryToBlocks(schedules[s]);
      scheduleMap := scheduleMap[s := blocks];
      pending := pending - {s};
    }
  }

  class Roster {
    var groups: map<int, Meet>
    var members: set<Membership>

    ghost predicate Valid()
      reads this
    {
      Consistent(groups, members)
    }

    constructor ()
      ensures Valid()
      ensures groups == map[] && members == {}
    {
      groups := map[];
      members := {};
    }

    /** createMeet: validates the name, then the date, then adds the group
        and its owner's membership in one transaction. `today` is the clock's
        day, used when no date is given; `newId` is the id the retry loop
        settles on, in range and unused. */
    method CreateMeet(actor: int, groupName: Option<string>, groupDate: Option<DateText>, today: int, newId: int)
      returns (r: Result<MeetInfo>)
      requires Valid()
      requires MinMeetId <= newId <= MaxMeetId && newId !in groups
      modifies this
      ensures Valid()
      ensures groupName.None? || Trim(groupName.value) == [] ==> r == Err(BlankName)
      ensures groupName.Some? && Trim(groupName.value) != [] && groupDate == Some(Malformed) ==> r == Err(MalformedDate)
      ensures r.Ok? <==> groupName.Some? && Trim(groupName.value) != [] && groupDate != Some(Malformed)
      ensures r.Err? ==> groups == old(groups) && members == old(members)
      ensures r.Ok? ==>
        var date := if groupDate.Some? && groupDate.value.OnDay? then groupDate.value.day else today;
        && r.value == MeetInfo(newId, Trim(groupName.value), date, actor)
        && groups == old(groups)[newId := Meet(Trim(groupName.value), date, actor)]
        && members == old(members) + {Membership(newId, actor)}
      ensures r.Ok? ==> MeetSummary(r.value, 1) in MyMeets(groups, members, actor)
    {
      if groupName.None? || Trim(groupName.value) == [] {
        return Err(BlankName);
      }
      var date := today;
      if groupDate.Some? {
        match groupDate.value
        case EmptyText =>
        case Malformed => return Err(MalformedDate);
        case OnDay(d) => date := d;
      }
      var name := Trim(groupName.value);
      AddGroupConsistent(groups, members, newId, Meet(name, date, actor));
      AddGroupListed(groups, members, newId, Meet(name, date, actor));
      groups := groups[newId := Meet(name, date, actor)];
      members := members + {Membership(newId, actor)};
      r := Ok(MeetInfo(newId, name, date, actor));
    }

    /** joinMeet: 404 for a missing group, 409 for an existing membership,
        otherwise one new member row. */
    method JoinMeet(meetId: int, user: int) returns (r: Result<()>)
      requires Valid()
      modifies this
      ensures Valid()
      ensures meetId !in old(groups) ==> r == Err(MeetNotFound)
      ensures meetId in old(groups) && Membership(meetId, user) in old(members) ==> r == Err(AlreadyMember)
      ensures r.Ok? <==> meetId in old(groups) && Membership(meetId, user) !in old(members)
      ensures r.Err? ==> groups == old(groups) && members == old(members)
      ensures r.Ok? ==> groups == old(groups) && members == old(members) + {Membership(meetId, user)}
      ensures |MemberRows(members, meetId)| == |MemberRows(old(members), meetId)| + (if r.Ok? then 1 else 0)
      ensures meetId in groups ==> meetId in JoinedIds(groups, members, user) && user in MembersOf(members, meetId)
    {
      if meetId !in groups {
        return Err(MeetNotFound);
      }
      var row := Membership(meetId, user);
      if row in members {
        // the insert hits the primary key: Prisma error P2002
        return Err(AlreadyMember);
      }
      ghost var before := MemberRows(members, meetId);
      members := members + {row};
      assert MemberRows(members, meetId) == before + {row};
      return Ok(());
    }

    /** getMeetDetail: the group, whether the requester is a member, and
        every member's seven days from the group's own date (not a Sunday).
        The member list is open to anyone. */
    method GetMeetDetail(meetId: int, requester: int, store: Store) returns (r: Result<MeetDetail>)
      ensures meetId !in groups <==> r == Err(MeetNotFound)
      ensures r.Ok? <==> meetId in groups
      ensures r.Ok? ==>
        var d := r.value;
        var ids := SortedIds.Ascending(MembersOf(members, meetId));
        var start := groups[meetId].date;
        && d.meetId == meetId && d.meetName == groups[meetId].name && d.startDate == start
        && d.participate == (Membership(meetId, requester) in members)
        && |d.members| == |ids|
        && forall j :: 0 <= j < |ids| ==> d.members[j] == MemberWeek(ids[j], WeekOf(store, ids[j], start))
    {
      if meetId !in groups {
        return Err(MeetNotFound);
      }
      var meet := groups[meetId];
      var participate := Membership(meetId, requester) in members;
      var memberUserIds := SortedIds.Ascending(MembersOf(members, meetId));
      // With no members the source answers early with an empty `member`
      // array, which is also what the general case below gives.
      var startDate := meet.date;

      var dates: seq<int> := [];
      for i := 0 to 7
        invariant |dates| == i
        invariant forall k :: 0 <= k < i ==> dates[k] == startDate + k
      {
        dates := dates + [startDate + i];
      }

      // findMany: all members' rows dated within the seven days
      var schedules := Rows(store, MembersOf(members, meetId), startDate, dates[6]);
      var scheduleMap := DecodeRows(schedules);

      var member := seq(|memberUserIds|, j requires 0 <= j < |memberUserIds| =>
        MemberWeek(memberUserIds[j], DaysOf(scheduleMap, memberUserIds[j], dates)));
      forall j | 0 <= j < |memberUserIds|
        ensures member[j] == MemberWeek(memberUserIds[j], WeekOf(store, memberUserIds[j], startDate))
      {
        assert memberUserIds[j] in MembersOf(members, meetId);
        DaysOfWindow(store, MembersOf(members, meetId), startDate, scheduleMap, memberUserIds[j], dates);
      }
      return Ok(MeetDetail(meetId, meet.name, startDate, participate, member));
    }

    /** updateMeet: 404, then 403 for a non-owner, then the supplied fields
        are checked (name before date) and only those are written. The
        owner never changes. */
    method UpdateMeet(meetId: int, actor: int, groupName: Option<string>, groupDate: Option<DateText>)
      returns (r: Result<MeetInfo>)
      requires Valid()
      modifies this
      ensures Valid()
      ensures meetId !in old(groups) ==> r == Err(MeetNotFound)
      ensures meetId in old(groups) && old(groups)[meetId].owner != actor ==> r == Err(NotOwner)
      ensures (meetId in old(groups) && old(groups)[meetId].owner == actor &&
               groupName.Some? && Trim(groupName.value) == []) ==> r == Err(BlankName)
      ensures (meetId in old(groups) && old(groups)[meetId].owner == actor &&
               (groupName.Some? ==> Trim(groupName.value) != []) &&
               groupDate.Some? && !groupDate.value.OnDay?) ==> r == Err(MalformedDate)
      ensures r.Ok? <==>
        && meetId in old(groups) && old(groups)[meetId].owner == actor
        && (groupName.Some? ==> Trim(groupName.value) != [])
        && (groupDate.Some? ==> groupDate.value.OnDay?)
      ensures r.Err? ==> groups == old(groups) && members == old(members)
      ensures r.Ok? ==>
        var was := old(groups)[meetId];
        var now := Meet(if groupName.Some? then Trim(groupName.value) else was.name,
                        if groupDate.Some? then groupDate.value.day else was.date,
                        was.owner);
        && groups == old(groups)[meetId := now] && members == old(members)
        && r.value == MeetInfo(meetId, now.name, now.date, now.owner)
    {
      if meetId !in groups {
        return Err(MeetNotFound);
      }
      var group := groups[meetId];
      if group.owner != actor {
        return Err(NotOwner);
      }
      var name := group.name;
      if groupName.Some? {
        if Trim(groupName.value) == [] {
          return Err(BlankName);
        }
        name := Trim(groupName.value);
      }
      var date := group.date;
      if groupDate.Some? {
        if !groupDate.value.OnDay? {
          return Err(MalformedDate);
        }
        date := groupDate.value.day;
      }
      groups := groups[meetId := Meet(name, date, group.owner)];
      return Ok(MeetInfo(meetId, name, date, group.owner));
    }

    /** deleteMeet: 404, then 403 for a non-owner, then the group's member
        rows and the group row go in one transaction. */
    method DeleteMeet(meetId: int, actor: int) returns (r: Result<()>)
      requires Valid()
      modifies this
      ensures Valid()
      ensures meetId !in old(groups) ==> r == Err(MeetNotFound)
      ensures meetId in old(groups) && old(groups)[meetId].owner != actor ==> r == Err(NotOwner)
      ensures r.Ok? <==> meetId in old(groups) && old(groups)[meetId].owner == actor
      ensures r.Err? ==> groups == old(groups) && members == old(members)
      ensures r.Ok? ==>
        && groups == old(groups) - {meetId}
        && members == set m | m in old(members) && m.groupId != meetId
      ensures r.Ok? ==> MembersOf(members, meetId) == {}
      ensures r.Ok? ==> forall u :: meetId !in JoinedIds(groups, members, u)
    {
      if meetId !in groups {
        return Err(MeetNotFound);
      }
      if groups[meetId].owner != actor {
        return Err(NotOwner);
      }
      members := set m | m in members && m.groupId != meetId;
      groups := groups - {meetId};
      return Ok(());
    }

    /** exitMeetOrKick, with its checks in the source's order: 404 for a
        missing group, 403 unless the actor is the owner or the target, 400
        when the target is the owner, 404 when the target is not a member.
        So a non-owner who targets the owner gets 403, not 400. */
    method ExitOrKick(meetId: int, actor: int, target: int) returns (r: Result<Removal>)
      requires Valid()
      modifies this
      ensures Valid()
      ensures meetId !in old(groups) ==> r == Err(MeetNotFound)
      ensures meetId in old(groups) && actor != old(groups)[meetId].owner && actor != target ==>
        r == Err(NotOwnerNorSelf)
      ensures (meetId in old(groups) && (actor == old(groups)[meetId].owner || actor == target) &&
               target == old(groups)[meetId].owner) ==> r == Err(OwnerIsTarget)
      ensures (meetId in old(groups) && (actor == old(groups)[meetId].owner || actor == target) &&
               target != old(groups)[meetId].owner && Membership(meetId, target) !in old(members)) ==>
        r == Err(MemberNotFound)
      ensures r.Ok? <==>
        && meetId in old(groups)
        && (actor == old(groups)[meetId].owner || actor == target)
        && target != old(groups)[meetId].owner
        && Membership(meetId, target) in old(members)
      ensures r.Err? ==> groups == old(groups) && members == old(members)
      ensures r.Ok? ==>
        && groups == old(groups) && members == old(members) - {Membership(meetId, target)}
        && r.value == if actor == target then SelfExit else Kicked
      ensures r.Ok? ==> target !in MembersOf(members, meetId) && meetId !in JoinedIds(groups, members, target)
    {
      if meetId !in groups {
        return Err(MeetNotFound);
      }
      var group := groups[meetId];
      var isOwner := group.owner == actor;
      var isSelf := actor == target;
      if !isOwner && !isSelf {
        return Err(NotOwnerNorSelf);
      }
      if target == group.owner {
        return Err(OwnerIsTarget);
      }
      var row := Membership(meetId, target);
      if row !in members {
        return Err(MemberNotFound);
      }
      members := members - {row};
      return Ok(if isSelf then SelfExit else Kicked);
    }
  }
}
