/** The `schedule` table read by both controllers, and the seven-day view
    they build from it. The table is keyed by (user_id, date), one row per
    user per day, holding the packed `block_data`. Nothing in the modelled
    code writes it. */
module Schedules {
  import SlotCodec

  datatype ScheduleKey = ScheduleKey(userId: int, date: int)

  type Store = map<ScheduleKey, seq<bv8>>

  /** One entry of a `days` array: the day and its 30 blocks. */
  datatype DayBlocks = DayBlocks(date: int, blocks: seq<int>)

  /** `new Array(30).fill(0)`: a day with no stored row. */
  function NoBlocks(): (z: seq<int>)
    ensures |z| == SlotCodec.SlotCount && forall i :: 0 <= i < |z| ==> z[i] == 0
  {
    seq(SlotCodec.SlotCount, _ => 0)
  }

  /** The rows `findMany` returns for users in `users` and dates in
      `[start, end]`. */
  function Rows(store: Store, users: set<int>, start: int, end: int): (rows: Store)
    ensures forall k :: k in rows <==> k in store && k.userId in users && start <= k.date <= end
    ensures forall k :: k in rows ==> rows[k] == store[k]
  {
    map k | k in store && k.userId in users && start <= k.date <= end :: store[k]
  }

  /** The blocks shown for `user` on `date`: the decoded row, or all zeros. */
  function BlocksOn(store: Store, user: int, date: int): (blocks: seq<int>)
    ensures |blocks| == SlotCodec.SlotCount
  {
    var key := ScheduleKey(user, date);
    if key in store then SlotCodec.Decode(store[key]) else NoBlocks()
  }

  /** Seven consecutive days from `start`, each with the user's blocks. */
  function WeekOf(store: Store, user: int, start: int): (week: seq<DayBlocks>)
    ensures |week| == 7
    ensures forall i :: 0 <= i < 7 ==> week[i].date == start + i && |week[i].blocks| == SlotCodec.SlotCount
  {
    var week := seq(7, i => DayBlocks(start + i, BlocksOn(store, user, start + i)));
    assert forall i :: 0 <= i < 7 ==> week[i] == DayBlocks(start + i, BlocksOn(store, user, start + i));
    week
  }

  /** The shape every seven-day view has: seven days dated `start` to
      `start + 6` in order, each with 30 blocks in {0, 1} that are the
      decoded row for that day when there is one and all zeros otherwise. */
  lemma WeekOfShape(store: Store, user: int, start: int)
    ensures |WeekOf(store, user, start)| == 7
    ensures forall i :: 0 <= i < 7 ==> WeekOf(store, user, start)[i].date == start + i
    ensures forall i, j :: 0 <= i < j < 7 ==> WeekOf(store, user, start)[i].date < WeekOf(store, user, start)[j].date
    ensures forall i :: 0 <= i < 7 ==>
      var b := WeekOf(store, user, start)[i].blocks;
      |b| == SlotCodec.SlotCount && (forall n :: 0 <= n < |b| ==> b[n] == 0 || b[n] == 1)
    ensures forall i :: 0 <= i < 7 ==>
      var key := ScheduleKey(user, start + i);
      WeekOf(store, user, start)[i].blocks == if key in store then SlotCodec.Decode(store[key]) else NoBlocks()
  {
    var w := WeekOf(store, user, start);
    forall i | 0 <= i < 7
      ensures var b := w[i].blocks; |b| == SlotCodec.SlotCount && (forall n :: 0 <= n < |b| ==> b[n] == 0 || b[n] == 1)
      ensures var key := ScheduleKey(user, start + i);
        w[i].blocks == if key in store then SlotCodec.Decode(store[key]) else NoBlocks()
    {
      var key := ScheduleKey(user, start + i);
      if key in store {
        assert w[i].blocks == SlotCodec.Decode(store[key]);
      } else {
        assert w[i].blocks == NoBlocks();
      }
    }
  }

  /** Only the user's own rows inside the window matter: two tables that
      agree on those give the same view, whatever other users' rows or rows
      outside the window hold. */
  lemma WeekOfLocal(store: Store, other: Store, user: int, start: int)
    requires forall d :: start <= d <= start + 6 ==>
      (ScheduleKey(user, d) in store <==> ScheduleKey(user, d) in other)
    requires forall d :: start <= d <= start + 6 && ScheduleKey(user, d) in store ==>
      store[ScheduleKey(user, d)] == other[ScheduleKey(user, d)]
    ensures WeekOf(store, user, start) == WeekOf(other, user, start)
  {
    forall i | 0 <= i < 7
      ensures WeekOf(store, user, start)[i] == WeekOf(other, user, start)[i]
    {
      var d := start + i;
      assert ScheduleKey(user, d) in store <==> ScheduleKey(user, d) in other;
      assert BlocksOn(store, user, d) == BlocksOn(other, user, d);
    }
  }

  /** The range query loses nothing: the view built from the rows of users
      in `users` dated `[start, start + 6]` is the view of the whole table. */
  lemma RowsSuffice(store: Store, users: set<int>, user: int, start: int)
    requires user in users
    ensures WeekOf(Rows(store, users, start, start + 6), user, start) == WeekOf(store, user, start)
  {
    WeekOfLocal(Rows(store, users, start, start + 6), store, user, start);
  }
}
