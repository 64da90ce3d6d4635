/** The user table accessors (users.py): lookups that raise when the row is
    missing, single-column setters, and the per-day nutrition aggregate. */
module Users {
  import opened Wrappers
  import opened Seqs
  import opened Numbers
  import opened Schema

  /** The `ValueError` the lookups raise when no row matches. */
  datatype LookupError = UserNotFound

  // ---------------- Lookups ----------------

  function GetUserById(db: Db, id: int): (r: Result<User, LookupError>)
    ensures r.Failure? <==> forall i :: 0 <= i < |db.users| ==> db.users[i].id != id
    ensures r.Success? ==> exists i :: 0 <= i < |db.users| && db.users[i] == r.value && r.value.id == id
  {
    match FirstWhere(db.users, (u: User) => u.id == id)
    case None => Failure(UserNotFound)
    case Some(u) => Success(u)
  }

  function GetUserByUsername(db: Db, username: string): (r: Result<User, LookupError>)
    ensures r.Failure? <==> forall i :: 0 <= i < |db.users| ==> db.users[i].username != username
    ensures r.Success? ==> exists i :: 0 <= i < |db.users| && db.users[i] == r.value && r.value.username == username
  {
    match FirstWhere(db.users, (u: User) => u.username == username)
    case None => Failure(UserNotFound)
    case Some(u) => Success(u)
  }

  /** The stored picture; `None` both when the user row is absent and when the
      column is NULL (the program cannot tell the two apart). */
  function GetProfilePicture(db: Db, id: int): (r: Option<Bytes>)
    ensures (forall i :: 0 <= i < |db.users| ==> db.users[i].id != id) ==> r.None?
    ensures GetUserById(db, id).Success? ==> r == GetUserById(db, id).value.profilePic
  {
    match FirstWhere(db.users, (u: User) => u.id == id)
    case None => None
    case Some(u) => u.profilePic
  }

  // ---------------- Setters ----------------

  /** `UPDATE Users SET ... WHERE id = ?`: apply `f` to every row with that id. */
  function UpdateWhereId(users: seq<User>, id: int, f: User -> User): (r: seq<User>)
    ensures |r| == |users|
    ensures forall i :: 0 <= i < |users| && users[i].id != id ==> r[i] == users[i]
    ensures forall i :: 0 <= i < |users| && users[i].id == id ==> r[i] == f(users[i])
  {
    seq(|users|, i requires 0 <= i < |users| => if users[i].id == id then f(users[i]) else users[i])
  }

  function UpdateProteinTarget(db: Db, id: int, target: int): (db': Db)
    ensures db' == db.(users := db'.users)
    ensures |db'.users| == |db.users|
    ensures forall i :: 0 <= i < |db.users| ==>
      db'.users[i].(proteinTarget := db.users[i].proteinTarget) == db.users[i] &&
      db'.users[i].proteinTarget == if db.users[i].id == id then Some(target) else db.users[i].proteinTarget
  {
    db.(users := UpdateWhereId(db.users, id, (u: User) => u.(proteinTarget := Some(target))))
  }

  function UpdateCalorieTarget(db: Db, id: int, target: int): (db': Db)
    ensures db' == db.(users := db'.users)
    ensures |db'.users| == |db.users|
    ensures forall i :: 0 <= i < |db.users| ==>
      db'.users[i].(calorieTarget := db.users[i].calorieTarget) == db.users[i] &&
      db'.users[i].calorieTarget == if db.users[i].id == id then Some(target) else db.users[i].calorieTarget
  {
    db.(users := UpdateWhereId(db.users, id, (u: User) => u.(calorieTarget := Some(target))))
  }

  function UpdateProfilePicture(db: Db, id: int, image: Bytes): (db': Db)
    ensures db' == db.(users := db'.users)
    ensures |db'.users| == |db.users|
    ensures forall i :: 0 <= i < |db.users| ==>
      db'.users[i].(profilePic := db.users[i].profilePic) == db.users[i] &&
      db'.users[i].profilePic == if db.users[i].id == id then Some(image) else db.users[i].profilePic
  {
    db.(users := UpdateWhereId(db.users, id, (u: User) => u.(profilePic := Some(image))))
  }

  /** A setter that keeps every row's id keeps the row `GetUserById` finds. */
  lemma SameIdsSameLookup(db: Db, db': Db, id: int)
    requires |db'.users| == |db.users|
    requires forall i :: 0 <= i < |db.users| ==> db'.users[i].id == db.users[i].id
    ensures GetUserById(db', id).Success? == GetUserById(db, id).Success?
    ensures GetUserById(db, id).Success? ==>
      exists i :: 0 <= i < |db.users| && GetUserById(db, id).value == db.users[i] &&
                  GetUserById(db', id).value == db'.users[i] && db.users[i].id == id
  {
    var p := (u: User) => u.id == id;
    var i, i' := FirstIndex(db.users, p), FirstIndex(db'.users, p);
    if 0 <= i {
      assert p(db'.users[i]);
      assert i' == i;
    }
  }

  /** After a setter, looking the user up yields the new value. */
  lemma SetProteinThenGet(db: Db, id: int, target: int)
    requires GetUserById(db, id).Success?
    ensures GetUserById(UpdateProteinTarget(db, id, target), id).value.proteinTarget == Some(target)
  {
    SameIdsSameLookup(db, UpdateProteinTarget(db, id, target), id);
  }

  lemma SetCalorieThenGet(db: Db, id: int, target: int)
    requires GetUserById(db, id).Success?
    ensures GetUserById(UpdateCalorieTarget(db, id, target), id).value.calorieTarget == Some(target)
  {
    SameIdsSameLookup(db, UpdateCalorieTarget(db, id, target), id);
  }

  lemma SetPictureThenGet(db: Db, id: int, image: Bytes)
    requires GetUserById(db, id).Success?
    ensures GetProfilePicture(UpdateProfilePicture(db, id, image), id) == Some(image)
  {
    SameIdsSameLookup(db, UpdateProfilePicture(db, id, image), id);
  }

  // ---------------- Per-day aggregate ----------------

  /** Does `userId` have an `Eaten` row dated `day`? */
  predicate HasEventOn(events: seq<Eaten>, userId: int, day: int) {
    exists k :: 0 <= k < |events| && EatenBy(events[k], userId, day)
  }

  /** The rows of one GROUP BY group: the user's events dated `day`. */
  function EventsOn(events: seq<Eaten>, userId: int, day: int): seq<Eaten> {
    Filter(events, (e: Eaten) => EatenBy(e, userId, day))
  }

  lemma NoEventsNoGroup(events: seq<Eaten>, userId: int, day: int)
    ensures !HasEventOn(events, userId, day) ==> EventsOn(events, userId, day) == []
  {
    var es := EventsOn(events, userId, day);
    if |es| > 0 {
      assert es[0] in es;
    }
  }

  /** The group's output row: `ROUND(SUM(...), 2)` of each nutrient. */
  function RowFor(events: seq<Eaten>, userId: int, day: int): DayRow {
    var es := EventsOn(events, userId, day);
    DayRow(day, RoundOpt(SqlSum(ProteinColumn(es))), RoundOpt(SqlSum(CalorieColumn(es))))
  }

  /** A day no earlier than `floor` and no earlier than any event's day. */
  function LastDay(events: seq<Eaten>, floor: int): (m: int)
    ensures m >= floor
    ensures forall k :: 0 <= k < |events| ==> DayOf(events[k].time) <= m
  {
    if |events| == 0 then floor
    else
      var m := LastDay(events[1..], floor);
      assert forall k :: 1 <= k < |events| ==> events[k] == events[1..][k - 1];
      if DayOf(events[0].time) > m then DayOf(events[0].time) else m
  }

  /** One row per day in `from..to` on which the user ate, ascending. */
  function GroupDays(events: seq<Eaten>, userId: int, from: int, to: int): seq<DayRow>
    decreases to - from
  {
    if from > to then []
    else (if HasEventOn(events, userId, from) then [RowFor(events, userId, from)] else [])
         + GroupDays(events, userId, from + 1, to)
  }

  predicate DaysWithin(r: seq<DayRow>, from: int, to: int) {
    forall i :: 0 <= i < |r| ==> from <= r[i].day <= to
  }

  predicate Ascending(r: seq<DayRow>) {
    forall i, j :: 0 <= i < j < |r| ==> r[i].day < r[j].day
  }

  /** Every row is the output row of a non-empty group. */
  predicate RowsAreGroups(r: seq<DayRow>, events: seq<Eaten>, userId: int) {
    forall i :: 0 <= i < |r| ==> HasEventOn(events, userId, r[i].day) && r[i] == RowFor(events, userId, r[i].day)
  }

  /** Every day of `from..to` on which the user ate has a row. */
  predicate CoversEatingDays(r: seq<DayRow>, events: seq<Eaten>, userId: int, from: int, to: int) {
    forall d :: from <= d <= to && HasEventOn(events, userId, d) ==> exists i :: 0 <= i < |r| && r[i].day == d
  }

  /** `r` lists, in ascending order, exactly the days of `from..to` on which
      the user ate, each with its group's totals. */
  predicate DailyRowsOf(r: seq<DayRow>, events: seq<Eaten>, userId: int, from: int, to: int) {
    && DaysWithin(r, from, to)
    && Ascending(r)
    && RowsAreGroups(r, events, userId)
    && CoversEatingDays(r, events, userId, from, to)
  }

  lemma ConsAscending(x: DayRow, rest: seq<DayRow>, to: int)
    requires x.day <= to && DaysWithin(rest, x.day + 1, to) && Ascending(rest)
    ensures DaysWithin([x] + rest, x.day, to) && Ascending([x] + rest)
  {
    var r := [x] + rest;
    assert forall i :: 1 <= i < |r| ==> r[i] == rest[i - 1];
    forall i, j | 0 <= i < j < |r| ensures r[i].day < r[j].day {
      assert r[j] == rest[j - 1];
      if i > 0 {
        assert r[i] == rest[i - 1];
      }
    }
  }

  lemma ConsGroups(x: DayRow, rest: seq<DayRow>, events: seq<Eaten>, userId: int)
    requires HasEventOn(events, userId, x.day) && x == RowFor(events, userId, x.day)
    requires RowsAreGroups(rest, events, userId)
    ensures RowsAreGroups([x] + rest, events, userId)
  {
    var r := [x] + rest;
    assert forall i :: 1 <= i < |r| ==> r[i] == rest[i - 1];
  }

  lemma ConsCovers(x: DayRow, rest: seq<DayRow>, events: seq<Eaten>, userId: int, to: int)
    requires CoversEatingDays(rest, events, userId, x.day + 1, to)
    ensures CoversEatingDays([x] + rest, events, userId, x.day, to)
  {
    var r := [x] + rest;
    forall d | x.day <= d <= to && HasEventOn(events, userId, d)
      ensures exists i :: 0 <= i < |r| && r[i].day == d
    {
      if d == x.day {
        assert r[0].day == d;
      } else {
        var i :| 0 <= i < |rest| && rest[i].day == d;
        assert r[i + 1].day == d;
      }
    }
  }

  /** Prepending the row of an eating day keeps `DailyRowsOf`. */
  lemma ConsDailyRow(rest: seq<DayRow>, events: seq<Eaten>, userId: int, from: int, to: int)
    requires from <= to && HasEventOn(events, userId, from)
    requires DailyRowsOf(rest, events, userId, from + 1, to)
    ensures DailyRowsOf([RowFor(events, userId, from)] + rest, events, userId, from, to)
  {
    var x := RowFor(events, userId, from);
    ConsAscending(x, rest, to);
    ConsGroups(x, rest, events, userId);
    ConsCovers(x, rest, events, userId, to);
  }

  lemma {:induction false} GroupDaysSpec(events: seq<Eaten>, userId: int, from: int, to: int)
    decreases to - from
    ensures DailyRowsOf(GroupDays(events, userId, from, to), events, userId, from, to)
  {
    if from <= to {
      GroupDaysSpec(events, userId, from + 1, to);
      var rest := GroupDays(events, userId, from + 1, to);
      if HasEventOn(events, userId, from) {
        ConsDailyRow(rest, events, userId, from, to);
      } else {
        assert rest == GroupDays(events, userId, from, to);
        forall d | from <= d <= to && HasEventOn(events, userId, d)
          ensures exists i :: 0 <= i < |rest| && rest[i].day == d
        {
          assert d != from;
        }
      }
    }
  }

  /** `user_nutrition_stats`: the user's events dated on or after
      `today - days`, grouped by day, each group's nutrients summed and
      rounded, ordered by day. */
  function NutritionStats(events: seq<Eaten>, userId: int, days: nat, today: int): (r: seq<DayRow>)
    ensures forall i, j :: 0 <= i < j < |r| ==> r[i].day < r[j].day
    ensures forall i :: 0 <= i < |r| ==> today - days <= r[i].day && HasEventOn(events, userId, r[i].day)
    ensures forall i :: 0 <= i < |r| ==>
      var es := EventsOn(events, userId, r[i].day);
      r[i].totalProtein == RoundOpt(SqlSum(ProteinColumn(es))) &&
      r[i].totalCalories == RoundOpt(SqlSum(CalorieColumn(es)))
    ensures forall k :: 0 <= k < |events| && events[k].userId == userId && DayOf(events[k].time) >= today - days ==>
      exists i :: 0 <= i < |r| && r[i].day == DayOf(events[k].time)
  {
    var from := today - days;
    var to := LastDay(events, from);
    var r := GroupDays(events, userId, from, to);
    GroupDaysSpec(events, userId, from, to);
    assert forall k :: 0 <= k < |events| && events[k].userId == userId && DayOf(events[k].time) >= from ==>
      HasEventOn(events, userId, DayOf(events[k].time));
    r
  }
}

module UsersFacts {
  import opened Seqs
  import opened Numbers
  import opened Schema
  import opened Users

  predicate HasDay(r: seq<DayRow>, d: int) {
    exists i :: 0 <= i < |r| && r[i].day == d
  }

  /** Past equal first days, a later day of one series is a later day of the other. */
  lemma TailHasDay(a: seq<DayRow>, b: seq<DayRow>, d: int)
    requires |a| > 0 && |b| > 0 && a[0].day == b[0].day
    requires Ascending(a) && Ascending(b)
    requires forall d :: HasDay(a, d) <==> HasDay(b, d)
    ensures HasDay(a[1..], d) ==> HasDay(b[1..], d)
  {
    if HasDay(a[1..], d) {
      var k :| 0 <= k < |a| - 1 && a[1..][k].day == d;
      assert a[k + 1].day == d && HasDay(b, d);
      var m :| 0 <= m < |b| && b[m].day == d;
      assert m != 0;
      assert b[1..][m - 1].day == d;
    }
  }

  /** Two ascending series with the same days list those days in the same places. */
  lemma {:induction false} AscendingSameDays(a: seq<DayRow>, b: seq<DayRow>)
    requires Ascending(a) && Ascending(b)
    requires forall d :: HasDay(a, d) <==> HasDay(b, d)
    ensures |a| == |b| && forall i :: 0 <= i < |a| ==> a[i].day == b[i].day
    decreases |a|
  {
    assert |a| > 0 ==> HasDay(b, a[0].day) by {
      if |a| > 0 { assert HasDay(a, a[0].day); }
    }
    assert |b| > 0 ==> HasDay(a, b[0].day) by {
      if |b| > 0 { assert HasDay(b, b[0].day); }
    }
    if |a| == 0 || |b| == 0 {
    } else {
      assert HasDay(a, a[0].day) && HasDay(b, b[0].day);
      var j :| 0 <= j < |b| && b[j].day == a[0].day;
      var i :| 0 <= i < |a| && a[i].day == b[0].day;
      assert a[0].day <= a[i].day && b[0].day <= b[j].day;
      var a', b' := a[1..], b[1..];
      forall d ensures HasDay(a', d) <==> HasDay(b', d) {
        TailHasDay(a, b, d);
        TailHasDay(b, a, d);
      }
      AscendingSameDays(a', b');
    }
  }

  /** What `user_nutrition_stats` promises: ascending days from `from` on,
      exactly the days the user ate, each with its group's totals. */
  ghost predicate StatsSpec(r: seq<DayRow>, events: seq<Eaten>, userId: int, from: int) {
    && Ascending(r)
    && (forall i :: 0 <= i < |r| ==> from <= r[i].day && HasEventOn(events, userId, r[i].day) &&
                                     r[i] == RowFor(events, userId, r[i].day))
    && (forall d :: from <= d && HasEventOn(events, userId, d) ==> HasDay(r, d))
  }

  lemma StatsMeetsSpec(events: seq<Eaten>, userId: int, days: nat, today: int)
    ensures StatsSpec(NutritionStats(events, userId, days, today), events, userId, today - days)
  {
    var r := NutritionStats(events, userId, days, today);
    forall d | today - days <= d && HasEventOn(events, userId, d) ensures HasDay(r, d) {
      var k :| 0 <= k < |events| && EatenBy(events[k], userId, d);
      assert exists i :: 0 <= i < |r| && r[i].day == DayOf(events[k].time);
    }
    forall i | 0 <= i < |r| ensures r[i] == RowFor(events, userId, r[i].day) {
      var es := EventsOn(events, userId, r[i].day);
      assert r[i].totalProtein == RoundOpt(SqlSum(ProteinColumn(es)));
    }
  }

  /** The spec determines the query's answer: any series meeting it is the
      result of `NutritionStats`. */
  lemma StatsUnique(r: seq<DayRow>, events: seq<Eaten>, userId: int, days: nat, today: int)
    requires StatsSpec(r, events, userId, today - days)
    ensures r == NutritionStats(events, userId, days, today)
  {
    var s := NutritionStats(events, userId, days, today);
    StatsMeetsSpec(events, userId, days, today);
    forall d ensures HasDay(r, d) <==> HasDay(s, d) {
      if HasDay(r, d) {
        var i :| 0 <= i < |r| && r[i].day == d;
      }
      if HasDay(s, d) {
        var i :| 0 <= i < |s| && s[i].day == d;
      }
    }
    AscendingSameDays(r, s);
    assert forall i :: 0 <= i < |r| ==> r[i] == RowFor(events, userId, r[i].day) == s[i];
  }

  lemma EventsOnSnoc(events: seq<Eaten>, e: Eaten, userId: int, day: int)
    ensures EventsOn(events + [e], userId, day) ==
            EventsOn(events, userId, day) + (if EatenBy(e, userId, day) then [e] else [])
  {
    assert (events + [e])[..|events + [e]| - 1] == events;
  }

  /** Another user's eaten row never changes a user's daily statistics. */
  lemma StatsIgnoreOtherUsers(events: seq<Eaten>, e: Eaten, userId: int, days: nat, today: int)
    requires e.userId != userId
    ensures NutritionStats(events + [e], userId, days, today) == NutritionStats(events, userId, days, today)
  {
    var r := NutritionStats(events, userId, days, today);
    StatsMeetsSpec(events, userId, days, today);
    var events' := events + [e];
    forall d ensures HasEventOn(events', userId, d) == HasEventOn(events, userId, d)
                  && RowFor(events', userId, d) == RowFor(events, userId, d) {
      EventsOnSnoc(events, e, userId, d);
      assert EventsOn(events', userId, d) == EventsOn(events, userId, d);
      if HasEventOn(events', userId, d) {
        var k :| 0 <= k < |events'| && EatenBy(events'[k], userId, d);
        assert k < |events| && events[k] == events'[k];
      }
      if HasEventOn(events, userId, d) {
        var k :| 0 <= k < |events| && EatenBy(events[k], userId, d);
        assert events'[k] == events[k];
      }
    }
    assert StatsSpec(r, events', userId, today - days);
    StatsUnique(r, events', userId, days, today);
  }
}
