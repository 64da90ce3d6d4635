/** The decisions the request handlers of app.py make on their own: the
    ingredient-sum template filter, the validators that guard the target,
    goals and picture writes, the 30-day summary, the gap-filling of the
    7-day series, registration's checks and login. Requests, sessions,
    flashing and templates are left out; each handler is a function from
    its inputs (form fields, the tables, today's day number) to its outcome. */
module App {
  import opened Wrappers
  import opened Seqs
  import opened Numbers
  import opened Schema
  import opened Users
  import opened FoodsRepo
  import opened Foods

  // ---------------- The `sum_values` template filter ----------------

  /** The `TypeError` Python raises when a NULL amount or quantity is multiplied. */
  datatype SumError = NullOperand

  function EntryAmount(e: IngredientEntry, n: Nutrient): Option<real> {
    match n
    case Protein => e.protein
    case Calories => e.calories
  }

  /** Both operands of the filter's product are present. */
  predicate Multipliable(e: IngredientEntry, n: Nutrient) {
    EntryAmount(e, n).Some? && e.quantity.Some?
  }

  /** One item's amount times quantity, a NULL operand counting as 0. */
  function ItemValue(e: IngredientEntry, n: Nutrient): real {
    EntryAmount(e, n).GetOr(0.0) * e.quantity.GetOr(0.0)
  }

  /** The filter's running total, or `None` once an item with a NULL operand
      has been reached. */
  function RawSum(items: seq<IngredientEntry>, n: Nutrient): (r: Option<real>)
    ensures r.None? <==> exists k :: 0 <= k < |items| && !Multipliable(items[k], n)
    ensures r.Some? ==> r.value == SumBy(items, (e: IngredientEntry) => ItemValue(e, n))
  {
    if |items| == 0 then Some(0.0)
    else
      var init := items[..|items| - 1];
      var e := items[|items| - 1];
      assert forall k :: 0 <= k < |init| ==> init[k] == items[k];
      var t := RawSum(init, n);
      if t.Some? && Multipliable(e, n) then Some(t.value + EntryAmount(e, n).value * e.quantity.value) else None
  }

  /** `sum_ingredient_values(items, attribute)`: the sum of amount times
      quantity, rounded to two places. The entries always carry a quantity, so
      the filter's default quantity of 1.0 is not modelled. */
  function SumValues(items: seq<IngredientEntry>, n: Nutrient): (r: Result<real, SumError>)
    ensures r.Failure? <==> exists k :: 0 <= k < |items| && !Multipliable(items[k], n)
    ensures r.Success? ==> r.value == Round2(SumBy(items, (e: IngredientEntry) => ItemValue(e, n)))
    ensures r.Success? ==> r.value * 100.0 == (r.value * 100.0).Floor as real
  {
    match RawSum(items, n)
    case None => Failure(NullOperand)
    case Some(t) => Success(Round2(t))
  }

  // ---------------- Target validators ----------------

  const MaxTarget := 1000000

  /** The form field parsed as an int, present and within 1..1000000. */
  predicate ValidTarget(input: Option<int>) {
    input.Some? && 1 <= input.value <= MaxTarget
  }

  /** `update_protein`: a missing, unparsable or out-of-range target is
      rejected and nothing is written. */
  function UpdateProtein(db: Db, userId: int, input: Option<int>): (db': Db)
    ensures !ValidTarget(input) ==> db' == db
    ensures GetUserById(db', userId).Success? == GetUserById(db, userId).Success?
    ensures ValidTarget(input) && GetUserById(db, userId).Success? ==>
      GetUserById(db', userId).value.proteinTarget == input
    ensures db' == db.(users := db'.users) && |db'.users| == |db.users|
    ensures forall i :: 0 <= i < |db.users| && db.users[i].id != userId ==> db'.users[i] == db.users[i]
    ensures forall i :: 0 <= i < |db.users| ==> db'.users[i].(proteinTarget := db.users[i].proteinTarget) == db.users[i]
    ensures ValidTarget(input) ==> forall i :: 0 <= i < |db.users| && db.users[i].id == userId ==>
      db'.users[i].proteinTarget == input
    ensures ValidTarget(input) ==> db' == UpdateProteinTarget(db, userId, input.value)
  {
    if !ValidTarget(input) then db
    else
      SameIdsSameLookup(db, UpdateProteinTarget(db, userId, input.value), userId);
      assert GetUserById(db, userId).Success? ==>
        GetUserById(UpdateProteinTarget(db, userId, input.value), userId).value.proteinTarget == input by {
        if GetUserById(db, userId).Success? {
          SetProteinThenGet(db, userId, input.value);
        }
      }
      UpdateProteinTarget(db, userId, input.value)
  }

  /** `update_calories`, the same guard on the calorie target. */
  function UpdateCalories(db: Db, userId: int, input: Option<int>): (db': Db)
    ensures !ValidTarget(input) ==> db' == db
    ensures GetUserById(db', userId).Success? == GetUserById(db, userId).Success?
    ensures ValidTarget(input) && GetUserById(db, userId).Success? ==>
      GetUserById(db', userId).value.calorieTarget == input
    ensures db' == db.(users := db'.users) && |db'.users| == |db.users|
    ensures forall i :: 0 <= i < |db.users| && db.users[i].id != userId ==> db'.users[i] == db.users[i]
    ensures forall i :: 0 <= i < |db.users| ==> db'.users[i].(calorieTarget := db.users[i].calorieTarget) == db.users[i]
    ensures ValidTarget(input) ==> forall i :: 0 <= i < |db.users| && db.users[i].id == userId ==>
      db'.users[i].calorieTarget == input
    ensures ValidTarget(input) ==> db' == UpdateCalorieTarget(db, userId, input.value)
  {
    if !ValidTarget(input) then db
    else
      SameIdsSameLookup(db, UpdateCalorieTarget(db, userId, input.value), userId);
      assert GetUserById(db, userId).Success? ==>
        GetUserById(UpdateCalorieTarget(db, userId, input.value), userId).value.calorieTarget == input by {
        if GetUserById(db, userId).Success? {
          SetCalorieThenGet(db, userId, input.value);
        }
      }
      UpdateCalorieTarget(db, userId, input.value)
  }

  // ---------------- Goals ----------------

  /** Python's `str.isspace`: the ASCII controls tab to carriage return, the
      separators 0x1C-0x1F, space, and the Unicode spaces and line breaks. */
  predicate IsSpace(c: char) {
    var n := c as int;
    (9 <= n <= 13) || (28 <= n <= 32) || n == 0x85 || n == 0xA0 || n == 0x1680 ||
    (0x2000 <= n <= 0x200A) || n == 0x2028 || n == 0x2029 || n == 0x202F || n == 0x205F || n == 0x3000
  }

  /** How many whitespace characters `s` starts with. */
  function LeadCount(s: string): (n: nat)
    ensures n <= |s|
    ensures forall k :: 0 <= k < n ==> IsSpace(s[k])
    ensures n < |s| ==> !IsSpace(s[n])
  {
    if |s| > 0 && IsSpace(s[0]) then 1 + LeadCount(s[1..]) else 0
  }

  /** How many whitespace characters `s` ends with. */
  function TrailCount(s: string): (n: nat)
    ensures n <= |s|
    ensures forall k :: |s| - n <= k < |s| ==> IsSpace(s[k])
    ensures n < |s| ==> !IsSpace(s[|s| - 1 - n])
  {
    if |s| > 0 && IsSpace(s[|s| - 1]) then 1 + TrailCount(s[..|s| - 1]) else 0
  }

  /** `r` is the slice of `s` at `a` with only whitespace around it. */
  predicate StrippedAt(s: string, r: string, a: int) {
    && 0 <= a && a + |r| <= |s| && r == s[a..a + |r|]
    && (forall k :: 0 <= k < a ==> IsSpace(s[k]))
    && (forall k :: a + |r| <= k < |s| ==> IsSpace(s[k]))
  }

  /** `str.strip()`: the slice of `s` left after dropping its leading and
      trailing whitespace. */
  function Strip(s: string): (r: string)
    ensures |r| > 0 ==> !IsSpace(r[0]) && !IsSpace(r[|r| - 1])
    ensures exists a :: StrippedAt(s, r, a)
  {
    var a := LeadCount(s);
    var t := s[a..];
    StripShape(s, a, t);
    t[..|t| - TrailCount(t)]
  }

  lemma StripShape(s: string, a: nat, t: string)
    requires a == LeadCount(s) && t == s[a..]
    ensures var r := t[..|t| - TrailCount(t)];
      && (|r| > 0 ==> !IsSpace(r[0]) && !IsSpace(r[|r| - 1]))
      && StrippedAt(s, r, a)
  {
    StripEnds(s, a, t);
    StripSlice(s, a, t);
  }

  lemma StripEnds(s: string, a: nat, t: string)
    requires a == LeadCount(s) && t == s[a..]
    ensures var r := t[..|t| - TrailCount(t)];
      |r| > 0 ==> !IsSpace(r[0]) && !IsSpace(r[|r| - 1])
  {
    var r := t[..|t| - TrailCount(t)];
    if |r| > 0 {
      assert r[0] == s[a];
      assert r[|r| - 1] == t[|t| - 1 - TrailCount(t)];
    }
  }

  lemma StripSlice(s: string, a: nat, t: string)
    requires a == LeadCount(s) && t == s[a..]
    ensures StrippedAt(s, t[..|t| - TrailCount(t)], a)
  {
    var r := t[..|t| - TrailCount(t)];
    assert r == s[a..a + |r|];
    StripTail(s, a, t);
  }

  /** What `Strip` cuts off at the end is whitespace. */
  lemma StripTail(s: string, a: nat, t: string)
    requires a <= |s| && t == s[a..]
    ensures forall k :: a + |t| - TrailCount(t) <= k < |s| ==> IsSpace(s[k])
  {
    var c := a + |t| - TrailCount(t);
    forall k | c <= k < |s| ensures IsSpace(s[k]) {
      assert s[k] == t[k - a];
    }
  }

  const MaxGoalsLength := 1000

  datatype GoalsOutcome = GoalsTooLong | SaveGoals(text: string)

  /** `update_goals`: the stripped text is saved unless it is longer than
      1000 characters. */
  function UpdateGoals(input: string): (r: GoalsOutcome)
    ensures r.GoalsTooLong? <==> |Strip(input)| > MaxGoalsLength
    ensures r.SaveGoals? ==> r.text == Strip(input) && |r.text| <= MaxGoalsLength
  {
    var text := Strip(input);
    if |text| > MaxGoalsLength then GoalsTooLong else SaveGoals(text)
  }

  // ---------------- Profile picture upload ----------------

  const MaxPictureBytes := 100 * 1024

  datatype Upload = Upload(filename: string, image: Bytes)

  datatype UploadOutcome = NoUpload | WrongFileType | FileTooLarge | PictureSaved

  predicate EndsWith(s: string, suffix: string) {
    |suffix| <= |s| && s[|s| - |suffix|..] == suffix
  }

  /** The POST branch of `profile`: a file whose name does not end in ".jpg"
      or whose content exceeds 100 KiB is refused; otherwise it becomes the
      user's picture. */
  function UploadPicture(db: Db, userId: int, upload: Option<Upload>): (r: (UploadOutcome, Db))
    ensures r.0 == PictureSaved <==>
      upload.Some? && EndsWith(upload.value.filename, ".jpg") && |upload.value.image| <= MaxPictureBytes
    ensures r.0 != PictureSaved ==> r.1 == db
    ensures r.1 == db.(users := r.1.users) && |r.1.users| == |db.users|
    ensures forall i :: 0 <= i < |db.users| ==>
      r.1.users[i].(profilePic := db.users[i].profilePic) == db.users[i] &&
      r.1.users[i].profilePic ==
        if r.0 == PictureSaved && db.users[i].id == userId then Some(upload.value.image) else db.users[i].profilePic
    ensures r.0 == PictureSaved ==> r.1 == UpdateProfilePicture(db, userId, upload.value.image)
    ensures r.0 == PictureSaved && GetUserById(db, userId).Success? ==>
      GetProfilePicture(r.1, userId) == Some(upload.value.image)
  {
    match upload
    case None => (NoUpload, db)
    case Some(u) =>
      if !EndsWith(u.filename, ".jpg") then (WrongFileType, db)
      else if |u.image| > MaxPictureBytes then (FileTooLarge, db)
      else
        assert GetUserById(db, userId).Success? ==>
          GetProfilePicture(UpdateProfilePicture(db, userId, u.image), userId) == Some(u.image) by {
          if GetUserById(db, userId).Success? {
            SetPictureThenGet(db, userId, u.image);
          }
        }
        (PictureSaved, UpdateProfilePicture(db, userId, u.image))
  }

  // ---------------- The 30-day summary ----------------

  datatype Summary = Summary(avgCalories: real, avgProtein: real, hitDays: nat, totalDays: nat)

  /** `r["total_protein"] or 0` */
  function ProteinOf(r: DayRow): real { r.totalProtein.GetOr(0.0) }

  /** `r["total_calories"] or 0` */
  function CaloriesOf(r: DayRow): real { r.totalCalories.GetOr(0.0) }

  /** `int(user["protein_target"] or 0)` */
  function TargetOf(t: Option<int>): int { t.GetOr(0) }

  predicate Hit(r: DayRow, target: int) {
    ProteinOf(r) >= target as real
  }

  /** The positions of the rows that meet the protein target. */
  function HitDays(rows: seq<DayRow>, target: int): set<int> {
    set k | 0 <= k < |rows| && Hit(rows[k], target)
  }

  lemma HitDaysSnoc(rows: seq<DayRow>, target: int)
    requires |rows| > 0
    ensures var init := rows[..|rows| - 1];
      && |rows| - 1 !in HitDays(init, target)
      && HitDays(rows, target) ==
         HitDays(init, target) + if Hit(rows[|rows| - 1], target) then {|rows| - 1} else {}
  {
    var init := rows[..|rows| - 1];
    assert forall k :: 0 <= k < |init| ==> init[k] == rows[k];
  }

  /** How many rows meet the protein target. */
  function CountHits(rows: seq<DayRow>, target: int): (c: nat)
    ensures c == |HitDays(rows, target)|
    ensures c <= |rows|
    ensures c == 0 <==> forall k :: 0 <= k < |rows| ==> !Hit(rows[k], target)
    ensures c == |rows| <==> forall k :: 0 <= k < |rows| ==> Hit(rows[k], target)
  {
    if |rows| == 0 then 0
    else
      var init := rows[..|rows| - 1];
      assert forall k :: 0 <= k < |init| ==> init[k] == rows[k];
      HitDaysSnoc(rows, target);
      CountHits(init, target) + if Hit(rows[|rows| - 1], target) then 1 else 0
  }

  /** `avg` is `total / n` to within half a hundredth, and a whole number of
      hundredths. */
  predicate IsMeanOf(avg: real, total: real, n: nat)
    requires n > 0
  {
    total / n as real - 0.005 < avg <= total / n as real + 0.005 && avg * 100.0 == (avg * 100.0).Floor as real
  }

  /** The body of `user_30day_summary` after the lookups: all zeros for no
      rows, otherwise the rounded per-day averages, the number of days at or
      above the target and the number of days. */
  function Summarize(rows: seq<DayRow>, proteinTarget: Option<int>): (s: Summary)
    ensures |rows| == 0 ==> s == Summary(0.0, 0.0, 0, 0)
    ensures s.totalDays == |rows| && s.hitDays <= s.totalDays
    ensures s.hitDays == |HitDays(rows, TargetOf(proteinTarget))|
    ensures |rows| > 0 ==> IsMeanOf(s.avgProtein, SumBy(rows, ProteinOf), |rows|)
    ensures |rows| > 0 ==> IsMeanOf(s.avgCalories, SumBy(rows, CaloriesOf), |rows|)
  {
    if |rows| == 0 then Summary(0.0, 0.0, 0, 0)
    else
      var n := |rows| as real;
      Summary(Round2(SumBy(rows, CaloriesOf) / n), Round2(SumBy(rows, ProteinOf) / n),
              CountHits(rows, TargetOf(proteinTarget)), |rows|)
  }

  /** `user_30day_summary`: a missing user is the lookup's error; otherwise
      the summary of the user's last-30-days statistics. */
  function UserSummary30(db: Db, userId: int, today: int): (r: Result<Summary, LookupError>)
    ensures r.Failure? <==> forall i :: 0 <= i < |db.users| ==> db.users[i].id != userId
    ensures r.Success? ==>
              var stats := NutritionStats(db.eaten, userId, 30, today);
              var target := TargetOf(GetUserById(db, userId).value.proteinTarget);
              && r.value.totalDays == |stats|
              && r.value.hitDays == |HitDays(stats, target)|
              && (|stats| > 0 ==> IsMeanOf(r.value.avgProtein, SumBy(stats, ProteinOf), |stats|))
              && (|stats| > 0 ==> IsMeanOf(r.value.avgCalories, SumBy(stats, CaloriesOf), |stats|))
  {
    match GetUserById(db, userId)
    case Failure(e) => Failure(e)
    case Success(u) => Success(Summarize(NutritionStats(db.eaten, userId, 30, today), u.proteinTarget))
  }

  // ---------------- Filling the 7-day series ----------------

  /** The row shown for a day without statistics. */
  function Placeholder(d: int): DayRow { DayRow(d, Some(0.0), Some(0.0)) }

  /** The index of the last row dated `d`, or -1. */
  function LastDayIndex(rows: seq<DayRow>, d: int): (k: int)
    ensures -1 <= k < |rows|
    ensures k == -1 <==> forall j :: 0 <= j < |rows| ==> rows[j].day != d
    ensures k >= 0 ==> rows[k].day == d && forall j :: k < j < |rows| ==> rows[j].day != d
  {
    if |rows| == 0 then -1
    else if rows[|rows| - 1].day == d then |rows| - 1
    else LastDayIndex(rows[..|rows| - 1], d)
  }

  /** `lookup.get(d, placeholder)` for `lookup = {r["day"]: r for r in rows}`:
      a later row for the same day replaces an earlier one. */
  function Lookup(rows: seq<DayRow>, d: int): (r: DayRow)
    ensures r.day == d
  {
    var k := LastDayIndex(rows, d);
    if k < 0 then Placeholder(d) else rows[k]
  }

  /** The last row dated `d` is the one looked up. */
  lemma LookupLast(rows: seq<DayRow>, d: int, k: int)
    requires 0 <= k < |rows| && rows[k].day == d && LastOfDay(rows, k)
    ensures Lookup(rows, d) == rows[k]
  {
  }

  /** A day without rows looks up the zero placeholder. */
  lemma LookupMissing(rows: seq<DayRow>, d: int)
    requires forall k :: 0 <= k < |rows| ==> rows[k].day != d
    ensures Lookup(rows, d) == Placeholder(d)
  {
  }

  /** No later row has the same day as `rows[k]`. */
  predicate LastOfDay(rows: seq<DayRow>, k: int)
    requires 0 <= k < |rows|
  {
    forall j :: k < j < |rows| ==> rows[j].day != rows[k].day
  }

  function WindowLength(days: int): nat { if days > 0 then days else 0 }

  /** `fill_missing_days(rows, days)`: one row per day from `today - (days - 1)`
      to `today`, the row the input gives for that day when there is one, a
      zero placeholder otherwise. */
  function FillMissingDays(rows: seq<DayRow>, days: int, today: int): (r: seq<DayRow>)
    ensures |r| == WindowLength(days)
    ensures forall i :: 0 <= i < |r| ==> r[i].day == today - (|r| - 1) + i
    ensures forall i :: 0 <= i < |r| ==> r[i] == Lookup(rows, r[i].day)
  {
    var n := WindowLength(days);
    var r := seq(n, i requires 0 <= i < n => Lookup(rows, today - (n - 1) + i));
    assert forall i :: 0 <= i < n ==> r[i] == Lookup(rows, today - (n - 1) + i);
    r
  }

  /** The loop of `fill_missing_days` as written: build the dictionary, then
      walk `i` from `days - 1` down to 0 appending the entry for `today - i`. */
  method FillMissingDaysLoop(rows: seq<DayRow>, days: int, today: int) returns (filled: seq<DayRow>)
    ensures filled == FillMissingDays(rows, days, today)
  {
    var lookup := BuildLookup(rows);
    filled := [];
    var i := days - 1;
    var n := WindowLength(days);
    while i >= 0
      invariant i >= (if days > 0 then -1 else days - 1)
      invariant |filled| == (days - 1) - i
      invariant forall p :: 0 <= p < |filled| ==> filled[p] == Lookup(rows, today - (n - 1) + p)
    {
      filled := filled + [DictGet(lookup, today - i)];
      i := i - 1;
    }
  }

  /** `{r["day"]: r for r in rows}` as a loop over the rows. */
  method BuildLookup(rows: seq<DayRow>) returns (lookup: map<int, DayRow>)
    ensures forall d :: DictGet(lookup, d) == Lookup(rows, d)
  {
    lookup := map[];
    var j := 0;
    while j < |rows|
      invariant 0 <= j <= |rows|
      invariant forall d :: DictGet(lookup, d) == Lookup(rows[..j], d)
    {
      LookupSnoc(rows, j);
      var next := lookup[rows[j].day := rows[j]];
      forall d ensures DictGet(next, d) == Lookup(rows[..j + 1], d) {
        assert DictGet(lookup, d) == Lookup(rows[..j], d);
      }
      lookup := next;
      j := j + 1;
    }
    assert rows[..j] == rows;
  }

  /** `lookup.get(d, placeholder)` on the dictionary itself. */
  function DictGet(lookup: map<int, DayRow>, d: int): DayRow {
    if d in lookup then lookup[d] else Placeholder(d)
  }

  /** One more row in the dictionary comprehension overrides its day. */
  lemma LookupSnoc(rows: seq<DayRow>, j: int)
    requires 0 <= j < |rows|
    ensures forall d :: Lookup(rows[..j + 1], d) == if d == rows[j].day then rows[j] else Lookup(rows[..j], d)
  {
    var s := rows[..j + 1];
    assert s[..|s| - 1] == rows[..j];
    forall d ensures Lookup(s, d) == if d == rows[j].day then rows[j] else Lookup(rows[..j], d) {
      var k := LastDayIndex(rows[..j], d);
      if d != rows[j].day {
        assert LastDayIndex(s, d) == k;
        assert k >= 0 ==> s[k] == rows[..j][k];
      }
    }
  }

  /** The series the profile page shows: the 7-day statistics, reversed as
      the handler does, then filled. */
  function Summary7(events: seq<Eaten>, userId: int, today: int): (r: seq<DayRow>)
    ensures |r| == 7
  {
    FillMissingDays(Reverse(NutritionStats(events, userId, 7, today)), 7, today)
  }

  // ---------------- Registration ----------------

  const MaxUsernameLength := 30
  const MinPasswordLength := 6
  const MaxPasswordLength := 50

  datatype RegisterOutcome =
    | MissingField
    | UsernameTooLong
    | PasswordMismatch
    | BadPasswordLength
    | UsernameTaken
    | Registered(userId: int)

  /** Every check `register` makes before creating the account passes. */
  predicate Acceptable(username: string, password1: string, password2: string) {
    && username != [] && password1 != []
    && |username| <= MaxUsernameLength
    && password1 == password2
    && MinPasswordLength <= |password1| <= MaxPasswordLength
  }

  /** `register`: the checks in the handler's order, the first failing one
      deciding the message; `created` is what `create_user` returns once they
      all pass (the insertion itself is outside this model). */
  function Register(username: string, password1: string, password2: string, created: Option<int>): (r: RegisterOutcome)
    ensures r == MissingField <==> username == [] || password1 == []
    ensures r.Registered? <==> Acceptable(username, password1, password2) && created.Some?
    ensures r == UsernameTaken <==> Acceptable(username, password1, password2) && created.None?
    ensures r == UsernameTooLong <==>
              username != [] && password1 != [] && |username| > MaxUsernameLength
    ensures r == PasswordMismatch <==>
              username != [] && password1 != [] && |username| <= MaxUsernameLength && password1 != password2
    ensures r == BadPasswordLength <==>
              && username != [] && password1 != [] && |username| <= MaxUsernameLength
              && password1 == password2 && !(MinPasswordLength <= |password1| <= MaxPasswordLength)
  {
    if username == [] || password1 == [] then MissingField
    else if |username| > MaxUsernameLength then UsernameTooLong
    else if password1 != password2 then PasswordMismatch
    else if |password1| < MinPasswordLength || |password1| > MaxPasswordLength then BadPasswordLength
    else match created
      case None => UsernameTaken
      case Some(id) => Registered(id)
  }

  // ---------------- Login ----------------

  datatype LoginOutcome = LoggedIn(userId: int) | WrongCredentials | Crashed

  /** `login` as written: `get_user_by_username` raises for an unknown name,
      so the handler's `not user` test never sees a missing user and the
      request fails with an exception. `checkHash(hash, password)` is
      `check_password_hash`. */
  function LoginAsWritten(db: Db, username: string, password: string,
                          checkHash: (string, string) -> bool): (r: LoginOutcome)
    ensures r == Crashed <==> forall i :: 0 <= i < |db.users| ==> db.users[i].username != Strip(username)
  {
    match GetUserByUsername(db, Strip(username))
    case Failure(_) => Crashed
    case Success(u) => if !checkHash(u.passwordHash, password) then WrongCredentials else LoggedIn(u.id)
  }

  /** `login` as intended: an unknown name is reported like a wrong password. */
  function Login(db: Db, username: string, password: string,
                 checkHash: (string, string) -> bool): (r: LoginOutcome)
    ensures r != Crashed
    ensures r.LoggedIn? <==>
              GetUserByUsername(db, Strip(username)).Success? &&
              checkHash(GetUserByUsername(db, Strip(username)).value.passwordHash, password)
    ensures r.LoggedIn? ==>
              exists i :: 0 <= i < |db.users| && db.users[i].id == r.userId && db.users[i].username == Strip(username)
  {
    match GetUserByUsername(db, Strip(username))
    case Failure(_) => WrongCredentials
    case Success(u) => if !checkHash(u.passwordHash, password) then WrongCredentials else LoggedIn(u.id)
  }
}

module AppFacts {
  import opened Wrappers
  import opened Seqs
  import opened Numbers
  import opened Schema
  import opened Users
  import opened FoodsRepo
  import opened Foods
  import opened App

  // ---------------- The filter agrees with the stored totals ----------------

  /** The ingredient entries the catalogue page shows for one food's join rows. */
  function EntriesOf(f: Food, ps: seq<JoinPair>): (r: seq<IngredientEntry>)
    ensures |r| == |ps|
    ensures forall k :: 0 <= k < |ps| ==> r[k] == EntryOf(RowOf(f, ps[k]))
  {
    seq(|ps|, k requires 0 <= k < |ps| => EntryOf(RowOf(f, ps[k])))
  }

  predicate NoNulls(ps: seq<JoinPair>, n: Nutrient) {
    forall k :: 0 <= k < |ps| ==> Amount(ps[k].ing, n).Some? && ps[k].link.quantity.Some?
  }

  lemma PairSumSnoc(ps: seq<JoinPair>, n: Nutrient)
    requires |ps| > 0
    ensures PairSum(ps, n) == PairSum(ps[..|ps| - 1], n) + PairValue(n, ps[|ps| - 1])
  {
  }

  lemma RawSumSnoc(items: seq<IngredientEntry>, n: Nutrient)
    requires |items| > 0 && Multipliable(items[|items| - 1], n)
    requires RawSum(items[..|items| - 1], n).Some?
    ensures RawSum(items, n).Some?
    ensures RawSum(items, n).value ==
      RawSum(items[..|items| - 1], n).value + EntryAmount(items[|items| - 1], n).value * items[|items| - 1].quantity.value
  {
  }

  /** Without NULLs the filter's running total is the join's sum. */
  lemma {:induction false} RawSumOfEntries(f: Food, ps: seq<JoinPair>, n: Nutrient)
    requires NoNulls(ps, n)
    ensures RawSum(EntriesOf(f, ps), n) == Some(PairSum(ps, n))
  {
    if |ps| > 0 {
      var init := ps[..|ps| - 1];
      var p := ps[|ps| - 1];
      var es := EntriesOf(f, ps);
      assert es[..|es| - 1] == EntriesOf(f, init);
      assert forall k :: 0 <= k < |init| ==> init[k] == ps[k];
      RawSumOfEntries(f, init, n);
      assert EntryAmount(es[|es| - 1], n) == Amount(p.ing, n) && es[|es| - 1].quantity == p.link.quantity;
      assert Multipliable(es[|es| - 1], n);
      assert RawSum(es[..|es| - 1], n).Some?;
      RawSumSnoc(es, n);
      PairSumSnoc(ps, n);
      assert RawSum(es, n).value == PairSum(ps, n);
    } else {
      assert EntriesOf(f, ps) == [];
    }
  }

  /** The sum the catalogue page prints for a food's ingredient list is the
      total `update_food_totals` stores for it, whenever no amount or
      quantity is NULL. */
  lemma SumValuesMatchesStoredTotals(db: Db, f: Food, n: Nutrient)
    requires NoNulls(FoodJoin(db.links, db.ingredients, f.id), n)
    ensures SumValues(EntriesOf(f, FoodJoin(db.links, db.ingredients, f.id)), n) ==
            Success(Round2(NutrientSum(db, f.id, n)))
    ensures forall k :: 0 <= k < |db.foods| && db.foods[k].id == f.id ==>
      (if n == Protein then UpdateFoodTotals(db, f.id).foods[k].totalProtein
       else UpdateFoodTotals(db, f.id).foods[k].totalCalories) ==
      Some(SumValues(EntriesOf(f, FoodJoin(db.links, db.ingredients, f.id)), n).value)
  {
    RawSumOfEntries(f, FoodJoin(db.links, db.ingredients, f.id), n);
  }

  /** A NULL amount anywhere makes the filter fail, wherever it sits. */
  lemma SumValuesNullFails(items: seq<IngredientEntry>, k: int, n: Nutrient)
    requires 0 <= k < |items| && EntryAmount(items[k], n).None?
    ensures SumValues(items, n) == Failure(NullOperand)
  {
  }

  // ---------------- Targets stay in range ----------------

  predicate InRange(t: Option<int>) { t.None? || ValidTarget(t) }

  predicate TargetsInRange(db: Db) {
    forall i :: 0 <= i < |db.users| ==> InRange(db.users[i].proteinTarget) && InRange(db.users[i].calorieTarget)
  }

  /** `update_protein` never stores a target outside 1..1000000. */
  lemma ProteinTargetsStayInRange(db: Db, userId: int, input: Option<int>)
    requires TargetsInRange(db)
    ensures TargetsInRange(UpdateProtein(db, userId, input))
  {
    if ValidTarget(input) {
      var p := UpdateProteinTarget(db, userId, input.value);
      forall i | 0 <= i < |p.users| ensures InRange(p.users[i].proteinTarget) {
        assert p.users[i].proteinTarget == if db.users[i].id == userId then input else db.users[i].proteinTarget;
      }
    }
  }

  /** `update_calories` never stores a target outside 1..1000000. */
  lemma CalorieTargetsStayInRange(db: Db, userId: int, input: Option<int>)
    requires TargetsInRange(db)
    ensures TargetsInRange(UpdateCalories(db, userId, input))
  {
    if ValidTarget(input) {
      var c := UpdateCalorieTarget(db, userId, input.value);
      forall i | 0 <= i < |c.users| ensures InRange(c.users[i].calorieTarget) {
        assert c.users[i].calorieTarget == if db.users[i].id == userId then input else db.users[i].calorieTarget;
      }
    }
  }

  // ---------------- Goals ----------------

  /** Stripping what is already stripped changes nothing. */
  lemma StripIdempotent(s: string)
    ensures Strip(Strip(s)) == Strip(s)
  {
    var r := Strip(s);
    assert LeadCount(r) == 0;
    assert r[0..] == r;
    assert TrailCount(r) == 0;
  }

  /** A form of nothing but whitespace saves empty goals. */
  lemma BlankGoalsSaveEmpty(s: string)
    requires forall k :: 0 <= k < |s| ==> IsSpace(s[k])
    ensures UpdateGoals(s) == SaveGoals([])
  {
    var r := Strip(s);
    var a :| StrippedAt(s, r, a);
  }

  /** Submitting the saved goals again saves the same text. */
  lemma GoalsResubmit(s: string)
    requires UpdateGoals(s).SaveGoals?
    ensures UpdateGoals(UpdateGoals(s).text) == UpdateGoals(s)
  {
    StripIdempotent(s);
  }

  // ---------------- The 30-day summary ----------------

  lemma {:induction false} CountHitsAppend(a: seq<DayRow>, b: seq<DayRow>, target: int)
    ensures CountHits(a + b, target) == CountHits(a, target) + CountHits(b, target)
    decreases |b|
  {
    if |b| == 0 {
      assert a + b == a;
    } else {
      var b' := b[..|b| - 1];
      assert (a + b)[..|a + b| - 1] == a + b';
      CountHitsAppend(a, b', target);
    }
  }

  lemma CountHitsRemove(b: seq<DayRow>, j: int, target: int)
    requires 0 <= j < |b|
    ensures CountHits(b, target) == CountHits(b[..j] + b[j + 1..], target) + if Hit(b[j], target) then 1 else 0
  {
    assert b == (b[..j] + [b[j]]) + b[j + 1..];
    CountHitsSplice(b[..j], b[j], b[j + 1..], target);
  }

  lemma CountHitsSplice(pre: seq<DayRow>, x: DayRow, post: seq<DayRow>, target: int)
    ensures CountHits((pre + [x]) + post, target) == CountHits(pre + post, target) + if Hit(x, target) then 1 else 0
  {
    CountHitsAppend(pre + [x], post, target);
    CountHitsAppend(pre, [x], target);
    CountHitsAppend(pre, post, target);
    assert [x][..0] == [];
  }

  /** The hit count does not depend on the order of the rows. */
  lemma {:induction false} CountHitsPermutation(a: seq<DayRow>, b: seq<DayRow>, target: int)
    requires multiset(a) == multiset(b)
    ensures CountHits(a, target) == CountHits(b, target)
    decreases |a|
  {
    if |a| == 0 {
      assert |b| == |multiset(b)| == 0;
    } else {
      var x := a[|a| - 1];
      assert x in multiset(b);
      var j :| 0 <= j < |b| && b[j] == x;
      MultisetCancel(a, b, j);
      CountHitsPermutation(a[..|a| - 1], b[..j] + b[j + 1..], target);
      CountHitsRemove(b, j, target);
    }
  }

  /** The summary depends on the rows, not on their order. */
  lemma SummarizeOrderFree(a: seq<DayRow>, b: seq<DayRow>, proteinTarget: Option<int>)
    requires multiset(a) == multiset(b)
    ensures Summarize(a, proteinTarget) == Summarize(b, proteinTarget)
  {
    assert |a| == |multiset(a)| == |multiset(b)| == |b|;
    SumByPermutation(a, b, ProteinOf);
    SumByPermutation(a, b, CaloriesOf);
    CountHitsPermutation(a, b, TargetOf(proteinTarget));
  }

  /** Raising the target never adds hit days. */
  lemma {:induction false} HitsAntitone(rows: seq<DayRow>, low: int, high: int)
    requires low <= high
    ensures CountHits(rows, high) <= CountHits(rows, low)
  {
    if |rows| > 0 {
      HitsAntitone(rows[..|rows| - 1], low, high);
    }
  }

  /** A user without a target (NULL or 0) hits every day with non-negative protein. */
  lemma NoTargetEveryDayHits(rows: seq<DayRow>, proteinTarget: Option<int>)
    requires proteinTarget == None || proteinTarget == Some(0)
    requires forall k :: 0 <= k < |rows| ==> ProteinOf(rows[k]) >= 0.0
    ensures Summarize(rows, proteinTarget).hitDays == |rows|
  {
  }

  lemma DivideBetween(total: real, n: real, lo: real, hi: real)
    requires n > 0.0 && n * lo <= total <= n * hi
    ensures lo <= total / n <= hi
  {
    var q := total / n;
    assert q * n == total;
  }

  lemma AverageWithin(rows: seq<DayRow>, f: DayRow -> real, lo: real, hi: real)
    requires |rows| > 0
    requires forall k :: 0 <= k < |rows| ==> lo <= f(rows[k]) <= hi
    ensures lo - 0.005 < Round2(SumBy(rows, f) / |rows| as real) <= hi + 0.005
  {
    var n := |rows| as real;
    var total := SumBy(rows, f);
    SumByBounds(rows, f, lo, hi);
    DivideBetween(total, n, lo, hi);
  }

  /** The averages lie within the range of the daily values, up to rounding. */
  lemma AveragesWithinDailyRange(rows: seq<DayRow>, proteinTarget: Option<int>,
                                 pLo: real, pHi: real, cLo: real, cHi: real)
    requires |rows| > 0
    requires forall k :: 0 <= k < |rows| ==> pLo <= ProteinOf(rows[k]) <= pHi
    requires forall k :: 0 <= k < |rows| ==> cLo <= CaloriesOf(rows[k]) <= cHi
    ensures pLo - 0.005 < Summarize(rows, proteinTarget).avgProtein <= pHi + 0.005
    ensures cLo - 0.005 < Summarize(rows, proteinTarget).avgCalories <= cHi + 0.005
  {
    AverageWithin(rows, ProteinOf, pLo, pHi);
    AverageWithin(rows, CaloriesOf, cLo, cHi);
  }

  /** Two days against a target of 150: 160 g counts, 100 g does not. */
  lemma SummaryScenario()
    ensures Summarize([DayRow(1, Some(160.0), Some(2000.0)), DayRow(2, Some(100.0), None)], Some(150))
         == Summary(1000.0, 130.0, 1, 2)
  {
    var rows := [DayRow(1, Some(160.0), Some(2000.0)), DayRow(2, Some(100.0), None)];
    assert rows[..1] == [rows[0]];
    assert SumBy(rows, ProteinOf) == 260.0;
    assert SumBy(rows, CaloriesOf) == 2000.0;
    assert CountHits(rows, 150) == 1;
    Round2Hundredths(13000);
    Round2Hundredths(100000);
  }

  // ---------------- Filling the 7-day series ----------------

  predicate DistinctDays(rows: seq<DayRow>) {
    forall i, j :: 0 <= i < j < |rows| ==> rows[i].day != rows[j].day
  }

  /** With one row per day, the row a day looks up is the same whichever
      order the rows come in. */
  lemma LookupOrderFree(a: seq<DayRow>, b: seq<DayRow>, d: int)
    requires DistinctDays(a) && DistinctDays(b)
    requires forall x :: x in a <==> x in b
    ensures Lookup(a, d) == Lookup(b, d)
  {
    var ka, kb := LastDayIndex(a, d), LastDayIndex(b, d);
    assert kb >= 0 ==> ka >= 0 by {
      if kb >= 0 {
        assert b[kb] in a;
      }
    }
    if ka >= 0 {
      assert a[ka] in b;
      var j :| 0 <= j < |b| && b[j] == a[ka];
      assert kb >= 0;
      assert b[kb] in a;
      var j' :| 0 <= j' < |a| && a[j'] == b[kb];
      assert j' == ka;
    }
  }

  /** Gap filling depends only on which rows there are, when no two share a day. */
  lemma FillIgnoresRowOrder(a: seq<DayRow>, b: seq<DayRow>, days: int, today: int)
    requires DistinctDays(a) && DistinctDays(b)
    requires forall x :: x in a <==> x in b
    ensures FillMissingDays(a, days, today) == FillMissingDays(b, days, today)
  {
    var ra, rb := FillMissingDays(a, days, today), FillMissingDays(b, days, today);
    var n := WindowLength(days);
    forall i | 0 <= i < n
      ensures ra[i] == rb[i]
    {
      LookupOrderFree(a, b, today - (n - 1) + i);
    }
  }

  /** Reversing the statistics before filling them, as the profile page
      does, makes no difference. */
  lemma Summary7IgnoresReversal(events: seq<Eaten>, userId: int, today: int)
    ensures Summary7(events, userId, today) == FillMissingDays(NutritionStats(events, userId, 7, today), 7, today)
  {
    var s := NutritionStats(events, userId, 7, today);
    var r := Reverse(s);
    assert DistinctDays(r) by {
      forall i, j | 0 <= i < j < |r| ensures r[i].day != r[j].day {
        assert r[i] == s[|s| - 1 - i] && r[j] == s[|s| - 1 - j];
      }
    }
    FillIgnoresRowOrder(r, s, 7, today);
  }

  /** Within the statistics window, a day the user ate on has its group row. */
  lemma StatsRowOn(events: seq<Eaten>, userId: int, days: nat, today: int, d: int)
    requires today - days <= d && HasEventOn(events, userId, d)
    ensures Lookup(NutritionStats(events, userId, days, today), d) == RowFor(events, userId, d)
  {
    var s := NutritionStats(events, userId, days, today);
    var k :| 0 <= k < |events| && EatenBy(events[k], userId, d);
    assert DayOf(events[k].time) == d;
    var j :| 0 <= j < |s| && s[j].day == d;
    assert LastOfDay(s, j);
    LookupLast(s, d, j);
  }

  /** A day the user did not eat on has no statistics row. */
  lemma StatsNoRowOn(events: seq<Eaten>, userId: int, days: nat, today: int, d: int)
    requires !HasEventOn(events, userId, d)
    ensures Lookup(NutritionStats(events, userId, days, today), d) == Placeholder(d)
  {
    LookupMissing(NutritionStats(events, userId, days, today), d);
  }

  lemma Summary7At(events: seq<Eaten>, userId: int, today: int, i: int)
    requires 0 <= i < 7
    ensures Summary7(events, userId, today)[i] == Lookup(NutritionStats(events, userId, 7, today), today - 6 + i)
  {
    Summary7IgnoresReversal(events, userId, today);
  }

  /** Each of the seven days shows the day's group totals when the user ate
      that day, and zeros otherwise. */
  lemma Summary7Rows(events: seq<Eaten>, userId: int, today: int, i: int)
    requires 0 <= i < 7
    ensures Summary7(events, userId, today)[i].day == today - 6 + i
    ensures HasEventOn(events, userId, today - 6 + i) ==>
      Summary7(events, userId, today)[i] == RowFor(events, userId, today - 6 + i)
    ensures !HasEventOn(events, userId, today - 6 + i) ==>
      Summary7(events, userId, today)[i] == Placeholder(today - 6 + i)
  {
    Summary7At(events, userId, today, i);
    var d := today - 6 + i;
    if HasEventOn(events, userId, d) {
      StatsRowOn(events, userId, 7, today, d);
    } else {
      StatsNoRowOn(events, userId, 7, today, d);
    }
  }

  /** Rows dated outside the window never reach the output. */
  lemma FillDropsOutsideRows(rows: seq<DayRow>, days: int, today: int, x: DayRow)
    requires x.day > today || x.day <= today - WindowLength(days)
    ensures x !in FillMissingDays(rows, days, today)
  {
  }

  // ---------------- Registration ----------------

  /** `create_user` is consulted only once every check has passed. */
  lemma RegisterChecksBeforeCreating(username: string, p1: string, p2: string, c1: Option<int>, c2: Option<int>)
    requires !Acceptable(username, p1, p2)
    ensures Register(username, p1, p2, c1) == Register(username, p1, p2, c2)
    ensures !Register(username, p1, p2, c1).Registered? && Register(username, p1, p2, c1) != UsernameTaken
  {
  }

  // ---------------- Login ----------------

  /** The handler as written fails with an exception on an empty user table,
      whatever is typed. */
  lemma LoginAsWrittenCrashes(username: string, password: string, checkHash: (string, string) -> bool)
    ensures LoginAsWritten(Db([], [], [], [], [], []), username, password, checkHash) == Crashed
  {
  }

  /** The corrected handler differs from the written one exactly where the
      written one crashes, and answers "wrong credentials" there. */
  lemma LoginCorrectionIsLocal(db: Db, username: string, password: string, checkHash: (string, string) -> bool)
    ensures LoginAsWritten(db, username, password, checkHash) != Crashed ==>
      Login(db, username, password, checkHash) == LoginAsWritten(db, username, password, checkHash)
    ensures LoginAsWritten(db, username, password, checkHash) == Crashed ==>
      Login(db, username, password, checkHash) == WrongCredentials
  {
  }
}
