/** The ingredient, food, like and eaten-row accessors (foods_repo.py). Every
    SQL statement is a function from the database before to the database
    after; every query is a function of the database. */
module FoodsRepo {
  import opened Wrappers
  import opened Seqs
  import opened Numbers
  import opened Schema
  import opened Users

  // ---------------- Ingredients ----------------

  /** The row an owner-scoped ingredient statement addresses: `id = ? AND user_id = ?`.
      A row whose `user_id` is NULL is never owned. */
  predicate OwnsIngredient(i: Ingredient, userId: int, id: int) {
    i.id == id && i.userId == Some(userId)
  }

  /** `get_user_ingredients`: the caller's ingredient rows, each as often as
      the table holds it, in table order (see `GetUserIngredientsSnoc`). */
  function GetUserIngredients(db: Db, userId: int): (r: seq<Ingredient>)
    ensures forall x :: x in r <==> x in db.ingredients && x.userId == Some(userId)
    ensures forall x :: multiset(r)[x] == if x.userId == Some(userId) then multiset(db.ingredients)[x] else 0
  {
    FilterMultiset(db.ingredients, (i: Ingredient) => i.userId == Some(userId));
    Filter(db.ingredients, (i: Ingredient) => i.userId == Some(userId))
  }

  /** Table order: an empty table lists nothing, and a newly inserted row
      comes last in the listing exactly when the caller owns it. */
  lemma GetUserIngredientsSnoc(db: Db, i: Ingredient, userId: int)
    ensures |db.ingredients| == 0 ==> GetUserIngredients(db, userId) == []
    ensures GetUserIngredients(db.(ingredients := db.ingredients + [i]), userId) ==
            GetUserIngredients(db, userId) + if i.userId == Some(userId) then [i] else []
  {
    FilterSnoc(db.ingredients, i, (x: Ingredient) => x.userId == Some(userId));
  }

  function GetIngredient(db: Db, userId: int, id: int): (r: Option<Ingredient>)
    ensures r.None? <==> forall k :: 0 <= k < |db.ingredients| ==> !OwnsIngredient(db.ingredients[k], userId, id)
    ensures r.Some? ==> r.value in db.ingredients && OwnsIngredient(r.value, userId, id)
  {
    FirstWhere(db.ingredients, (i: Ingredient) => OwnsIngredient(i, userId, id))
  }

  function UpdateIngredient(db: Db, userId: int, id: int, name: string, protein: real, calories: real): (db': Db)
    ensures db' == db.(ingredients := db'.ingredients)
    ensures |db'.ingredients| == |db.ingredients|
    ensures forall k :: 0 <= k < |db.ingredients| && !OwnsIngredient(db.ingredients[k], userId, id) ==>
      db'.ingredients[k] == db.ingredients[k]
    ensures forall k :: 0 <= k < |db.ingredients| && OwnsIngredient(db.ingredients[k], userId, id) ==>
      db'.ingredients[k].id == id && db'.ingredients[k].userId == Some(userId) &&
      db'.ingredients[k].name == name && db'.ingredients[k].protein == Some(protein) &&
      db'.ingredients[k].calories == Some(calories)
  {
    var ings := db.ingredients;
    db.(ingredients := seq(|ings|, k requires 0 <= k < |ings| =>
      if OwnsIngredient(ings[k], userId, id)
      then ings[k].(name := name, protein := Some(protein), calories := Some(calories))
      else ings[k]))
  }

  /** Deletes every link to the ingredient, whoever owns it, then the
      ingredient row if the caller owns it. Food totals are not recomputed. */
  function DeleteIngredient(db: Db, userId: int, id: int): (db': Db)
    ensures db' == db.(links := db'.links, ingredients := db'.ingredients)
    ensures forall l :: l in db'.links <==> l in db.links && l.ingredientId != id
    ensures forall x :: x in db'.ingredients <==> x in db.ingredients && !OwnsIngredient(x, userId, id)
    ensures forall l :: multiset(db'.links)[l] == if l.ingredientId != id then multiset(db.links)[l] else 0
    ensures forall x :: multiset(db'.ingredients)[x] ==
              if !OwnsIngredient(x, userId, id) then multiset(db.ingredients)[x] else 0
  {
    var keepLink := (l: Link) => l.ingredientId != id;
    var keepIngredient := (i: Ingredient) => !OwnsIngredient(i, userId, id);
    FilterMultiset(db.links, keepLink);
    FilterMultiset(db.ingredients, keepIngredient);
    db.(links := Filter(db.links, keepLink), ingredients := Filter(db.ingredients, keepIngredient))
  }

  // ---------------- Foods ----------------

  predicate OwnsFood(f: Food, userId: int, id: int) {
    f.id == id && f.userId == Some(userId)
  }

  function UpdateFood(db: Db, userId: int, id: int, name: string, category: string): (db': Db)
    ensures db' == db.(foods := db'.foods)
    ensures |db'.foods| == |db.foods|
    ensures forall k :: 0 <= k < |db.foods| && !OwnsFood(db.foods[k], userId, id) ==> db'.foods[k] == db.foods[k]
    ensures forall k :: 0 <= k < |db.foods| && OwnsFood(db.foods[k], userId, id) ==>
      db'.foods[k].(name := db.foods[k].name, category := db.foods[k].category) == db.foods[k] &&
      db'.foods[k].name == name && db'.foods[k].category == category
  {
    var fs := db.foods;
    db.(foods := seq(|fs|, k requires 0 <= k < |fs| =>
      if OwnsFood(fs[k], userId, id) then fs[k].(name := name, category := category) else fs[k]))
  }

  /** Deletes every link of the food unconditionally, then the food row if the
      caller owns it. */
  function DeleteFood(db: Db, userId: int, id: int): (db': Db)
    ensures db' == db.(links := db'.links, foods := db'.foods)
    ensures forall l :: l in db'.links <==> l in db.links && l.foodId != id
    ensures forall f :: f in db'.foods <==> f in db.foods && !OwnsFood(f, userId, id)
    ensures forall l :: multiset(db'.links)[l] == if l.foodId != id then multiset(db.links)[l] else 0
    ensures forall f :: multiset(db'.foods)[f] == if !OwnsFood(f, userId, id) then multiset(db.foods)[f] else 0
  {
    var keepLink := (l: Link) => l.foodId != id;
    var keepFood := (f: Food) => !OwnsFood(f, userId, id);
    FilterMultiset(db.links, keepLink);
    FilterMultiset(db.foods, keepFood);
    db.(links := Filter(db.links, keepLink), foods := Filter(db.foods, keepFood))
  }

  function GetFood(db: Db, userId: int, id: int): (r: Option<Food>)
    ensures r.None? <==> forall k :: 0 <= k < |db.foods| ==> !OwnsFood(db.foods[k], userId, id)
    ensures r.Some? ==> r.value in db.foods && OwnsFood(r.value, userId, id)
  {
    FirstWhere(db.foods, (f: Food) => OwnsFood(f, userId, id))
  }

  // ---------------- Food composition ----------------

  function AddFoodIngredient(db: Db, foodId: int, ingredientId: int, quantity: real): (db': Db)
    ensures db' == db.(links := db'.links)
    ensures db'.links == db.links + [Link(foodId, ingredientId, Some(quantity))]
  {
    db.(links := db.links + [Link(foodId, ingredientId, Some(quantity))])
  }

  function DeleteFoodIngredients(db: Db, foodId: int): (db': Db)
    ensures db' == db.(links := db'.links)
    ensures forall l :: l in db'.links <==> l in db.links && l.foodId != foodId
    ensures forall l :: multiset(db'.links)[l] == if l.foodId != foodId then multiset(db.links)[l] else 0
  {
    var keep := (l: Link) => l.foodId != foodId;
    FilterMultiset(db.links, keep);
    db.(links := Filter(db.links, keep))
  }

  /** One row of `FoodIngredients fi JOIN Ingredients i ON fi.ingredient_id = i.id`. */
  datatype JoinPair = JoinPair(link: Link, ing: Ingredient)

  /** The join rows contributed by one link: one per ingredient row with its id. */
  function PairsFor(l: Link, ings: seq<Ingredient>): (r: seq<JoinPair>)
  {
    if |ings| == 0 then []
    else
      var last := ings[|ings| - 1];
      PairsFor(l, ings[..|ings| - 1]) + (if last.id == l.ingredientId then [JoinPair(l, last)] else [])
  }

  /** The join restricted to `fi.food_id = foodId`, link by link. A link whose
      ingredient row is gone contributes nothing (inner join). */
  function FoodJoin(links: seq<Link>, ings: seq<Ingredient>, foodId: int): (r: seq<JoinPair>)
  {
    if |links| == 0 then []
    else
      var last := links[|links| - 1];
      FoodJoin(links[..|links| - 1], ings, foodId) + (if last.foodId == foodId then PairsFor(last, ings) else [])
  }

  /** The two nutrient columns an ingredient carries per unit. */
  datatype Nutrient = Protein | Calories

  function Amount(i: Ingredient, n: Nutrient): Option<real> {
    match n
    case Protein => i.protein
    case Calories => i.calories
  }

  /** `COALESCE(i.<nutrient>, 0) * COALESCE(fi.quantity, 1)` for one join row. */
  function PairValue(n: Nutrient, p: JoinPair): real {
    Amount(p.ing, n).GetOr(0.0) * p.link.quantity.GetOr(1.0)
  }

  /** The sum of `PairValue` over join rows, row by row. */
  function PairSum(rows: seq<JoinPair>, n: Nutrient): real {
    if |rows| == 0 then 0.0 else PairSum(rows[..|rows| - 1], n) + PairValue(n, rows[|rows| - 1])
  }

  /** The generator sums of `update_food_totals`, accumulated row by row. */
  method SumTotals(rows: seq<JoinPair>) returns (protein: real, calories: real)
    ensures protein == PairSum(rows, Protein)
    ensures calories == PairSum(rows, Calories)
  {
    protein, calories := 0.0, 0.0;
    var k := 0;
    while k < |rows|
      invariant 0 <= k <= |rows|
      invariant protein == PairSum(rows[..k], Protein)
      invariant calories == PairSum(rows[..k], Calories)
    {
      assert rows[..k + 1][..k] == rows[..k];
      protein := protein + PairValue(Protein, rows[k]);
      calories := calories + PairValue(Calories, rows[k]);
      k := k + 1;
    }
    assert rows[..k] == rows;
  }

  /** Unrounded total of one nutrient over a food's current links. */
  function NutrientSum(db: Db, foodId: int, n: Nutrient): real {
    PairSum(FoodJoin(db.links, db.ingredients, foodId), n)
  }

  /** `update_food_totals`: recompute the cached totals of the food rows with
      this id from the links; nothing else changes. */
  function UpdateFoodTotals(db: Db, foodId: int): (db': Db)
    ensures db' == db.(foods := db'.foods)
    ensures |db'.foods| == |db.foods|
    ensures forall k :: 0 <= k < |db.foods| && db.foods[k].id != foodId ==> db'.foods[k] == db.foods[k]
    ensures forall k :: 0 <= k < |db.foods| && db.foods[k].id == foodId ==>
      db'.foods[k].(totalProtein := db.foods[k].totalProtein, totalCalories := db.foods[k].totalCalories) == db.foods[k] &&
      db'.foods[k].totalProtein == Some(Round2(NutrientSum(db, foodId, Protein))) &&
      db'.foods[k].totalCalories == Some(Round2(NutrientSum(db, foodId, Calories)))
  {
    var tp := Round2(NutrientSum(db, foodId, Protein));
    var tc := Round2(NutrientSum(db, foodId, Calories));
    var fs := db.foods;
    db.(foods := seq(|fs|, k requires 0 <= k < |fs| =>
      if fs[k].id == foodId then fs[k].(totalProtein := Some(tp), totalCalories := Some(tc)) else fs[k]))
  }

  // ---------------- Likes ----------------

  /** Deletes exactly the (user, food) pair; every other like row stays, as
      many times as it was there. */
  function UnlikeFood(db: Db, userId: int, foodId: int): (db': Db)
    ensures db' == db.(likes := db'.likes)
    ensures Like(userId, foodId) !in db'.likes
    ensures forall x :: x != Like(userId, foodId) ==> multiset(db'.likes)[x] == multiset(db.likes)[x]
  {
    var p := (x: Like) => x != Like(userId, foodId);
    FilterMultiset(db.likes, p);
    db.(likes := Filter(db.likes, p))
  }

  // ---------------- Eaten ----------------

  /** Inserts an eaten row with the given, already computed, nutrient values;
      `now` is the timestamp and `id` the row id the database assigns. */
  function RecordEaten(db: Db, id: int, userId: int, foodId: int, quantity: real,
                       protein: real, calories: real, now: int): (db': Db)
    ensures db' == db.(eaten := db'.eaten)
    ensures db'.eaten == db.eaten + [Eaten(id, userId, foodId, now, quantity, Some(protein), Some(calories))]
  {
    db.(eaten := db.eaten + [Eaten(id, userId, foodId, now, quantity, Some(protein), Some(calories))])
  }

  predicate NewestFirst(s: seq<Eaten>) {
    forall i, j :: 0 <= i < j < |s| ==> s[i].time >= s[j].time
  }

  /** A row no older than the head of a newest-first sequence can go in front. */
  lemma ConsNewestFirst(y: Eaten, t: seq<Eaten>)
    requires NewestFirst(t) && (|t| > 0 ==> t[0].time <= y.time)
    ensures NewestFirst([y] + t)
  {
    var r := [y] + t;
    forall i, j | 0 <= i < j < |r| ensures r[i].time >= r[j].time {
      if i == 0 {
        assert r[j] == t[j - 1];
      } else {
        assert r[i] == t[i - 1] && r[j] == t[j - 1];
      }
    }
  }

  lemma TailNewestFirst(s: seq<Eaten>)
    requires NewestFirst(s) && |s| > 0
    ensures NewestFirst(s[1..])
  {
    forall i, j | 0 <= i < j < |s| - 1 ensures s[1..][i].time >= s[1..][j].time {
      assert s[1..][i] == s[i + 1] && s[1..][j] == s[j + 1];
    }
  }

  /** Inserts `x` into a sequence ordered newest first. */
  function InsertByTime(x: Eaten, s: seq<Eaten>): (r: seq<Eaten>)
    requires NewestFirst(s)
    ensures multiset(r) == multiset(s) + multiset{x}
    ensures NewestFirst(r)
    ensures |r| == |s| + 1 && (r[0] == x || (|s| > 0 && r[0] == s[0]))
  {
    if |s| == 0 then [x]
    else if x.time >= s[0].time then
      ConsNewestFirst(x, s);
      [x] + s
    else
      assert s == [s[0]] + s[1..];
      TailNewestFirst(s);
      var rest := InsertByTime(x, s[1..]);
      ConsNewestFirst(s[0], rest);
      [s[0]] + rest
  }

  /** `ORDER BY time DESC`. */
  function SortByTimeDesc(s: seq<Eaten>): (r: seq<Eaten>)
    ensures multiset(r) == multiset(s)
    ensures NewestFirst(r)
  {
    if |s| == 0 then []
    else
      assert s == [s[0]] + s[1..];
      InsertByTime(s[0], SortByTimeDesc(s[1..]))
  }

  /** A prefix of a newest-first sequence is newest first and holds its newest elements. */
  lemma PrefixIsNewest(sorted: seq<Eaten>, n: nat)
    requires NewestFirst(sorted) && n <= |sorted|
    ensures NewestFirst(sorted[..n])
    ensures forall i :: 0 <= i < n ==> sorted[..n][i] in sorted
    ensures forall e :: e in sorted && e !in sorted[..n] ==>
      forall i :: 0 <= i < n ==> e.time <= sorted[..n][i].time
  {
    var r := sorted[..n];
    assert forall i :: 0 <= i < n ==> r[i] == sorted[i];
    forall e | e in sorted && e !in r
      ensures forall i :: 0 <= i < n ==> e.time <= r[i].time
    {
      var j :| 0 <= j < |sorted| && sorted[j] == e;
      assert j >= n;
    }
  }

  function UserRows(db: Db, userId: int): seq<Eaten> {
    Filter(db.eaten, (e: Eaten) => e.userId == userId)
  }

  /** Sorting the user's rows keeps exactly those rows. */
  lemma SortedUserRows(db: Db, userId: int)
    ensures |SortByTimeDesc(UserRows(db, userId))| == |UserRows(db, userId)|
    ensures forall e :: e in SortByTimeDesc(UserRows(db, userId)) <==> e in db.eaten && e.userId == userId
  {
    var mine := UserRows(db, userId);
    var sorted := SortByTimeDesc(mine);
    assert |sorted| == |multiset(sorted)| == |multiset(mine)| == |mine|;
    forall e ensures e in sorted <==> e in mine {
      assert e in mine <==> e in multiset(mine);
      assert e in sorted <==> e in multiset(sorted);
    }
  }

  /** `get_user_eaten`: the user's rows, newest first, at most `limit` of
      them; a negative LIMIT means no limit in SQLite. */
  function GetUserEaten(db: Db, userId: int, limit: int): (r: seq<Eaten>)
    ensures |r| == (if 0 <= limit < |UserRows(db, userId)| then limit else |UserRows(db, userId)|)
    ensures forall i :: 0 <= i < |r| ==> r[i].userId == userId && r[i] in db.eaten
    ensures NewestFirst(r)
    ensures forall e :: e in db.eaten && e.userId == userId && e !in r ==>
      forall i :: 0 <= i < |r| ==> e.time <= r[i].time
    ensures multiset(r) <= multiset(UserRows(db, userId))
  {
    var sorted := SortByTimeDesc(UserRows(db, userId));
    SortedUserRows(db, userId);
    var n := if 0 <= limit < |sorted| then limit else |sorted|;
    PrefixIsNewest(sorted, n);
    PrefixSubMultiset(sorted, n);
    sorted[..n]
  }

  /** The single row of `get_user_daily_intake`. */
  datatype Intake = Intake(totalProtein: Option<real>, totalCalories: Option<real>)

  /** `get_user_daily_intake`: rounded SQL sums over the user's rows dated today. */
  function GetUserDailyIntake(db: Db, userId: int, today: int): (r: Intake)
    ensures !HasEventOn(db.eaten, userId, today) ==> r.totalProtein.None? && r.totalCalories.None?
    ensures r.totalProtein.Some? ==>
      r.totalProtein.value == Round2(SumBy(ProteinColumn(EventsOn(db.eaten, userId, today)), OrZero))
    ensures r.totalCalories.Some? ==>
      r.totalCalories.value == Round2(SumBy(CalorieColumn(EventsOn(db.eaten, userId, today)), OrZero))
  {
    var es := EventsOn(db.eaten, userId, today);
    NoEventsNoGroup(db.eaten, userId, today);
    Intake(RoundOpt(SqlSum(ProteinColumn(es))), RoundOpt(SqlSum(CalorieColumn(es))))
  }
}

module FoodsRepoFacts {
  import opened Wrappers
  import opened Seqs
  import opened Numbers
  import opened Schema
  import opened Users
  import opened UsersFacts
  import opened FoodsRepo

  /** `Ingredients.id` is the table's primary key. */
  predicate UniqueIngredientIds(ings: seq<Ingredient>) {
    forall j, k :: 0 <= j < k < |ings| ==> ings[j].id != ings[k].id
  }

  /** The per-unit amount of a nutrient in the ingredient with this id; 0
      when there is no such ingredient or the column is NULL; the first row
      with the id counts when ids repeat. */
  function IngredientValue(ings: seq<Ingredient>, id: int, n: Nutrient): real {
    match FirstWhere(ings, (i: Ingredient) => i.id == id)
    case None => 0.0
    case Some(i) => Amount(i, n).GetOr(0.0)
  }

  /** A food's composition total, stated link by link: the sum over the
      food's links of per-unit amount times quantity (NULL quantity counts 1). */
  function CompositionValue(links: seq<Link>, ings: seq<Ingredient>, foodId: int, n: Nutrient): real {
    if |links| == 0 then 0.0
    else
      var l := links[|links| - 1];
      CompositionValue(links[..|links| - 1], ings, foodId, n) +
      (if l.foodId == foodId then IngredientValue(ings, l.ingredientId, n) * l.quantity.GetOr(1.0) else 0.0)
  }

  /** Dropping the last ingredient row keeps ids unique. */
  lemma UniqueInit(ings: seq<Ingredient>)
    requires |ings| > 0 && UniqueIngredientIds(ings)
    ensures UniqueIngredientIds(ings[..|ings| - 1])
    ensures forall k :: 0 <= k < |ings| - 1 ==> ings[k].id != ings[|ings| - 1].id
  {
    assert forall k :: 0 <= k < |ings| - 1 ==> ings[..|ings| - 1][k] == ings[k];
  }

  /** The last ingredient row, when it is the only one with the link's id. */
  lemma LastIngredientValue(l: Link, ings: seq<Ingredient>, n: Nutrient)
    requires |ings| > 0 && ings[|ings| - 1].id == l.ingredientId
    requires forall k :: 0 <= k < |ings| - 1 ==> ings[k].id != l.ingredientId
    ensures IngredientValue(ings[..|ings| - 1], l.ingredientId, n) == 0.0
    ensures IngredientValue(ings, l.ingredientId, n) == Amount(ings[|ings| - 1], n).GetOr(0.0)
  {
    var init := ings[..|ings| - 1];
    assert forall k :: 0 <= k < |init| ==> init[k] == ings[k];
    assert FirstIndex(ings, (i: Ingredient) => i.id == l.ingredientId) == |ings| - 1;
  }

  lemma {:induction false} PairSumAppend(a: seq<JoinPair>, b: seq<JoinPair>, n: Nutrient)
    ensures PairSum(a + b, n) == PairSum(a, n) + PairSum(b, n)
  {
    if |b| > 0 {
      var b' := b[..|b| - 1];
      assert (a + b)[..|a + b| - 1] == a + b';
      assert (a + b)[|a + b| - 1] == b[|b| - 1];
      PairSumAppend(a, b', n);
    } else {
      assert a + b == a;
    }
  }

  /** One inductive step of `LinkJoinValue`: the last row is the link's ingredient. */
  lemma LinkJoinHit(l: Link, ings: seq<Ingredient>, n: Nutrient)
    requires |ings| > 0 && ings[|ings| - 1].id == l.ingredientId
    requires forall k :: 0 <= k < |ings| - 1 ==> ings[k].id != l.ingredientId
    requires PairSum(PairsFor(l, ings[..|ings| - 1]), n) ==
             IngredientValue(ings[..|ings| - 1], l.ingredientId, n) * l.quantity.GetOr(1.0)
    ensures PairSum(PairsFor(l, ings), n) == IngredientValue(ings, l.ingredientId, n) * l.quantity.GetOr(1.0)
  {
    var init, last := ings[..|ings| - 1], ings[|ings| - 1];
    LastIngredientValue(l, ings, n);
    assert PairsFor(l, ings) == PairsFor(l, init) + [JoinPair(l, last)];
    assert (PairsFor(l, init) + [JoinPair(l, last)])[..|PairsFor(l, init)|] == PairsFor(l, init);
  }

  /** One inductive step of `LinkJoinValue`: the last row is another ingredient. */
  lemma LinkJoinMiss(l: Link, ings: seq<Ingredient>, n: Nutrient)
    requires |ings| > 0 && ings[|ings| - 1].id != l.ingredientId
    requires PairSum(PairsFor(l, ings[..|ings| - 1]), n) ==
             IngredientValue(ings[..|ings| - 1], l.ingredientId, n) * l.quantity.GetOr(1.0)
    ensures PairSum(PairsFor(l, ings), n) == IngredientValue(ings, l.ingredientId, n) * l.quantity.GetOr(1.0)
  {
    assert PairsFor(l, ings) == PairsFor(l, ings[..|ings| - 1]);
    IngredientValueSkipsLast(ings, l.ingredientId, n);
  }

  /** A last row with another id does not change the lookup. */
  lemma IngredientValueSkipsLast(ings: seq<Ingredient>, id: int, n: Nutrient)
    requires |ings| > 0 && ings[|ings| - 1].id != id
    ensures IngredientValue(ings, id, n) == IngredientValue(ings[..|ings| - 1], id, n)
  {
    var init := ings[..|ings| - 1];
    var i := FirstIndex(ings, (x: Ingredient) => x.id == id);
    assert i == FirstIndex(init, (x: Ingredient) => x.id == id);
    assert 0 <= i ==> ings[i] == init[i];
  }

  /** One inductive step of `LinkJoinValue`. */
  lemma LinkJoinStep(l: Link, ings: seq<Ingredient>, n: Nutrient)
    requires |ings| > 0 && UniqueIngredientIds(ings)
    requires PairSum(PairsFor(l, ings[..|ings| - 1]), n) ==
             IngredientValue(ings[..|ings| - 1], l.ingredientId, n) * l.quantity.GetOr(1.0)
    ensures PairSum(PairsFor(l, ings), n) == IngredientValue(ings, l.ingredientId, n) * l.quantity.GetOr(1.0)
  {
    if ings[|ings| - 1].id == l.ingredientId {
      UniqueInit(ings);
      LinkJoinHit(l, ings, n);
    } else {
      LinkJoinMiss(l, ings, n);
    }
  }

  /** With unique ingredient ids a link joins with at most one ingredient row. */
  lemma {:induction false} LinkJoinValue(l: Link, ings: seq<Ingredient>, n: Nutrient)
    requires UniqueIngredientIds(ings)
    ensures PairSum(PairsFor(l, ings), n) == IngredientValue(ings, l.ingredientId, n) * l.quantity.GetOr(1.0)
  {
    if |ings| > 0 {
      var init := ings[..|ings| - 1];
      assert UniqueIngredientIds(init) by { UniqueInit(ings); }
      LinkJoinValue(l, init, n);
      LinkJoinStep(l, ings, n);
    }
  }

  /** One inductive step of `TotalsMatchComposition`: the last link belongs to the food. */
  lemma CompositionHit(links: seq<Link>, ings: seq<Ingredient>, foodId: int, n: Nutrient)
    requires |links| > 0 && links[|links| - 1].foodId == foodId && UniqueIngredientIds(ings)
    requires PairSum(FoodJoin(links[..|links| - 1], ings, foodId), n) == CompositionValue(links[..|links| - 1], ings, foodId, n)
    ensures PairSum(FoodJoin(links, ings, foodId), n) == CompositionValue(links, ings, foodId, n)
  {
    var init, l := links[..|links| - 1], links[|links| - 1];
    assert FoodJoin(links, ings, foodId) == FoodJoin(init, ings, foodId) + PairsFor(l, ings);
    PairSumAppend(FoodJoin(init, ings, foodId), PairsFor(l, ings), n);
    LinkJoinValue(l, ings, n);
  }

  /** One inductive step of `TotalsMatchComposition`: the last link belongs to another food. */
  lemma CompositionMiss(links: seq<Link>, ings: seq<Ingredient>, foodId: int, n: Nutrient)
    requires |links| > 0 && links[|links| - 1].foodId != foodId
    requires PairSum(FoodJoin(links[..|links| - 1], ings, foodId), n) == CompositionValue(links[..|links| - 1], ings, foodId, n)
    ensures PairSum(FoodJoin(links, ings, foodId), n) == CompositionValue(links, ings, foodId, n)
  {
    assert FoodJoin(links, ings, foodId) == FoodJoin(links[..|links| - 1], ings, foodId);
  }

  /** The cached totals written by `update_food_totals` are the composition
      totals of the food, when ingredient ids are unique. */
  lemma {:induction false} TotalsMatchComposition(links: seq<Link>, ings: seq<Ingredient>, foodId: int, n: Nutrient)
    requires UniqueIngredientIds(ings)
    ensures PairSum(FoodJoin(links, ings, foodId), n) == CompositionValue(links, ings, foodId, n)
  {
    if |links| > 0 {
      TotalsMatchComposition(links[..|links| - 1], ings, foodId, n);
      if links[|links| - 1].foodId == foodId {
        CompositionHit(links, ings, foodId, n);
      } else {
        CompositionMiss(links, ings, foodId, n);
      }
    }
  }

  /** The composition total grows by the appended link's contribution. */
  lemma CompositionSnoc(links: seq<Link>, l: Link, ings: seq<Ingredient>, foodId: int, n: Nutrient)
    requires l.foodId == foodId
    ensures CompositionValue(links + [l], ings, foodId, n) ==
            CompositionValue(links, ings, foodId, n) + IngredientValue(ings, l.ingredientId, n) * l.quantity.GetOr(1.0)
  {
    assert (links + [l])[..|links|] == links;
  }

  /** The join sum over one more link of the food grows by that link's contribution. */
  lemma JoinSumSnoc(links: seq<Link>, l: Link, ings: seq<Ingredient>, foodId: int, n: Nutrient)
    requires UniqueIngredientIds(ings) && l.foodId == foodId
    ensures PairSum(FoodJoin(links + [l], ings, foodId), n) ==
            PairSum(FoodJoin(links, ings, foodId), n) + IngredientValue(ings, l.ingredientId, n) * l.quantity.GetOr(1.0)
  {
    TotalsMatchComposition(links + [l], ings, foodId, n);
    TotalsMatchComposition(links, ings, foodId, n);
    CompositionSnoc(links, l, ings, foodId, n);
  }

  /** Adding a link and recomputing adds that link's amount times quantity. */
  lemma AddLinkAddsContribution(db: Db, foodId: int, ingredientId: int, quantity: real, n: Nutrient)
    requires UniqueIngredientIds(db.ingredients)
    ensures NutrientSum(AddFoodIngredient(db, foodId, ingredientId, quantity), foodId, n) ==
            NutrientSum(db, foodId, n) + IngredientValue(db.ingredients, ingredientId, n) * quantity
  {
    var l := Link(foodId, ingredientId, Some(quantity));
    JoinSumSnoc(db.links, l, db.ingredients, foodId, n);
  }

  /** Recomputing twice is recomputing once. */
  lemma UpdateFoodTotalsIdempotent(db: Db, foodId: int)
    ensures UpdateFoodTotals(UpdateFoodTotals(db, foodId), foodId) == UpdateFoodTotals(db, foodId)
  {
    var db1 := UpdateFoodTotals(db, foodId);
    var db2 := UpdateFoodTotals(db1, foodId);
    assert NutrientSum(db1, foodId, Protein) == NutrientSum(db, foodId, Protein);
    assert NutrientSum(db1, foodId, Calories) == NutrientSum(db, foodId, Calories);
    assert db2.foods == db1.foods;
  }

  lemma {:induction false} NoLinksNoJoin(links: seq<Link>, ings: seq<Ingredient>, foodId: int)
    requires forall k :: 0 <= k < |links| ==> links[k].foodId != foodId
    ensures FoodJoin(links, ings, foodId) == []
  {
    if |links| > 0 {
      var init := links[..|links| - 1];
      assert forall k :: 0 <= k < |init| ==> init[k] == links[k];
      NoLinksNoJoin(init, ings, foodId);
    }
  }

  /** A food without links gets totals 0, not NULL. */
  lemma NoLinksZeroTotals(db: Db, foodId: int)
    requires forall k :: 0 <= k < |db.links| ==> db.links[k].foodId != foodId
    ensures forall k :: 0 <= k < |db.foods| && db.foods[k].id == foodId ==>
      UpdateFoodTotals(db, foodId).foods[k].totalProtein == Some(0.0) &&
      UpdateFoodTotals(db, foodId).foods[k].totalCalories == Some(0.0)
  {
    NoLinksNoJoin(db.links, db.ingredients, foodId);
    Round2Hundredths(0);
  }

  /** One ingredient (10 protein, 100 calories per unit) used 2.5 times in one food. */
  function OatsDb(): Db {
    Db([], [Ingredient(1, Some(7), "oats", Some(10.0), Some(100.0))],
       [Food(5, Some(7), "porridge", "Breakfast", Some(1), None, None)],
       [Link(5, 1, Some(2.5))], [], [])
  }

  /** A food with a single link to a single ingredient row. */
  lemma OneLinkSum(l: Link, ing: Ingredient, n: Nutrient)
    requires l.ingredientId == ing.id
    ensures PairSum(FoodJoin([l], [ing], l.foodId), n) == Amount(ing, n).GetOr(0.0) * l.quantity.GetOr(1.0)
  {
    assert [l][..0] == [] && [ing][..0] == [];
    assert PairsFor(l, [ing]) == [JoinPair(l, ing)];
    assert FoodJoin([l], [ing], l.foodId) == [JoinPair(l, ing)];
    assert [JoinPair(l, ing)][..0] == [];
  }

  lemma OatsSum(n: Nutrient)
    ensures NutrientSum(OatsDb(), 5, n) == Amount(OatsDb().ingredients[0], n).value * 2.5
  {
    var db := OatsDb();
    OneLinkSum(db.links[0], db.ingredients[0], n);
    assert db.links == [db.links[0]] && db.ingredients == [db.ingredients[0]];
  }

  /** An ingredient with 10 protein and 100 calories per unit, used 2.5 times
      in a food, gives that food totals 25 and 250. */
  lemma ScenarioTwoAndAHalfUnits()
    ensures UpdateFoodTotals(OatsDb(), 5).foods[0].totalProtein == Some(25.0)
    ensures UpdateFoodTotals(OatsDb(), 5).foods[0].totalCalories == Some(250.0)
  {
    OatsSum(Protein);
    OatsSum(Calories);
    Round2Hundredths(2500);
    Round2Hundredths(25000);
  }

  /** After deleting an ingredient the owner can no longer fetch it, no link
      refers to it, and the foods (with their possibly stale totals) and the
      eaten history are untouched. */
  lemma DeleteIngredientEffect(db: Db, userId: int, id: int)
    ensures GetIngredient(DeleteIngredient(db, userId, id), userId, id).None?
    ensures forall l :: l in DeleteIngredient(db, userId, id).links ==> l.ingredientId != id
    ensures DeleteIngredient(db, userId, id).foods == db.foods
    ensures DeleteIngredient(db, userId, id).eaten == db.eaten
  {
    var db' := DeleteIngredient(db, userId, id);
    forall k | 0 <= k < |db'.ingredients| ensures !OwnsIngredient(db'.ingredients[k], userId, id) {
      assert db'.ingredients[k] in db'.ingredients;
    }
  }

  /** Likewise for a food: no link of it is left, and the owner cannot fetch it. */
  lemma DeleteFoodEffect(db: Db, userId: int, id: int)
    ensures GetFood(DeleteFood(db, userId, id), userId, id).None?
    ensures forall l :: l in DeleteFood(db, userId, id).links ==> l.foodId != id
    ensures DeleteFood(db, userId, id).eaten == db.eaten
  {
    var db' := DeleteFood(db, userId, id);
    forall k | 0 <= k < |db'.foods| ensures !OwnsFood(db'.foods[k], userId, id) {
      assert db'.foods[k] in db'.foods;
    }
  }

  /** An owner-scoped update is seen by the owner's next fetch. */
  lemma UpdateIngredientThenGet(db: Db, userId: int, id: int, name: string, protein: real, calories: real)
    requires GetIngredient(db, userId, id).Some?
    ensures var r := GetIngredient(UpdateIngredient(db, userId, id, name, protein, calories), userId, id);
            r.Some? && r.value.name == name && r.value.protein == Some(protein) && r.value.calories == Some(calories)
  {
    var db' := UpdateIngredient(db, userId, id, name, protein, calories);
    var r := GetIngredient(db', userId, id);
    var k :| 0 <= k < |db.ingredients| && OwnsIngredient(db.ingredients[k], userId, id);
    assert OwnsIngredient(db'.ingredients[k], userId, id);
    var j :| 0 <= j < |db'.ingredients| && db'.ingredients[j] == r.value;
    assert OwnsIngredient(db.ingredients[j], userId, id);
  }

  /** The day's intake is the same row `user_nutrition_stats` reports for today. */
  lemma IntakeMatchesStats(db: Db, userId: int, days: nat, today: int)
    requires HasEventOn(db.eaten, userId, today)
    ensures exists i :: (0 <= i < |NutritionStats(db.eaten, userId, days, today)| &&
      NutritionStats(db.eaten, userId, days, today)[i].day == today &&
      NutritionStats(db.eaten, userId, days, today)[i].totalProtein == GetUserDailyIntake(db, userId, today).totalProtein &&
      NutritionStats(db.eaten, userId, days, today)[i].totalCalories == GetUserDailyIntake(db, userId, today).totalCalories)
  {
    StatsMeetsSpec(db.eaten, userId, days, today);
    var r := NutritionStats(db.eaten, userId, days, today);
    assert HasDay(r, today);
    var i :| 0 <= i < |r| && r[i].day == today;
    assert r[i] == RowFor(db.eaten, userId, today);
  }

  /** A row of another user or another day does not change today's intake. */
  lemma IntakeIgnoresOtherRows(db: Db, e: Eaten, userId: int, today: int)
    requires !EatenBy(e, userId, today)
    ensures GetUserDailyIntake(db.(eaten := db.eaten + [e]), userId, today) == GetUserDailyIntake(db, userId, today)
  {
    EventsOnSnoc(db.eaten, e, userId, today);
    assert EventsOn(db.eaten + [e], userId, today) == EventsOn(db.eaten, userId, today);
  }

  /** The nutrient columns of one more row end with that row's values. */
  lemma ColumnsSnoc(es: seq<Eaten>, e: Eaten)
    ensures ProteinColumn(es + [e]) == ProteinColumn(es) + [e.protein]
    ensures CalorieColumn(es + [e]) == CalorieColumn(es) + [e.calories]
  {
    assert forall i :: 0 <= i < |es| ==> (es + [e])[i] == es[i];
  }

  lemma IntakeUnfold(db: Db, userId: int, day: int)
    ensures var es := EventsOn(db.eaten, userId, day);
            GetUserDailyIntake(db, userId, day) ==
            Intake(RoundOpt(SqlSum(ProteinColumn(es))), RoundOpt(SqlSum(CalorieColumn(es))))
  {
  }

  /** Appending an event with both values present adds them to the rounded column sums. */
  lemma ColumnSumsSnoc(before: seq<Eaten>, e: Eaten)
    requires e.protein.Some? && e.calories.Some?
    ensures RoundOpt(SqlSum(ProteinColumn(before + [e]))) ==
            Some(Round2(SumBy(ProteinColumn(before), OrZero) + e.protein.value))
    ensures RoundOpt(SqlSum(CalorieColumn(before + [e]))) ==
            Some(Round2(SumBy(CalorieColumn(before), OrZero) + e.calories.value))
  {
    ColumnsSnoc(before, e);
    SqlSumSnoc(ProteinColumn(before), e.protein.value);
    SqlSumSnoc(CalorieColumn(before), e.calories.value);
  }

  /** A row of the user on that day, with both values present, adds them to the day's intake. */
  lemma IntakeSnoc(db: Db, db': Db, e: Eaten, userId: int, day: int)
    requires db'.eaten == db.eaten + [e]
    requires EatenBy(e, userId, day) && e.protein.Some? && e.calories.Some?
    ensures GetUserDailyIntake(db', userId, day).totalProtein ==
            Some(Round2(SumBy(ProteinColumn(EventsOn(db.eaten, userId, day)), OrZero) + e.protein.value))
    ensures GetUserDailyIntake(db', userId, day).totalCalories ==
            Some(Round2(SumBy(CalorieColumn(EventsOn(db.eaten, userId, day)), OrZero) + e.calories.value))
  {
    var before := EventsOn(db.eaten, userId, day);
    IntakeUnfold(db', userId, day);
    EventsOnSnoc(db.eaten, e, userId, day);
    assert EventsOn(db'.eaten, userId, day) == before + [e];
    ColumnSumsSnoc(before, e);
  }

  /** Recording a meal adds its values to the eater's intake for that day. */
  lemma RecordEatenAddsToIntake(db: Db, id: int, userId: int, foodId: int, quantity: real,
                                protein: real, calories: real, now: int)
    ensures var db' := RecordEaten(db, id, userId, foodId, quantity, protein, calories, now);
            var before := EventsOn(db.eaten, userId, DayOf(now));
            && GetUserDailyIntake(db', userId, DayOf(now)).totalProtein ==
               Some(Round2(SumBy(ProteinColumn(before), OrZero) + protein))
            && GetUserDailyIntake(db', userId, DayOf(now)).totalCalories ==
               Some(Round2(SumBy(CalorieColumn(before), OrZero) + calories))
  {
    IntakeSnoc(db, RecordEaten(db, id, userId, foodId, quantity, protein, calories, now),
               Eaten(id, userId, foodId, now, quantity, Some(protein), Some(calories)), userId, DayOf(now));
  }

  /** Recording a meal changes nobody else's statistics or intake. */
  lemma RecordEatenLeavesOthers(db: Db, id: int, userId: int, foodId: int, quantity: real,
                                protein: real, calories: real, now: int, other: int, days: nat, today: int)
    requires other != userId
    ensures var db' := RecordEaten(db, id, userId, foodId, quantity, protein, calories, now);
            && NutritionStats(db'.eaten, other, days, today) == NutritionStats(db.eaten, other, days, today)
            && GetUserDailyIntake(db', other, today) == GetUserDailyIntake(db, other, today)
  {
    var e := Eaten(id, userId, foodId, now, quantity, Some(protein), Some(calories));
    StatsIgnoreOtherUsers(db.eaten, e, other, days, today);
    IntakeIgnoresOtherRows(db, e, other, today);
  }

  /** The head of a list ordered newest first is no older than any member. */
  lemma HeadNotOlder(r: seq<Eaten>, x: Eaten)
    requires NewestFirst(r) && x in r
    ensures r[0].time >= x.time
  {
    var j :| 0 <= j < |r| && r[j] == x;
    assert r[0].time >= r[j].time;
  }

  /** A meal recorded later than all of the user's earlier rows heads the
      user's eaten list. */
  lemma RecordEatenIsNewest(db: Db, id: int, userId: int, foodId: int, quantity: real,
                            protein: real, calories: real, now: int, limit: int)
    requires limit != 0
    requires forall k :: 0 <= k < |db.eaten| && db.eaten[k].userId == userId ==> db.eaten[k].time < now
    ensures var r := GetUserEaten(RecordEaten(db, id, userId, foodId, quantity, protein, calories, now), userId, limit);
            |r| > 0 && r[0] == Eaten(id, userId, foodId, now, quantity, Some(protein), Some(calories))
  {
    var e := Eaten(id, userId, foodId, now, quantity, Some(protein), Some(calories));
    var db' := RecordEaten(db, id, userId, foodId, quantity, protein, calories, now);
    var r := GetUserEaten(db', userId, limit);
    assert e in UserRows(db', userId);
    assert |r| > 0;
    assert r[0] in db.eaten ==> r[0].time < now by {
      if r[0] in db.eaten {
        var k :| 0 <= k < |db.eaten| && db.eaten[k] == r[0];
      }
    }
    assert r[0] == e || r[0].time < now;
    assert e in r;
    HeadNotOlder(r, e);
  }
}
