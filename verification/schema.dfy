/** The six tables of the application database, as immutable records. A table
    is a sequence of rows in storage (rowid) order. The model assumes that a
    query without ORDER BY returns rows in that order; SQL itself leaves the
    order unspecified. A NULL column is `None`; a column the
    inserting statement leaves out is also `None` (its default). */
module Schema {
  import opened Wrappers

  type Bytes = seq<bv8>

  datatype User = User(
    id: int,
    username: string,
    passwordHash: string,
    profilePic: Option<Bytes>,
    proteinTarget: Option<int>,
    calorieTarget: Option<int>)

  datatype Ingredient = Ingredient(
    id: int,
    userId: Option<int>,
    name: string,
    protein: Option<real>,
    calories: Option<real>)

  /** `category` is the `class` column. */
  datatype Food = Food(
    id: int,
    userId: Option<int>,
    name: string,
    category: string,
    isPublic: Option<int>,
    totalProtein: Option<real>,
    totalCalories: Option<real>)

  /** A `FoodIngredients` row: `quantity` units of an ingredient in a food. */
  datatype Link = Link(foodId: int, ingredientId: int, quantity: Option<real>)

  datatype Like = Like(userId: int, foodId: int)

  /** An `Eaten` row. `time` is the UTC timestamp in seconds written by
      `datetime('now')`; the protein and calorie values are frozen copies. */
  datatype Eaten = Eaten(
    id: int,
    userId: int,
    foodId: int,
    time: int,
    quantity: real,
    protein: Option<real>,
    calories: Option<real>)

  datatype Db = Db(
    users: seq<User>,
    ingredients: seq<Ingredient>,
    foods: seq<Food>,
    links: seq<Link>,
    likes: seq<Like>,
    eaten: seq<Eaten>)

  /** SQLite's `date(time)`: the calendar day (days since the epoch) of a timestamp. */
  function DayOf(time: int): int { time / 86400 }

  /** One row of a per-day aggregate: the day and its protein and calorie totals. */
  datatype DayRow = DayRow(day: int, totalProtein: Option<real>, totalCalories: Option<real>)

  predicate EatenBy(e: Eaten, userId: int, day: int) {
    e.userId == userId && DayOf(e.time) == day
  }

  function ProteinColumn(es: seq<Eaten>): (r: seq<Option<real>>)
    ensures |r| == |es| && forall i :: 0 <= i < |es| ==> r[i] == es[i].protein
  {
    seq(|es|, i requires 0 <= i < |es| => es[i].protein)
  }

  function CalorieColumn(es: seq<Eaten>): (r: seq<Option<real>>)
    ensures |r| == |es| && forall i :: 0 <= i < |es| ==> r[i] == es[i].calories
  {
    seq(|es|, i requires 0 <= i < |es| => es[i].calories)
  }
}
