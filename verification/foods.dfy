/** The food catalogue page (foods.py): the joined food/ingredient listing
    and its grouping into one entry per food, food creation from a form of
    quantities, and the unscoped delete cascades. */
module Foods {
  import opened Wrappers
  import opened Seqs
  import opened Schema
  import opened FoodsRepo

  // ---------------- The listing query ----------------

  /** One row of the listing query: a food and one of its ingredients. */
  datatype JoinedRow = JoinedRow(
    foodId: int,
    foodName: string,
    foodClass: string,
    ingredientName: string,
    protein: Option<real>,
    calories: Option<real>,
    quantity: Option<real>)

  function RowOf(f: Food, p: JoinPair): JoinedRow {
    JoinedRow(f.id, f.name, f.category, p.ing.name, p.ing.protein, p.ing.calories, p.link.quantity)
  }

  function RowsOf(f: Food, ps: seq<JoinPair>): (r: seq<JoinedRow>)
    ensures |r| == |ps| && forall k :: 0 <= k < |ps| ==> r[k] == RowOf(f, ps[k])
  {
    seq(|ps|, k requires 0 <= k < |ps| => RowOf(f, ps[k]))
  }

  /** `Foods f JOIN FoodIngredients fi ON f.id = fi.food_id JOIN Ingredients i
      ON fi.ingredient_id = i.id`, food by food in table order. */
  function JoinRows(foods: seq<Food>, links: seq<Link>, ings: seq<Ingredient>): seq<JoinedRow> {
    if |foods| == 0 then []
    else
      var f := foods[|foods| - 1];
      JoinRows(foods[..|foods| - 1], links, ings) + RowsOf(f, FoodJoin(links, ings, f.id))
  }

  function AllFoodsRows(db: Db): seq<JoinedRow> {
    JoinRows(db.foods, db.links, db.ingredients)
  }

  /** Does some link of the food reach an existing ingredient row? */
  predicate Linked(links: seq<Link>, ings: seq<Ingredient>, foodId: int) {
    exists j, k :: 0 <= j < |links| && 0 <= k < |ings| && links[j].foodId == foodId && ings[k].id == links[j].ingredientId
  }

  lemma {:induction false} PairsForNonEmpty(l: Link, ings: seq<Ingredient>)
    ensures |PairsFor(l, ings)| > 0 <==> exists k :: 0 <= k < |ings| && ings[k].id == l.ingredientId
  {
    if |ings| > 0 {
      var init := ings[..|ings| - 1];
      PairsForNonEmpty(l, init);
      assert forall k :: 0 <= k < |init| ==> init[k] == ings[k];
    }
  }

  /** The inner join yields rows for a food exactly when one of its links
      reaches an existing ingredient. */
  lemma {:induction false} FoodJoinNonEmpty(links: seq<Link>, ings: seq<Ingredient>, foodId: int)
    ensures |FoodJoin(links, ings, foodId)| > 0 <==> Linked(links, ings, foodId)
  {
    if |links| > 0 {
      var init, l := links[..|links| - 1], links[|links| - 1];
      FoodJoinNonEmpty(init, ings, foodId);
      PairsForNonEmpty(l, ings);
      assert forall j :: 0 <= j < |init| ==> init[j] == links[j];
      if Linked(links, ings, foodId) && !Linked(init, ings, foodId) {
        var j, k :| 0 <= j < |links| && 0 <= k < |ings| && links[j].foodId == foodId && ings[k].id == links[j].ingredientId;
        assert j == |links| - 1;
      }
    }
  }

  /** Some row of the listing belongs to the food. */
  predicate Listed(rows: seq<JoinedRow>, id: int) {
    exists k :: 0 <= k < |rows| && rows[k].foodId == id
  }

  predicate HasFood(foods: seq<Food>, id: int) {
    exists i :: 0 <= i < |foods| && foods[i].id == id
  }

  lemma ListedAppend(a: seq<JoinedRow>, b: seq<JoinedRow>, id: int)
    ensures Listed(a + b, id) <==> Listed(a, id) || Listed(b, id)
  {
    var all := a + b;
    if Listed(all, id) {
      var k :| 0 <= k < |all| && all[k].foodId == id;
      if k < |a| {
        assert a[k] == all[k];
      } else {
        assert b[k - |a|] == all[k];
      }
    }
    if Listed(a, id) {
      var k :| 0 <= k < |a| && a[k].foodId == id;
      assert all[k] == a[k];
    }
    if Listed(b, id) {
      var k :| 0 <= k < |b| && b[k].foodId == id;
      assert all[|a| + k] == b[k];
    }
  }

  lemma ListedRowsOf(f: Food, ps: seq<JoinPair>, id: int)
    ensures Listed(RowsOf(f, ps), id) <==> |ps| > 0 && f.id == id
  {
    if |ps| > 0 && f.id == id {
      assert RowsOf(f, ps)[0].foodId == id;
    }
  }

  lemma HasFoodSnoc(foods: seq<Food>, id: int)
    requires |foods| > 0
    ensures HasFood(foods, id) <==> HasFood(foods[..|foods| - 1], id) || foods[|foods| - 1].id == id
  {
    var init := foods[..|foods| - 1];
    assert forall i :: 0 <= i < |init| ==> init[i] == foods[i];
  }

  /** Every listed row belongs to a food of the table, and a food is listed
      exactly when it has a link to an existing ingredient: the listing leaves
      out foods without ingredients. */
  lemma {:induction false} ListedFoods(foods: seq<Food>, links: seq<Link>, ings: seq<Ingredient>, id: int)
    ensures Listed(JoinRows(foods, links, ings), id) <==> HasFood(foods, id) && Linked(links, ings, id)
  {
    if |foods| > 0 {
      var init, f := foods[..|foods| - 1], foods[|foods| - 1];
      ListedFoods(init, links, ings, id);
      FoodJoinNonEmpty(links, ings, f.id);
      ListedAppend(JoinRows(init, links, ings), RowsOf(f, FoodJoin(links, ings, f.id)), id);
      ListedRowsOf(f, FoodJoin(links, ings, f.id), id);
      HasFoodSnoc(foods, id);
    }
  }

  // ---------------- The grouping loop ----------------

  datatype IngredientEntry = IngredientEntry(name: string, protein: Option<real>, calories: Option<real>, quantity: Option<real>)

  /** The value stored under a food id: its name, class and ingredient list. */
  datatype FoodEntry = FoodEntry(id: int, name: string, foodClass: string, ingredients: seq<IngredientEntry>)

  function EntryOf(r: JoinedRow): IngredientEntry {
    IngredientEntry(r.ingredientName, r.protein, r.calories, r.quantity)
  }

  /** Where the dictionary holds `id`, or -1 when `id not in foods`. */
  function EntryIndex(entries: seq<FoodEntry>, id: int): (i: int)
    ensures -1 <= i < |entries|
    ensures i == -1 <==> forall j :: 0 <= j < |entries| ==> entries[j].id != id
    ensures i >= 0 ==> entries[i].id == id
  {
    if |entries| == 0 then -1
    else if entries[|entries| - 1].id == id then |entries| - 1
    else
      assert forall j :: 0 <= j < |entries| - 1 ==> entries[..|entries| - 1][j] == entries[j];
      EntryIndex(entries[..|entries| - 1], id)
  }

  /** One iteration of the loop: open the food's entry on its first row,
      then append the row's ingredient to it. */
  function AddRow(entries: seq<FoodEntry>, r: JoinedRow): seq<FoodEntry> {
    var i := EntryIndex(entries, r.foodId);
    if i == -1 then entries + [FoodEntry(r.foodId, r.foodName, r.foodClass, [EntryOf(r)])]
    else entries[i := entries[i].(ingredients := entries[i].ingredients + [EntryOf(r)])]
  }

  /** The dictionary the loop builds, its entries in insertion order. */
  function GroupRows(rows: seq<JoinedRow>): seq<FoodEntry> {
    if |rows| == 0 then [] else AddRow(GroupRows(rows[..|rows| - 1]), rows[|rows| - 1])
  }

  predicate UniqueEntryIds(entries: seq<FoodEntry>) {
    forall i, j :: 0 <= i < j < |entries| ==> entries[i].id != entries[j].id
  }

  /** The first row of the food, if any. */
  function FirstRowOf(rows: seq<JoinedRow>, id: int): (r: Option<JoinedRow>)
    ensures r.None? <==> forall k :: 0 <= k < |rows| ==> rows[k].foodId != id
    ensures r.Some? ==> r.value.foodId == id
  {
    if |rows| == 0 then None
    else
      var init := rows[..|rows| - 1];
      assert forall k :: 0 <= k < |init| ==> init[k] == rows[k];
      var r := FirstRowOf(init, id);
      if r.None? && rows[|rows| - 1].foodId == id then Some(rows[|rows| - 1]) else r
  }

  /** The ingredient entries of the food's rows, in row order. */
  function IngredientsOf(rows: seq<JoinedRow>, id: int): seq<IngredientEntry> {
    if |rows| == 0 then []
    else
      var r := rows[|rows| - 1];
      IngredientsOf(rows[..|rows| - 1], id) + (if r.foodId == id then [EntryOf(r)] else [])
  }

  predicate HasEntry(entries: seq<FoodEntry>, id: int) {
    exists i :: 0 <= i < |entries| && entries[i].id == id
  }

  /** What the grouped dictionary holds after a prefix of the rows. */
  predicate GroupedAs(entries: seq<FoodEntry>, rows: seq<JoinedRow>) {
    && UniqueEntryIds(entries)
    && (forall k :: 0 <= k < |rows| ==> HasEntry(entries, rows[k].foodId))
    && (forall i :: 0 <= i < |entries| ==>
          FirstRowOf(rows, entries[i].id).Some? &&
          entries[i].name == FirstRowOf(rows, entries[i].id).value.foodName &&
          entries[i].foodClass == FirstRowOf(rows, entries[i].id).value.foodClass &&
          entries[i].ingredients == IngredientsOf(rows, entries[i].id))
  }

  lemma FirstRowOfSnoc(rows: seq<JoinedRow>, r: JoinedRow, id: int)
    ensures FirstRowOf(rows + [r], id) ==
      if FirstRowOf(rows, id).Some? then FirstRowOf(rows, id) else if r.foodId == id then Some(r) else None
  {
    assert (rows + [r])[..|rows|] == rows;
  }

  lemma IngredientsOfSnoc(rows: seq<JoinedRow>, r: JoinedRow, id: int)
    ensures IngredientsOf(rows + [r], id) == IngredientsOf(rows, id) + (if r.foodId == id then [EntryOf(r)] else [])
  {
    assert (rows + [r])[..|rows|] == rows;
  }

  /** Entries of other foods keep what they describe when a row is added. */
  lemma OtherEntriesKept(entries: seq<FoodEntry>, rows: seq<JoinedRow>, r: JoinedRow, e: seq<FoodEntry>)
    requires GroupedAs(entries, rows)
    requires |entries| <= |e| && forall i :: 0 <= i < |entries| && entries[i].id != r.foodId ==> e[i] == entries[i]
    ensures forall i :: 0 <= i < |entries| && entries[i].id != r.foodId ==>
          FirstRowOf(rows + [r], e[i].id).Some? &&
          e[i].name == FirstRowOf(rows + [r], e[i].id).value.foodName &&
          e[i].foodClass == FirstRowOf(rows + [r], e[i].id).value.foodClass &&
          e[i].ingredients == IngredientsOf(rows + [r], e[i].id)
  {
    forall i | 0 <= i < |entries| && entries[i].id != r.foodId
      ensures FirstRowOf(rows + [r], e[i].id) == FirstRowOf(rows, entries[i].id)
      ensures IngredientsOf(rows + [r], e[i].id) == IngredientsOf(rows, entries[i].id)
    {
      FirstRowOfSnoc(rows, r, entries[i].id);
      IngredientsOfSnoc(rows, r, entries[i].id);
    }
  }

  /** Every row's food has an entry once the row is added. */
  lemma RowsCovered(entries: seq<FoodEntry>, rows: seq<JoinedRow>, r: JoinedRow, e: seq<FoodEntry>)
    requires forall k :: 0 <= k < |rows| ==> HasEntry(entries, rows[k].foodId)
    requires |entries| <= |e| && forall i :: 0 <= i < |entries| ==> e[i].id == entries[i].id
    requires HasEntry(e, r.foodId)
    ensures forall k :: 0 <= k < |rows + [r]| ==> HasEntry(e, (rows + [r])[k].foodId)
  {
    forall k | 0 <= k < |rows + [r]| ensures HasEntry(e, (rows + [r])[k].foodId) {
      if k < |rows| {
        assert (rows + [r])[k] == rows[k];
        var i :| 0 <= i < |entries| && entries[i].id == rows[k].foodId;
        assert e[i].id == rows[k].foodId;
      }
    }
  }

  /** A row of a food not yet in the dictionary opens a new entry. */
  lemma AddRowNew(entries: seq<FoodEntry>, rows: seq<JoinedRow>, r: JoinedRow)
    requires GroupedAs(entries, rows) && EntryIndex(entries, r.foodId) == -1
    ensures GroupedAs(AddRow(entries, r), rows + [r])
  {
    var e := AddRow(entries, r);
    var x := FoodEntry(r.foodId, r.foodName, r.foodClass, [EntryOf(r)]);
    assert e == entries + [x];
    assert FirstRowOf(rows, r.foodId).None? by {
      forall k | 0 <= k < |rows| ensures rows[k].foodId != r.foodId {
        assert HasEntry(entries, rows[k].foodId);
      }
    }
    NoRowsNoIngredients(rows, r.foodId);
    FirstRowOfSnoc(rows, r, r.foodId);
    IngredientsOfSnoc(rows, r, r.foodId);
    OtherEntriesKept(entries, rows, r, e);
    assert e[|entries|].id == r.foodId;
    assert HasEntry(e, r.foodId);
    RowsCovered(entries, rows, r, e);
  }

  /** A row of a food already in the dictionary extends that entry. */
  lemma AddRowOld(entries: seq<FoodEntry>, rows: seq<JoinedRow>, r: JoinedRow)
    requires GroupedAs(entries, rows) && EntryIndex(entries, r.foodId) >= 0
    ensures GroupedAs(AddRow(entries, r), rows + [r])
  {
    var e := AddRow(entries, r);
    var i := EntryIndex(entries, r.foodId);
    FirstRowOfSnoc(rows, r, r.foodId);
    IngredientsOfSnoc(rows, r, r.foodId);
    OtherEntriesKept(entries, rows, r, e);
    assert e[i].id == r.foodId;
    RowsCovered(entries, rows, r, e);
  }

  lemma {:induction false} NoRowsNoIngredients(rows: seq<JoinedRow>, id: int)
    requires forall k :: 0 <= k < |rows| ==> rows[k].foodId != id
    ensures IngredientsOf(rows, id) == []
  {
    if |rows| > 0 {
      var init := rows[..|rows| - 1];
      assert forall k :: 0 <= k < |init| ==> init[k] == rows[k];
      NoRowsNoIngredients(init, id);
    }
  }

  /** The grouping yields one entry per distinct food id of the rows, named
      and classed after the food's first row, holding the food's ingredient
      entries in row order. */
  lemma {:induction false} GroupRowsSpec(rows: seq<JoinedRow>)
    ensures GroupedAs(GroupRows(rows), rows)
  {
    if |rows| > 0 {
      var init, r := rows[..|rows| - 1], rows[|rows| - 1];
      GroupRowsSpec(init);
      assert rows == init + [r];
      if EntryIndex(GroupRows(init), r.foodId) == -1 {
        AddRowNew(GroupRows(init), init, r);
      } else {
        AddRowOld(GroupRows(init), init, r);
      }
    }
  }

  /** Number of ingredient entries over all foods. */
  function TotalEntries(entries: seq<FoodEntry>): nat {
    if |entries| == 0 then 0
    else TotalEntries(entries[..|entries| - 1]) + |entries[|entries| - 1].ingredients|
  }

  lemma {:induction false} TotalEntriesUpdate(entries: seq<FoodEntry>, i: int, x: IngredientEntry)
    requires 0 <= i < |entries|
    ensures TotalEntries(entries[i := entries[i].(ingredients := entries[i].ingredients + [x])]) == TotalEntries(entries) + 1
  {
    var e := entries[i := entries[i].(ingredients := entries[i].ingredients + [x])];
    var init := entries[..|entries| - 1];
    if i < |entries| - 1 {
      assert e[..|e| - 1] == init[i := init[i].(ingredients := init[i].ingredients + [x])];
      TotalEntriesUpdate(init, i, x);
    } else {
      assert e[..|e| - 1] == init;
    }
  }

  /** Every row contributes exactly one ingredient entry. */
  lemma {:induction false} GroupRowsCount(rows: seq<JoinedRow>)
    ensures TotalEntries(GroupRows(rows)) == |rows|
  {
    if |rows| > 0 {
      var init, r := rows[..|rows| - 1], rows[|rows| - 1];
      GroupRowsCount(init);
      var g := GroupRows(init);
      var i := EntryIndex(g, r.foodId);
      if i == -1 {
        assert (g + [FoodEntry(r.foodId, r.foodName, r.foodClass, [EntryOf(r)])])[..|g|] == g;
      } else {
        TotalEntriesUpdate(g, i, EntryOf(r));
      }
    }
  }

  // ---------------- Creating a food ----------------

  /** `float(request.form.get(f"ingredient_{id}", 0))`: an absent field is 0. */
  function FormQuantity(form: map<int, real>, ingredientId: int): real {
    if ingredientId in form then form[ingredientId] else 0.0
  }

  /** Whether the form asks for a positive quantity of the ingredient. */
  predicate Requested(form: map<int, real>, i: Ingredient) {
    FormQuantity(form, i.id) > 0.0
  }

  /** `r` holds one link of `foodId` per ingredient in `chosen`, in the same
      order, each carrying the submitted quantity. */
  predicate LinksFor(r: seq<Link>, chosen: seq<Ingredient>, form: map<int, real>, foodId: int) {
    |r| == |chosen| &&
    forall k :: 0 <= k < |r| ==> r[k] == Link(foodId, chosen[k].id, Some(FormQuantity(form, chosen[k].id)))
  }

  lemma LinksForSnoc(r: seq<Link>, chosen: seq<Ingredient>, form: map<int, real>, foodId: int, ing: Ingredient)
    requires LinksFor(r, chosen, form, foodId)
    ensures Requested(form, ing) ==>
      LinksFor(r + [Link(foodId, ing.id, Some(FormQuantity(form, ing.id)))], chosen + [ing], form, foodId)
  {
  }

  /** The links the creation loop inserts, one per listed ingredient with a
      positive quantity, in ingredient order. */
  function NewLinks(ings: seq<Ingredient>, form: map<int, real>, foodId: int): (r: seq<Link>)
    ensures forall k :: 0 <= k < |r| ==> r[k].foodId == foodId && r[k].quantity == Some(FormQuantity(form, r[k].ingredientId))
    ensures forall k :: 0 <= k < |r| ==> FormQuantity(form, r[k].ingredientId) > 0.0
    ensures forall l :: l in r ==> exists j :: 0 <= j < |ings| && ings[j].id == l.ingredientId
    ensures forall j :: 0 <= j < |ings| && FormQuantity(form, ings[j].id) > 0.0 ==>
      Link(foodId, ings[j].id, Some(FormQuantity(form, ings[j].id))) in r
  {
    if |ings| == 0 then []
    else
      var init, ing := ings[..|ings| - 1], ings[|ings| - 1];
      var q := FormQuantity(form, ing.id);
      var rest := NewLinks(init, form, foodId);
      assert forall j :: 0 <= j < |init| ==> init[j] == ings[j];
      rest + (if q > 0.0 then [Link(foodId, ing.id, Some(q))] else [])
  }

  /** The inserted links are exactly one per requested ingredient, in table
      order: no ingredient is linked twice and none is skipped. */
  lemma {:induction false} NewLinksFollowRequested(ings: seq<Ingredient>, form: map<int, real>, foodId: int)
    ensures LinksFor(NewLinks(ings, form, foodId), Filter(ings, (i: Ingredient) => Requested(form, i)), form, foodId)
  {
    if |ings| > 0 {
      var init := ings[..|ings| - 1];
      NewLinksFollowRequested(init, form, foodId);
      LinksForSnoc(NewLinks(init, form, foodId), Filter(init, (i: Ingredient) => Requested(form, i)),
                   form, foodId, ings[|ings| - 1]);
    }
  }

  /** The food-creation branch: a food row with only name and class set
      (`newId` is the id the database assigns), then its links. Totals are
      left as they are. */
  function CreateFood(db: Db, newId: int, name: string, category: string, form: map<int, real>): (db': Db)
    ensures db' == db.(foods := db'.foods, links := db'.links)
    ensures db'.foods == db.foods + [Food(newId, None, name, category, None, None, None)]
    ensures db'.links == db.links + NewLinks(db.ingredients, form, newId)
  {
    db.(foods := db.foods + [Food(newId, None, name, category, None, None, None)],
        links := db.links + NewLinks(db.ingredients, form, newId))
  }

  // ---------------- Deleting ----------------

  /** `delete_food` on this page: the food's links, then every food row with
      that id, whoever owns it. */
  function DeleteFoodAnyOwner(db: Db, id: int): (db': Db)
    ensures db' == db.(links := db'.links, foods := db'.foods)
    ensures forall l :: l in db'.links <==> l in db.links && l.foodId != id
    ensures forall f :: f in db'.foods <==> f in db.foods && f.id != id
    ensures forall l :: multiset(db'.links)[l] == if l.foodId != id then multiset(db.links)[l] else 0
    ensures forall f :: multiset(db'.foods)[f] == if f.id != id then multiset(db.foods)[f] else 0
  {
    var keepFood := (f: Food) => f.id != id;
    FilterMultiset(db.foods, keepFood);
    db.(links := DeleteFoodIngredients(db, id).links, foods := Filter(db.foods, keepFood))
  }

  /** `delete_ingredient` on this page: the links to the ingredient, then the
      ingredient row, whoever owns it. */
  function DeleteIngredientAnyOwner(db: Db, id: int): (db': Db)
    ensures db' == db.(links := db'.links, ingredients := db'.ingredients)
    ensures forall l :: l in db'.links <==> l in db.links && l.ingredientId != id
    ensures forall i :: i in db'.ingredients <==> i in db.ingredients && i.id != id
    ensures forall l :: multiset(db'.links)[l] == if l.ingredientId != id then multiset(db.links)[l] else 0
    ensures forall i :: multiset(db'.ingredients)[i] == if i.id != id then multiset(db.ingredients)[i] else 0
  {
    var keepLink := (l: Link) => l.ingredientId != id;
    var keepIngredient := (i: Ingredient) => i.id != id;
    FilterMultiset(db.links, keepLink);
    FilterMultiset(db.ingredients, keepIngredient);
    db.(links := Filter(db.links, keepLink), ingredients := Filter(db.ingredients, keepIngredient))
  }
}

module FoodsFacts {
  import opened Wrappers
  import opened Schema
  import opened FoodsRepo
  import opened Foods

  /** After the unscoped delete no listing row mentions the food. */
  lemma DeleteFoodUnlists(db: Db, id: int)
    ensures !Listed(AllFoodsRows(DeleteFoodAnyOwner(db, id)), id)
  {
    var db' := DeleteFoodAnyOwner(db, id);
    ListedFoods(db'.foods, db'.links, db'.ingredients, id);
    forall i | 0 <= i < |db'.foods| ensures db'.foods[i].id != id {
      assert db'.foods[i] in db'.foods;
    }
  }

  /** Only the new links can mention the new food. */
  lemma LinkedOnlyNew(prior: seq<Link>, nl: seq<Link>, ings: seq<Ingredient>, newId: int)
    requires forall l :: l in prior ==> l.foodId != newId
    ensures Linked(prior + nl, ings, newId) ==> Linked(nl, ings, newId)
  {
    var links := prior + nl;
    assert forall i :: 0 <= i < |prior| ==> links[i] == prior[i] && prior[i] in prior;
    if Linked(links, ings, newId) {
      var j, k :| 0 <= j < |links| && 0 <= k < |ings| && links[j].foodId == newId && ings[k].id == links[j].ingredientId;
      assert j >= |prior|;
      assert links[j] == nl[j - |prior|];
    }
  }

  /** Links appended after others still reach their ingredients. */
  lemma LinkedKeepsNew(prior: seq<Link>, nl: seq<Link>, ings: seq<Ingredient>, newId: int)
    ensures Linked(nl, ings, newId) ==> Linked(prior + nl, ings, newId)
  {
    if Linked(nl, ings, newId) {
      var j, k :| 0 <= j < |nl| && 0 <= k < |ings| && nl[j].foodId == newId && ings[k].id == nl[j].ingredientId;
      assert (prior + nl)[|prior| + j] == nl[j];
    }
  }

  /** A new link that reaches an ingredient comes from a positive quantity. */
  lemma NewLinkedHasPositive(ings: seq<Ingredient>, form: map<int, real>, newId: int)
    ensures Linked(NewLinks(ings, form, newId), ings, newId) ==>
            exists j :: 0 <= j < |ings| && FormQuantity(form, ings[j].id) > 0.0
  {
    var nl := NewLinks(ings, form, newId);
    if Linked(nl, ings, newId) {
      var j, k :| 0 <= j < |nl| && 0 <= k < |ings| && nl[j].foodId == newId && ings[k].id == nl[j].ingredientId;
      assert FormQuantity(form, ings[k].id) > 0.0;
    }
  }

  /** A positive quantity for a listed ingredient yields a link that reaches it. */
  lemma PositiveIsLinked(ings: seq<Ingredient>, form: map<int, real>, newId: int, j: int)
    requires 0 <= j < |ings| && FormQuantity(form, ings[j].id) > 0.0
    ensures Linked(NewLinks(ings, form, newId), ings, newId)
  {
    var nl := NewLinks(ings, form, newId);
    var l := Link(newId, ings[j].id, Some(FormQuantity(form, ings[j].id)));
    var m :| 0 <= m < |nl| && nl[m] == l;
    assert nl[m].foodId == newId && ings[j].id == nl[m].ingredientId;
  }

  /** The new links reach existing ingredients exactly when some listed
      ingredient got a positive quantity. */
  lemma NewLinksLinked(ings: seq<Ingredient>, form: map<int, real>, newId: int)
    ensures Linked(NewLinks(ings, form, newId), ings, newId) <==>
            exists j :: 0 <= j < |ings| && FormQuantity(form, ings[j].id) > 0.0
  {
    NewLinkedHasPositive(ings, form, newId);
    if exists j :: 0 <= j < |ings| && FormQuantity(form, ings[j].id) > 0.0 {
      var j :| 0 <= j < |ings| && FormQuantity(form, ings[j].id) > 0.0;
      PositiveIsLinked(ings, form, newId, j);
    }
  }

  /** A created food is listed exactly when some listed ingredient got a
      positive quantity (no earlier link may use the new id). */
  lemma CreatedFoodListed(db: Db, newId: int, name: string, category: string, form: map<int, real>)
    requires forall l :: l in db.links ==> l.foodId != newId
    ensures Listed(AllFoodsRows(CreateFood(db, newId, name, category, form)), newId) <==>
            exists j :: 0 <= j < |db.ingredients| && FormQuantity(form, db.ingredients[j].id) > 0.0
  {
    var db' := CreateFood(db, newId, name, category, form);
    ListedFoods(db'.foods, db'.links, db'.ingredients, newId);
    assert db'.foods[|db.foods|].id == newId;
    NewLinksLinked(db.ingredients, form, newId);
    LinkedOnlyNew(db.links, NewLinks(db.ingredients, form, newId), db.ingredients, newId);
    LinkedKeepsNew(db.links, NewLinks(db.ingredients, form, newId), db.ingredients, newId);
  }
}
