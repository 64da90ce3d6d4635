# Nutrition tracker — a Dafny model of its data core

This is a model of the data core of a small Flask and SQLite nutrition-tracking web app.

Users of the app:
- keep a list of ingredients, with protein and calories per unit;
- compose foods from those ingredients, with a quantity per ingredient;
- record what they ate.

The app then reports per-day totals, a 7-day series and a 30-day summary against a protein target.

The model treats the database as a value. `Schema.Db` holds one sequence per table, in rowid order:
- `users`
- `ingredients`
- `foods`
- `links` (the `FoodIngredients` table)
- `likes`
- `eaten`

Each SQL statement the app issues is a pure function from the database before to the database after. Each query is a pure function of the database. SQL `NULL` is `Option.None`.

The modules follow the program's files:
- `Users` / `UsersFacts` (users.py)
  - the raise-on-missing user lookups;
  - the column setters;
  - the `GROUP BY day` statistics query.
  The statistics query is proved equal to an independent "one row per eating day, ascending" specification.
- `FoodsRepo` / `FoodsRepoFacts` (foods_repo.py)
  - the owner-scoped ingredient and food accessors;
  - the delete cascades;
  - `update_food_totals`, proved equal to Σ value × quantity over the food's links;
  - the eaten-log queries.
- `Foods` / `FoodsFacts` (foods.py)
  - the listing join;
  - the loop that groups joined rows into one entry per food;
  - food creation, which inserts links only for positive quantities;
  - the unscoped delete cascades.
- `App` / `AppFacts` (app.py)
  - the `sum_values` template filter;
  - the target, goals, picture and registration guards;
  - login;
  - the 30-day summary;
  - `fill_missing_days` and the 7-day series built from it.
- `Wrappers`, `Seqs`, `Numbers`, `Schema`: shared pieces. These are `Option`/`Result`, filtering and reversal, sums and two-place rounding, and the table rows.

Numbers are exact reals. Python's `round(x, 2)` and SQLite's `ROUND(x, 2)` are both modelled by `Numbers.Round2`, a half-up rounding to hundredths. The model makes no claim about binary floating point.

A timestamp is an integer number of seconds, and its calendar day is `time / 86400`. "Today" is a day number passed in by the caller. The password hash check and the insert that may fail are parameters.

## Model

| member | source | states |
|---|---|---|
| Numbers.Round2 | app.py:166-167 | two-place rounding: the result is a whole number of hundredths within 0.005 of the input |
| Numbers.Round2Idempotent | foods_repo.py:112 | rounding an already rounded total changes nothing |
| Numbers.SqlSum | users.py:46-47 | SQL `SUM` over a column is NULL exactly when every value is NULL, and otherwise the sum with NULLs counted as 0 |
| Numbers.SumByPermutation | app.py:160-162 | a sum over rows does not depend on their order: two sequences with the same multiset have the same sum |
| Seqs.Reverse | app.py:137 | `reversed` keeps the length and the members, and puts element i at position n-1-i |
| Users.GetUserById | users.py:3-11 | fails (the `ValueError`) exactly when no user row has the id; otherwise returns a row of the table with that id |
| Users.GetUserByUsername | users.py:13-19 | fails exactly when no user row has the username; otherwise returns a row with that username |
| Users.GetProfilePicture | users.py:37-40 | None when no row has the id; otherwise the picture column of the row the id lookup returns |
| Users.UpdateProteinTarget | users.py:25-27 | only the protein target of rows with the id changes; every other column, row and table is unchanged |
| Users.UpdateCalorieTarget | users.py:29-31 | only the calorie target of rows with the id changes; everything else is unchanged |
| Users.UpdateProfilePicture | users.py:33-35 | only the picture of rows with the id changes; everything else is unchanged |
| Users.SetProteinThenGet | users.py:25-27 | after setting the protein target of an existing user, looking the user up shows the new target |
| Users.SetCalorieThenGet | users.py:29-31 | after setting the calorie target of an existing user, looking the user up shows the new target |
| Users.SetPictureThenGet | users.py:33-40 | after storing a picture for an existing user, `get_profile_picture` returns it |
| Users.NutritionStats | users.py:42-53 | rows strictly ascending by day, each day in the window and one the user ate on; each total is the rounded SQL sum of that user's events that day; every eating day of the user in the window has a row |
| UsersFacts.StatsMeetsSpec | users.py:42-53 | the statistics query meets the independent per-day specification: ascending, one exact group row per eating day, every eating day from today-days on covered |
| UsersFacts.StatsUnique | users.py:42-53 | the specification has exactly one solution, the query's result, so it fully determines the query's result |
| UsersFacts.AscendingSameDays | users.py:52 | two strictly ascending row lists with the same set of days have the same days position by position |
| UsersFacts.StatsIgnoreOtherUsers | users.py:49 | adding another user's event does not change a user's statistics |
| FoodsRepo.GetUserIngredients | foods_repo.py:4-5 | exactly the ingredient rows owned by the user, each as many times as the table holds it |
| FoodsRepo.GetUserIngredientsSnoc | foods_repo.py:4-5 | the listing is in table order: an empty table lists nothing, and a newly inserted row comes last exactly when the user owns it |
| FoodsRepo.GetIngredient | foods_repo.py:7-9 | None exactly when no ingredient row has both the id and the owner; otherwise such a row |
| FoodsRepo.UpdateIngredient | foods_repo.py:17-21 | rows that match both the id and the owner get the new name and values; all other rows and tables are unchanged |
| FoodsRepo.DeleteIngredient | foods_repo.py:23-25 | every link to the ingredient is removed, whoever owns it, and every other link keeps its multiplicity; exactly the caller's rows with that id leave the ingredients table, every other row keeps its multiplicity; nothing else changes |
| FoodsRepo.UpdateFood | foods_repo.py:34-38 | rows that match both the id and the owner get the new name and class; everything else is unchanged |
| FoodsRepo.DeleteFood | foods_repo.py:40-42 | every link of the food is removed and every other link keeps its multiplicity; exactly the caller's rows with that id leave the foods table, every other row keeps its multiplicity; other tables are unchanged |
| FoodsRepo.GetFood | foods_repo.py:44-46 | None exactly when no food row has both the id and the owner; otherwise such a row |
| FoodsRepo.AddFoodIngredient | foods_repo.py:59-63 | appends exactly one link with the given food, ingredient and quantity |
| FoodsRepo.DeleteFoodIngredients | foods_repo.py:65-66 | removes exactly the links of the food; every other link keeps its multiplicity |
| FoodsRepo.SumTotals | foods_repo.py:110-111 | the summing loop computes Σ protein × qty and Σ calories × qty over the joined rows, with NULL value as 0 and NULL quantity as 1 |
| FoodsRepo.UpdateFoodTotals | foods_repo.py:103-112 | only the totals of foods with the id change, to the rounded join sums; every other row and table is unchanged |
| FoodsRepo.UnlikeFood | foods_repo.py:72-73 | the (user, food) like is gone and every other like keeps its multiplicity |
| FoodsRepo.RecordEaten | foods_repo.py:83-87 | appends exactly one eaten row stamped with the current time |
| FoodsRepoFacts.RecordEatenAddsToIntake | foods_repo.py:83-100 | after recording a meal, the eater's intake for that day is the rounded sum of the day's earlier rows plus the meal's protein and calories |
| FoodsRepoFacts.RecordEatenLeavesOthers | foods_repo.py:83-100 | recording a meal leaves every other user's daily intake and statistics unchanged |
| FoodsRepoFacts.RecordEatenIsNewest | foods_repo.py:83-90 | when the user's earlier rows are older, the recorded meal is the first row the user's listing returns |
| FoodsRepo.SortByTimeDesc | foods_repo.py:90 | `ORDER BY time DESC`: a permutation of the input, newest first |
| FoodsRepo.GetUserEaten | foods_repo.py:89-90 | min(limit, number of the user's rows) rows, all the user's, newest first, and no omitted row of the user is newer than a returned one; a negative limit returns all; no row comes back more often than the user has it |
| FoodsRepo.GetUserDailyIntake | foods_repo.py:92-100 | both totals NULL when the user ate nothing today; otherwise each is the rounded sum of that user's values today |
| FoodsRepoFacts.TotalsMatchComposition | foods_repo.py:104-111 | the join sum equals Σ over the food's links of (the linked ingredient's value, NULL as 0) × (quantity, NULL as 1), given unique ingredient ids |
| FoodsRepoFacts.AddLinkAddsContribution | foods_repo.py:59-63 | adding one link raises the food's nutrient sum by exactly that ingredient's value × quantity |
| FoodsRepoFacts.UpdateFoodTotalsIdempotent | foods_repo.py:103-112 | recomputing the totals twice gives the same database as once |
| FoodsRepoFacts.NoLinksZeroTotals | foods_repo.py:105-112 | a food without links gets totals 0 |
| FoodsRepoFacts.ScenarioTwoAndAHalfUnits | foods_repo.py:103-112 | 2.5 units of a 10 g / 100 kcal ingredient store totals 25 and 250 |
| FoodsRepoFacts.DeleteIngredientEffect | foods_repo.py:23-25 | afterwards the owner's lookup finds nothing, no link references the ingredient, and foods and the eaten log are untouched |
| FoodsRepoFacts.DeleteFoodEffect | foods_repo.py:40-42 | afterwards the owner's lookup finds nothing, no link references the food, and the eaten log is untouched |
| FoodsRepoFacts.UpdateIngredientThenGet | foods_repo.py:7-21 | after an owned update, the owner's lookup returns the new name and values |
| FoodsRepoFacts.IntakeMatchesStats | foods_repo.py:92-100 | on a day the user ate, today's intake equals today's row of the per-day statistics |
| FoodsRepoFacts.IntakeIgnoresOtherRows | foods_repo.py:97-99 | an event of another user or another day does not change today's intake |
| Foods.FoodJoinNonEmpty | foods.py:47-49 | a food has join rows exactly when one of its links points at an existing ingredient |
| Foods.ListedFoods | foods.py:44-51 | a food appears in the listing exactly when it exists and has a link to an existing ingredient (inner join) |
| Foods.GroupRowsSpec | foods.py:53-68 | one entry per distinct food id, with name and class from that food's first row, and its ingredients are exactly its rows in row order |
| Foods.GroupRowsCount | foods.py:63-68 | the entries hold as many ingredient entries in total as there are rows |
| Foods.NewLinks | foods.py:34-40 | a link for every ingredient whose submitted quantity is > 0, carrying that quantity, and for no other |
| Foods.NewLinksFollowRequested | foods.py:34-40 | the inserted links are, position by position, one link per ingredient with a positive submitted quantity, in table order, so no ingredient is linked twice or skipped |
| Foods.CreateFood | foods.py:25-40 | appends the new food row with no owner and no totals, and appends exactly the positive-quantity links |
| Foods.DeleteFoodAnyOwner | foods.py:79-81 | removes every link of the food and every row with that id from the foods table, with no owner check; every other link and food keeps its multiplicity |
| Foods.DeleteIngredientAnyOwner | foods.py:87-89 | removes every link to the ingredient and every row with that id from the ingredients table, with no owner check; every other link and ingredient keeps its multiplicity |
| FoodsFacts.CreatedFoodListed | foods.py:25-51 | a newly created food is listed exactly when at least one submitted quantity was positive |
| FoodsFacts.DeleteFoodUnlists | foods.py:79-81 | a deleted food never appears in the listing |
| App.RawSum | app.py:57-59 | the filter's running total is undefined exactly when some item has a NULL value or quantity; otherwise it is the sum of value times quantity over the items |
| App.SumValues | app.py:55-60 | fails exactly when some item has a NULL operand; otherwise the sum of value times quantity over the items, rounded half up to hundredths |
| AppFacts.SumValuesMatchesStoredTotals | app.py:55-60 | for a food's joined rows without NULLs, the filter's value equals the rounded composition sum, which is the total `update_food_totals` stores |
| AppFacts.SumValuesNullFails | app.py:59 | one NULL operand makes the whole filter fail |
| App.UpdateProtein | app.py:64-73 | an input that is missing or outside 1..1000000 changes nothing; a valid one is stored in every row with the user's id, which the lookup then shows; every other column of those rows, every other user and every other table is untouched |
| App.UpdateCalories | app.py:77-86 | the same guard and effect for the calorie target; only the calorie column of the user's rows changes |
| AppFacts.ProteinTargetsStayInRange | app.py:66-71 | if every stored target is absent or within 1..1000000, it stays so after a protein update |
| AppFacts.CalorieTargetsStayInRange | app.py:79-84 | the same invariant for a calorie update |
| App.Strip | app.py:92 | `str.strip`: the result is a contiguous piece of the input with only whitespace removed around it, and neither end of a non-empty result is whitespace |
| AppFacts.StripIdempotent | app.py:92 | stripping twice equals stripping once |
| App.UpdateGoals | app.py:90-100 | rejects exactly when the stripped text is longer than 1000; otherwise saves the stripped text |
| AppFacts.BlankGoalsSaveEmpty | app.py:92-98 | all-whitespace goals save the empty string |
| AppFacts.GoalsResubmit | app.py:92-98 | submitting the saved goals again saves the same text |
| App.UploadPicture | app.py:119-133 | the picture is saved exactly when a file was sent, its name ends in ".jpg" and it is at most 100 KiB; otherwise the database is unchanged; when saved, the picture column of the rows with the user's id becomes the upload and every other column, user and table is untouched (so nothing changes for an absent user) |
| App.CountHits | app.py:163 | the number of rows whose protein reaches the target; hence 0 exactly when no row reaches it and all rows exactly when every row does |
| AppFacts.CountHitsPermutation | app.py:163 | the hit count does not depend on row order |
| AppFacts.HitsAntitone | app.py:163 | raising the target never increases the hit count |
| App.Summarize | app.py:149-170 | all zeros for no rows; total days is the number of rows, not the window size; hit days are at most total days; each average is a whole number of hundredths within 0.005 of sum/rows, NULLs as 0; hit days is the number of rows whose protein reaches the target |
| AppFacts.SummarizeOrderFree | app.py:160-167 | the summary does not depend on the order of the rows |
| AppFacts.NoTargetEveryDayHits | app.py:149-163 | with no target (NULL or 0) every day with non-negative protein counts as a hit |
| AppFacts.AveragesWithinDailyRange | app.py:166-167 | when every day's protein lies in one range and every day's calories in another, each rounded average lies within half a hundredth of its own range |
| AppFacts.SummaryScenario | app.py:147-170 | days of 160 g/2000 kcal and 100 g/NULL kcal with target 150 summarize to 1000 kcal, 130 g, 1 hit of 2 days |
| App.UserSummary30 | app.py:147-151 | fails exactly when the user does not exist; otherwise total days is the number of rows the 30-day statistics return, hit days the number of those rows reaching the user's protein target, and each average is within 0.005 of the mean of those rows |
| App.LastDayIndex | app.py:173 | the position of the last row with the day, or -1 exactly when there is none |
| App.LookupLast | app.py:173 | the dict comprehension keeps the last row of each day |
| App.LookupMissing | app.py:178 | a day without a row maps to the zero placeholder for that day |
| App.FillMissingDays | app.py:172-179 | exactly `days` rows (none for days ≤ 0), whose days run consecutively up to today, each being the input's row for that day or the placeholder |
| App.FillMissingDaysLoop | app.py:172-179 | the loop with its lookup dict computes the same rows as the declarative definition |
| App.BuildLookup | app.py:173 | `lookup.get(d, placeholder)` on the built dict agrees, for every day, with the last-row-wins lookup over the rows |
| AppFacts.FillIgnoresRowOrder | app.py:173-178 | with distinct days, two inputs with the same rows in any order fill identically |
| AppFacts.FillDropsOutsideRows | app.py:176-178 | a row dated outside the window never appears in the output |
| App.Summary7 | app.py:136-137 | the 7-day series always has 7 rows |
| AppFacts.Summary7IgnoresReversal | app.py:137 | reversing the statistics before filling has no effect |
| AppFacts.Summary7Rows | app.py:135-137 | row i is day today-6+i; it is the user's rounded totals for that day when they ate, and the zero placeholder otherwise |
| App.Register | app.py:193-217 | each rejection is reported exactly when its check is the first one to fail, in the order missing field, username over 30, password mismatch, length outside 6..50; the account is created exactly when all checks pass and the insert succeeds, and "already taken" exactly when they pass and it does not |
| AppFacts.RegisterChecksBeforeCreating | app.py:193-210 | when a check fails, the insert's outcome cannot affect the result, and no account is created |
| App.LoginAsWritten | app.py:222-239 | as written: an unknown (stripped) username makes the lookup raise, so login crashes exactly when no user has it |
| AppFacts.LoginAsWrittenCrashes | app.py:229-230 | with no users, every login attempt crashes instead of reporting wrong credentials |
| App.Login | app.py:222-239 | corrected: never crashes; logs in exactly when the stripped username exists and the hash check accepts the password, as that user |
| AppFacts.LoginCorrectionIsLocal | app.py:229-232 | the correction only turns the crash into "wrong username or password" and agrees with the original everywhere else |

## Left out

- db.py (connection, commit, close), auth.py (session, CSRF, `abort`), seed.py (random seed data), Flask routing, templates, flash messages, redirects and the request-timing hooks: framework plumbing with no data logic.
- Password hashing: `check_password_hash` is the `checkHash` parameter of `App.Login`. `generate_password_hash` has no counterpart, because the hash never affects which branch is taken.
- The clock: `date.today()`, `date('now','localtime')` and `datetime('now')` become a day number or time parameter. The difference between local time and UTC is not modelled; a day is `time / 86400`.
- Floating point: values are exact reals, and `round`/`ROUND` are one half-up two-place rounding. Ties and binary representation errors of IEEE doubles are not modelled.
- Request parsing: `request.form.get(..., type=int)` and `float(...)` appear as already-parsed inputs, either `Option<int>` or a map of quantities. A `float()` that raises on a malformed form field is not modelled.
- `create_user` (users.py:21-23) and `Users` row insertion: `App.Register` takes the insert's outcome as the `created` parameter. The row's id comes from SQLite, and the schema that would decide whether the insert fails is not part of this model.
- App.Register: the "Username already taken" branch (app.py:212-214) is reached only when `create_user` returns None. `db.execute` returns the last row id, so a duplicate name would raise, if the schema forbids duplicates, rather than take that branch. The model keeps the branch as written.
- `add_ingredient`, `add_food`, `like_food` and the ingredient form in `all_foods` (foods.py:14-23): plain inserts whose new id and constraints come from the schema, which is not part of this model. The food form is modelled, with the new id as a parameter of `Foods.CreateFood`.
- `get_food_ingredients`, `get_food_nutrients`, `get_liked_foods` and `get_all` (foods_repo.py:48-57, 75-80, 115-125): read-only queries that no modelled operation depends on. Their sibling join is `FoodsRepo.FoodJoin`. For `get_all`, SQL leaves the order of rows with equal `f.id` unspecified.
- `index` (app.py:30-53) is not modelled. It reads the daily intake through `get_user_daily_intake` (app.py:35), which is `FoodsRepo.GetUserDailyIntake`. It also calls `foods_repo.get_user_eaten_today` (app.py:36) and `users.get_user_goals` (app.py:37), and neither is defined in foods_repo.py or users.py, so the page cannot be modelled past those calls. Its `if not user` check (app.py:39-42) is dead in the same way as the login check under "## Findings": `get_user_by_id` raises instead of returning nothing (users.py:9-10). That second instance is left out, because the page fails at the undefined calls before reaching it.
- `logout` in app.py: session handling only.
- Foods.CreateFood: the new row is `Food(newId, None, name, category, None, None, None)`. This assumes that the schema gives NULL to every column the INSERT at foods.py:28-31 leaves out: `user_id`, `is_public` and the totals. The schema is not part of this model, so a column default other than NULL is not modelled.
- `update_user_goals` (app.py:98) is called, but it is not defined in users.py. The model therefore stops at the value to be saved, `App.GoalsOutcome`.
- App.UploadPicture: the profile page's first `get_user_by_id` (app.py:117), which raises for a missing session user, is not modelled. The upload assumes a logged-in user. Rendering the summaries afterwards is covered by `App.UserSummary30` and `App.Summary7`.
- App.SumValues: the filter's default quantity 1.0 (app.py:59) is not modelled. The model assumes every item carries a `quantity` key, as the ingredient entries built at foods.py:63-68 do. The templates that apply the filter are not part of this model. A NULL quantity therefore fails like a NULL value.
- FoodsRepo.DeleteFood: the model has both DELETE statements succeed. db.py:8 turns foreign keys on, and each `execute` commits on its own (db.py:14-19). So if the second DELETE failed, for example on a food still referenced by Eaten or Likes, the links would stay deleted and the food row would stay. The schema that decides this is not part of this model.
- FoodsRepo.DeleteIngredient: the model has both statements succeed. A failing second DELETE (foreign keys are on, db.py:8) would leave the links deleted and the ingredient row present, because the first DELETE has already committed (db.py:14-19).
- Foods.DeleteFoodAnyOwner: as for `FoodsRepo.DeleteFood`. A food row still referenced by Eaten or Likes could make the second DELETE fail after its links were already removed and committed.
- Foods.DeleteIngredientAnyOwner: as for `FoodsRepo.DeleteIngredient`. Every statement is modelled as succeeding, and the partial-commit path is not modelled.
- Users.NutritionStats: `days` is a natural number, because callers pass 7 and 30. A negative day count is not modelled.
- The listing query orders by `f.id`. The model lists foods in table order and links in table order, which matches `ORDER BY f.id` when ids increase with insertion order. The order of ingredient rows within one food is not fixed by SQL.

Where the code and its design description disagree, the model follows the code:
- `foods.py` creates and deletes foods without recomputing totals.
- The statistics window includes today-`days` itself, so it spans `days`+1 calendar days, and it has no upper bound on the day.
- `total_days` counts days with data, not the window size.

## Findings

| source | as written | input that shows it | evidently intended | confidence | as-written member | corrected member |
|---|---|---|---|---|---|---|
| app.py:229-230 with users.py:17-18 | `get_user_by_username` raises `ValueError` when no row matches, so `login`'s `if not user` check is dead and an unknown username crashes the request | an empty Users table and any username, with any password | an unknown username is reported as "Wrong username or password" | high; not executed | App.LoginAsWritten, AppFacts.LoginAsWrittenCrashes | App.Login, AppFacts.LoginCorrectionIsLocal |
