# Game guesser core, modelled in Dafny

The system asks for a play area and then for items (a title and a shape each),
and guesses which game is being set up. The only game it can recognise is golf
("гольф"). This project models its decision logic from `src/app.ts`:

- `Items.Item` (item.dfy): the immutable item value, a title and a shape. It models the
  `Item` class of src/app.ts:12-28. Its two read-only getters are the datatype's fields.
- `Games.Teams` (game.dfy): the shipped team roster of src/app.ts:3-8.
- `Classifier.GetGameTitle` (classifier.dfy): the guard chain of `getGameTitle`. It takes
  the area, the item map and the team roster, and returns `Some("гольф")` or `None`.
  The guards, in order: a ball ("м'яч") must be present; the roster must not have
  exactly two teams of more than two members; the lower-cased area must be
  "приміщення"; the ball must be "круглий"; and there must be no wooden mallet
  ("дерев'яний молот").
- `LowerCase.ToLower` (lower_case.dfy): the lower-casing the area comparison uses.
- `Games.Game` (game.dfy): the mutable game. It has fields `area`, `items` (a map from
  title to item) and `title`. The constructor installs the optional initial list, then
  classifies once against the shipped roster `Games.Teams`. `AddItem` inserts or
  overwrites one entry. `AddItems` replaces the whole map with `FromEntries` of a list,
  where the last item of a title wins. Neither of them recomputes the title.
  `Valid()` is the invariant that every key is the title of its item.

The title is computed only at construction. So a game created without items, as the
interactive session creates it, keeps the empty title whatever items are added later.
`Games.SessionKeepsEmptyTitle` proves this. The model keeps this behaviour as written.

## Model

| member | source | states |
|---|---|---|
| LowerCase.LowerChar | src/app.ts:38 | the result is never a capital letter; a character that is not a capital is unchanged |
| LowerCase.ToLower | src/app.ts:38 | the result has the input's length and is lower-cased character by character |
| LowerCase.ToLowerIdempotent | src/app.ts:38 | lower-casing twice is the same as lower-casing once |
| LowerCase.ToLowerOfLower | src/app.ts:38 | a string with no capitals is its own lower-cased form |
| Classifier.CountLarge | src/app.ts:35 | for every listing of the roster's keys, each key once and in any order, the count equals the number of member counts above 2 in that listing (the filter-and-length of the source); it is at most the number of entries |
| Classifier.CountAbove | src/app.ts:35 | the number of elements of a list above 2, the source's filter-and-length; at most the list's length |
| Classifier.KeyOrderExists | src/app.ts:35 | every roster has a listing of its keys with each key once, so the tie between `CountLarge` and the filtered length always applies |
| Classifier.ValuesAt | src/app.ts:35 | the member counts of a listing of keys, position by position, as `Object.values` lists them |
| Classifier.FilterLengthIsLargeAmong | src/app.ts:35 | for a listing without repeated keys, the filtered length equals the number of distinct listed keys whose count is above 2 |
| Classifier.FilterLengthIsLargeTeams | src/app.ts:35 | for a listing of exactly the roster's keys, the filtered length equals the number of large teams, whatever the order |
| Classifier.GetGameTitle | src/app.ts:30-43 | the only title the classifier can produce is "гольф" |
| Classifier.GolfExactlyWhen | src/app.ts:33-43 | "гольф" if and only if all four guards pass and there is no mallet; no title if and only if a guard fails or the mallet is present |
| Classifier.NoBallNoTitle | src/app.ts:33 | without the ball key there is no title, whatever the area and roster |
| Classifier.TwoLargeTeamsNoTitle | src/app.ts:34-37 | exactly two large teams give no title |
| Classifier.OutdoorNoTitle | src/app.ts:38 | an area whose lower-cased form is not "приміщення" gives no title |
| Classifier.NotRoundNoTitle | src/app.ts:39 | a ball whose shape is not "круглий" gives no title |
| Classifier.MalletBlocksGolf | src/app.ts:40-43 | with every earlier guard passed, a mallet still gives no title |
| Classifier.AreaCaseInsensitive | src/app.ts:38 | two areas with the same lower-cased form get the same answer |
| Classifier.LowerCasedAreaSameTitle | src/app.ts:38 | lower-casing the area first never changes the answer |
| Classifier.IndoorIsLower | src/app.ts:38 | "приміщення" lower-cases to itself |
| Classifier.LowerCapitalised | src/app.ts:38 | "Приміщення" lower-cases to "приміщення" |
| Classifier.LowerAllCaps | src/app.ts:38 | "ПРИМІЩЕННЯ" lower-cases to "приміщення" |
| Classifier.TwoOfFourLarge | src/app.ts:35 | the roster {a: 5, b: 6, c: 1, d: 1} has exactly two large teams |
| Games.ShippedRosterThreeLarge | src/app.ts:3-8 | `Games.Teams`, the shipped roster {team1: 1, team2: 10, team3: 20, team4: 7} has three large teams, so the team guard passes |
| Games.FromEntries | src/app.ts:77 | the keys are exactly the list's titles; every key is its item's title; each key maps to the last item of that title |
| Games.EmptyTitleMeansUnclassified | src/app.ts:57 | with `?? ""`, the stored title is "" exactly when the classifier found no title |
| Games.LaterDuplicateWins | src/app.ts:77 | of two items with the same title, only the later one is kept |
| Games.Game.constructor | src/app.ts:50-58 | stores the area; items are those of the list, or empty without one; title is the classifier's answer against the shipped roster, or "" when there is none; no list or an empty list gives title "" |
| Games.Game.AddItem | src/app.ts:72-74 | the item is stored under its title; every other entry is unchanged; area and title are unchanged; the key invariant is kept |
| Games.Game.AddItems | src/app.ts:76-78 | the map becomes the one built from the list (keys are the list's titles, last of a title wins); area and title are unchanged; the key invariant holds |
| Games.GolfScenario | src/app.ts:30-43 | area "Приміщення", a round ball and the shipped roster give "гольф" |
| Games.OutdoorScenario | src/app.ts:38 | the same items in area "вулиця" give no title |
| Games.StrictRosterScenario | src/app.ts:34-37 | the same game with roster {a: 5, b: 6, c: 1, d: 1} gives no title |
| Games.MalletScenario | src/app.ts:40-43 | the same game with a wooden mallet among the initial items gives no title |
| Games.BuildGolfGame | src/app.ts:50-58 | the game constructed in area "Приміщення" with a round ball holds just that ball and has title "гольф" |
| Games.BuildOutdoorGame | src/app.ts:50-58 | the game constructed in area "вулиця" with a round ball has title "" |
| Games.BuildMalletGame | src/app.ts:50-58 | the game constructed indoors with a round ball and a wooden mallet has title "" |
| Games.SessionKeepsEmptyTitle | src/app.ts:86-99 | a game created without items and then given any items one by one keeps title ""; its map is exactly the one `addItems` would build from the same list, so the last item of each title is kept and nothing else |

## Left out

- `startCLI` (src/app.ts:81-112): console prompts, the line reader, event handlers and
  `process.exit` are I/O. Only its sequence of calls on a game is modelled, by
  `Games.SessionKeepsEmptyTitle`. The `./readline` module is not part of this model.
- `LowerCase.ToLower`: covers ASCII letters, the Cyrillic block U+0400 to U+042F and Ґ.
  It is not the full Unicode case mapping of `String.prototype.toLowerCase`. Every
  other character is left unchanged. This includes context-dependent mappings, such as
  the Greek final sigma, and mappings that change the length of a string.
- JavaScript object quirks. The model does not cover keys inherited from the prototype
  of a plain object, such as `"__proto__"` or `"constructor"` used as titles. The
  truthiness test `!items[...]` is modelled as key absence, because an item object is
  always truthy.
- Member counts are integers. Non-integer and `NaN` numbers are not modelled.
- Private `#` fields and getters: the game's fields are plain Dafny fields that are
  read directly.
- `Games.Game.items`: a map value, not a shared object. The `items` getter at
  src/app.ts:64-66 returns the live object, so a reference taken earlier sees later
  `addItem` calls, and writes through that reference reach the game. The model does not
  capture this aliasing. Nothing in the source relies on it.
- The insertion order of keys in the item map is not modelled, because `map` is
  unordered. Nothing in the logic reads it.
