# Recipe service, error chaining and iterator exercises — a Dafny model

This project models three small Rust exercises and proves properties of them.

- **onion** — a recipe application in three layers. The domain layer holds `User`, `Recipe`,
  `RecipeIngredient`, `Quantity`, `Time` and the `Recipes` aggregate, each with a text rendering
  (`Display`). The repository layer has `UserRepo.get` and `RecipeRepo.list`. The service layer
  has one use case, `FoodService::get_recipes`: it rejects an invalid session, fetches the user
  named by the session, fetches that user's recipes, and wraps them in `Recipes`.
- **errrr** — an error enum `MyErr` with one message per variant. `failer` always fails, because
  it parses "NaN" as a `u32`. `add(left, right)` returns the sum when `left <= 20`; above 20 it
  fails with "oh dear" wrapped around `failer`'s error.
- **traitors** — a unit struct `F` implementing a trait `Foo`: `foo` squares, `bar` shows
  "hello". `do_thing` dispatches to `foo`. `combine_vecs(v, u)` yields `v`, then `u`, then
  repeats forever.

Files and modules:

- `wrappers.dfy`: `Wrappers` (Option, Result) and `Ints` (the `i32`, `u8`, `u32` newtypes).
- `decimal.dfy`: `Decimal`, the decimal rendering of integers. Rust's `{}` prints an integer this
  way, with no padding and a leading `-` for negatives. The module also has the reference reading
  of a digit string that the rendering is proved against.
- `onion_domain.dfy`: `OnionDomain`, the domain records and their renderings.
- `onion_services.dfy`: `OnionServices`, with the session view, the repositories,
  `FoodService.GetRecipes` and the service's unit-test scenario.
- `errrr.dfy`: `Errrr`.
- `traitors.dfy`: `Traitors`.

How the model is built:

- The repositories produce random data in the original. Here each repository is a datatype
  holding an arbitrary function, and the session is an arbitrary `Authed` value: its validity and
  its user id. So every property of `GetRecipes` holds for whatever the repositories return.
- `GetRecipes` is a method. It also returns the repository calls it made, in order. That lets its
  contract say which repository is called, with which argument, and which one is never called.
- Each rendering is a function. Its partner is a lemma that reads the text back, or a lemma that
  it is injective, or one about how it splits over a concatenation.
- The `try_for_each` loop of `Display for Recipes` is a method with a loop. It is proved to write
  exactly `RecipesString`.
- `combine_vecs` returns an iterator state: `Cycle` over the chained vectors. `Next`, `Nth` and
  `Take` follow the standard library's `Cycle`. Lemmas give item `i` as
  item i mod (length of v plus length of u) of v ++ u.

Where the code and its own tests disagree, the model follows the code.

- The test of `failer` (errrr/src/lib.rs:42) expects `Mystery`, but `failer` returns `MathHard`.
  `FailerIsNotMystery` proves what the code does.
- The test `it_works` (errrr/src/lib.rs:55-60) expects `add(22, 2)` to succeed, but it fails.
  `AddTwentyTwoFails` proves this.

Nothing in the code stops a recipe with no ingredients: such a recipe renders an empty ingredient
block, which `IngredientsListEmpty` states.

## Model

Rows marked "by definition" name a member that models one source expression (a constructor, a
projection, a template or a constant) whose contract, if any, only restates it. Their properties,
where the source has any, are carried by the lemma rows named in them.

| member | source | states |
|---|---|---|
| `Decimal.NatToString` | onion/src/main.rs:312 | the rendering of a natural number is a canonical digit string (non-empty, no leading zero) that reads back as the number |
| `Decimal.NatToStringOfValue` | onion/src/main.rs:312 | every canonical digit string is the rendering of the number it denotes, so the rendering is a bijection onto canonical strings |
| `Decimal.IntToString` | onion/src/main.rs:310-313 | an integer renders as a canonical literal that starts with '-' exactly when the number is negative, and reads back as the number |
| `Decimal.IntToStringOfValue` | onion/src/main.rs:310-313 | every integer literal is the rendering of its value |
| `Decimal.IntToStringInjective` | onion/src/main.rs:310-313 | different integers render differently |
| `OnionDomain.NewRecipes` | onion/src/main.rs:212-215 | by definition: `Recipes::new` keeps the list as it is: same length, same items in the same order |
| `OnionDomain.TimeString` | onion/src/main.rs:310-313 | by definition: the hours, ':', then the minutes, each as `{}` prints an i32; its properties are `TimeStringReadBack`, `TimeStringInjective` and `TimeStringUnpadded` |
| `OnionDomain.TimeStringReadBack` | onion/src/main.rs:310-313 | the first ':' of a rendered time separates the hours literal from the minutes literal, and each reads back as its field |
| `OnionDomain.TimeStringInjective` | onion/src/main.rs:310-313 | different times render differently |
| `OnionDomain.TimeStringUnpadded` | onion/src/main.rs:312 | no zero padding: 1 h 5 min is "1:5" and 0 h 45 min is "0:45" |
| `OnionDomain.QuantityString` | onion/src/main.rs:249-256 | by definition: a weight prints its grams then 'g', an amount its count; its properties are `QuantityStringReadBack`, `QuantityStringInjective` and `QuantityStringHasNoSpace` |
| `OnionDomain.QuantityStringReadBack` | onion/src/main.rs:249-256 | a weight renders as its grams then 'g', an amount as its bare count; a final 'g' occurs exactly for weights, and the digits read back as the number |
| `OnionDomain.QuantityStringInjective` | onion/src/main.rs:249-256 | different quantities render differently |
| `OnionDomain.QuantityStringHasNoSpace` | onion/src/main.rs:252-254 | a rendered quantity has no space in it |
| `OnionDomain.IngredientLine` | onion/src/main.rs:236-240 | by definition: the quantity, " x ", then the ingredient's name; its properties are `IngredientLineReadBack` and `IngredientLineInjective` |
| `OnionDomain.IngredientLineReadBack` | onion/src/main.rs:236-240 | an ingredient line is the quantity up to its first space, then " x ", then the ingredient's name, exactly |
| `OnionDomain.IngredientLineInjective` | onion/src/main.rs:236-240 | equal lines have equal quantities and equal ingredient names |
| `OnionDomain.Concat` | onion/src/main.rs:285 | by definition: `collect::<String>` joins the pieces in order; its properties are `ConcatAppend` and `ConcatEmpty` |
| `OnionDomain.ConcatAppend` | onion/src/main.rs:282-285 | collecting a concatenation of pieces gives the concatenation of the collected parts |
| `OnionDomain.ConcatEmpty` | onion/src/main.rs:282-285 | collecting non-empty pieces gives "" exactly when there are no pieces |
| `OnionDomain.IngredientEntry` | onion/src/main.rs:284 | each entry of the ingredient block starts with "- " and ends with a newline |
| `OnionDomain.IngredientEntries` | onion/src/main.rs:282-284 | by definition: the mapped entries are one per ingredient, in ingredient order |
| `OnionDomain.IngredientsList` | onion/src/main.rs:282-285 | by definition: the ingredient block is the entries collected in order; its properties are `IngredientsListEmpty`, `IngredientsListAppend` and `IngredientsListEntryAt` |
| `OnionDomain.IngredientsListEmpty` | onion/src/main.rs:282-285 | the ingredient block is empty exactly when the recipe has no ingredients |
| `OnionDomain.IngredientsListAppend` | onion/src/main.rs:282-285 | the block of a concatenation of ingredient lists is the concatenation of their blocks |
| `OnionDomain.IngredientsListEntryAt` | onion/src/main.rs:282-285 | the k-th ingredient contributes exactly its entry, between the blocks of the ingredients before and after it |
| `OnionDomain.RecipeString` | onion/src/main.rs:273-300 | by definition: the `Display for Recipe` template, filled with the name, both times, the ingredient block and the method text; no lemma states its whitespace (see Left out) |
| `OnionDomain.RecipeBlock` | onion/src/main.rs:269 | by definition: a recipe's rendering followed by a blank line; `RecipesStringSingle` states it is what one recipe contributes |
| `OnionDomain.RecipeBlocks` | onion/src/main.rs:267-269 | by definition: one block per recipe, in list order, each the recipe's rendering followed by "\n\n" |
| `OnionDomain.RecipesString` | onion/src/main.rs:265-270 | by definition: the recipes' blocks collected in order; its properties are `RecipesStringEmpty`, `RecipesStringAppend`, `RecipesStringSingle` and `RecipesStringSnoc`, and `FormatRecipes` is proved to write it |
| `OnionDomain.RecipesStringEmpty` | onion/src/main.rs:265-270 | `Recipes` renders as "" exactly when it holds no recipe |
| `OnionDomain.RecipesStringAppend` | onion/src/main.rs:265-270 | rendering a concatenation of recipe lists gives the concatenation of their renderings |
| `OnionDomain.RecipesStringSingle` | onion/src/main.rs:269 | one recipe renders as its own rendering followed by "\n\n" |
| `OnionDomain.RecipesStringSnoc` | onion/src/main.rs:267-269 | adding one recipe at the end appends that recipe's block |
| `OnionDomain.FormatRecipes` | onion/src/main.rs:265-270 | the `try_for_each` loop writes exactly the rendering of the whole list |
| `OnionServices.AuthAsAuthed` | onion/src/main.rs:174-183 | by definition: the real session is valid exactly when its stored flag is set, and it reports its stored user id |
| `OnionServices.FoodService.GetRecipes` | onion/src/main.rs:62-72 | an invalid session gives "session is not valid" and calls no repository. A valid one calls the user repository with exactly the session id. A user error is returned unchanged and the recipe repository is never called. Otherwise the recipe repository gets exactly the user's recipe ids. Its error is returned unchanged; its list is wrapped unchanged in `Recipes`. Every error is one of these three |
| `OnionServices.NewServices` | onion/src/main.rs:43-53 | by definition: the food service is built over exactly the three given repositories |
| `OnionServices.TestFoodServiceGetRecipes` | onion/src/main.rs:87-114 | with the test's repositories and a valid session for "123", the calls are get("123") and then list([1, 2, 3]), and the result is the recipe list, wrapped |
| `Errrr.AccumulateU32` | errrr/src/lib.rs:31 | the digit loop of a u32 parse succeeds exactly when every character is a digit and the left-to-right reading fits in a u32, and then yields that reading; a leading non-digit fails with InvalidDigit; it never reports Empty |
| `Decimal.ValueFromIsValue` | errrr/src/lib.rs:31 | reading digits left to right from an accumulator equals the accumulator shifted by the number of digits plus the string's value, so the parse loop computes the number the digits denote |
| `Errrr.ParseU32` | errrr/src/lib.rs:31 | parsing fails with Empty exactly for "", and succeeds exactly for an optional '+' then digits whose value is below 2^32, giving that value |
| `Errrr.ParseNaN` | errrr/src/lib.rs:31 | "NaN" fails to parse, with InvalidDigit |
| `Errrr.MyErrMessage` | errrr/src/lib.rs:18-28 | by definition: the `#[error]` message of each variant; its properties are `MessageIdentifiesVariant`, `OhDearMessageValue` and `DarnItMessageOrder` |
| `Errrr.MessageIdentifiesVariant` | errrr/src/lib.rs:18-28 | the message of a `MyErr` determines its variant, and for `OhDear` its value too |
| `Errrr.OhDearMessageValue` | errrr/src/lib.rs:22-23 | `OhDear(s)` reads "number was invalid `" then s then "`" |
| `Errrr.DarnItMessageOrder` | errrr/src/lib.rs:24-25 | `DarnIt` reads "go ", what was found, " expected ", then what was expected |
| `Errrr.MyErrFromParseIntError` | errrr/src/lib.rs:21 | by definition: a parse error converts into `MathHard` carrying that error |
| `Errrr.Failer` | errrr/src/lib.rs:30-33 | `failer` always fails, always with `MathHard`, whose cause is the InvalidDigit parse error |
| `Errrr.FailerIsNotMystery` | errrr/src/lib.rs:39-43 | `failer`'s error is not `Mystery`, contrary to its unit test |
| `Errrr.Context` | errrr/src/lib.rs:8 | by definition: `.context(msg)` keeps a success and wraps an error under msg; `AddAboveThresholdFails` states its effect inside `add` |
| `Errrr.Add` | errrr/src/lib.rs:6-13 | by definition: the two branches of `add`, with `failer()?` spelled out; its properties are `AddUpToThreshold`, `AddAtThreshold`, `AddAboveThresholdFails`, `AddSucceedsIff` and `AddTwentyTwoFails` |
| `Errrr.AddUpToThreshold` | errrr/src/lib.rs:10-11 | for left at most 20, `add` succeeds with left + right, when the sum fits in i32 |
| `Errrr.AddAtThreshold` | errrr/src/lib.rs:7 | 20 itself is below the threshold: `add(20, r)` is `Ok(20 + r)` |
| `Errrr.AddAboveThresholdFails` | errrr/src/lib.rs:7-9 | for left above 20 and any right, `add` fails; the outer message is "oh dear" and the cause is `MathHard` of the InvalidDigit error |
| `Errrr.AddSucceedsIff` | errrr/src/lib.rs:6-13 | `add` succeeds exactly when left is at most 20, so the `Ok(2)` after `failer()?` is never returned |
| `Errrr.AddTwentyTwoFails` | errrr/src/lib.rs:53-60 | `add(22, 2)` fails, contrary to the unit test `it_works` |
| `Traitors.F.Foo` | traitors/src/lib.rs:26-28 | `foo` returns the square of its argument, which is never negative; the argument must lie within plus or minus 46340, the range whose squares fit in i32 |
| `Traitors.MaxRootIsExact` | traitors/src/lib.rs:26-28 | 46340 squared fits in i32 and 46341 squared does not, so the bound on `foo` is exactly the no-overflow condition |
| `Traitors.F.Bun` | traitors/src/lib.rs:11-15 | by definition: `bun` returns its receiver |
| `Traitors.DoThing` | traitors/src/lib.rs:35-37 | `do_thing` returns the square of `count`, which is what `foo` gives |
| `Traitors.FooEven` | traitors/src/lib.rs:26-28 | `foo(-a) == foo(a)` |
| `Traitors.DoThingEight` | traitors/src/lib.rs:43-47 | `do_thing(F, 8) == 64` |
| `Traitors.F.Bar` | traitors/src/lib.rs:30-32 | by definition: the text `bar`'s boxed value displays; `BarRendersHello` states it |
| `Traitors.BarRendersHello` | traitors/src/lib.rs:30-32 | by definition: `bar` shows "hello" |
| `Traitors.CombineVecs` | traitors/src/lib.rs:18-23 | by definition: a cycle whose original and first pass are both v ++ u; its properties are `CombineVecsNth`, `CombineVecsFirstPass`, `CombineVecsPeriodic`, `CombineVecsTakeOnePass` and `CombineVecsTake` |
| `Traitors.Next` | traitors/src/lib.rs:22 | by definition: `Cycle::next`, taking from the current pass and refilling from the original when it runs out; its property is `NextInPass` |
| `Traitors.Nth` | traitors/src/lib.rs:22 | by definition: `nth` as repeated `next`; its properties are `NthInPass` and `CombineVecsNth` |
| `Traitors.Take` | traitors/src/lib.rs:55 | by definition: `take(n)` collected, stopping early on `None`; its properties are `TakeInPass`, `CombineVecsTake` and `CombineVecsTakeOnePass` |
| `Traitors.NextInPass` | traitors/src/lib.rs:22 | at position p of a pass over a non-empty original, the cycle yields item p mod length and moves to p + 1, or to 1 of a fresh pass |
| `Traitors.NthInPass` | traitors/src/lib.rs:22 | from position p, the item i steps ahead is item (p + i) mod length of the original; an empty original yields nothing |
| `Traitors.TakeInPass` | traitors/src/lib.rs:22 | from position p, taking n items gives n items, item k being (p + k) mod length of the original; an empty original gives none |
| `Traitors.CombineVecsNth` | traitors/src/lib.rs:18-23 | item i of `combine_vecs(v, u)` is item i mod (length of v plus length of u) of v ++ u, and there is no item when both are empty |
| `Traitors.CombineVecsFirstPass` | traitors/src/lib.rs:22 | the first pass yields all of v in order, then all of u in order |
| `Traitors.CombineVecsPeriodic` | traitors/src/lib.rs:22 | the stream repeats with period length of v plus length of u |
| `Traitors.CombineVecsTakeOnePass` | traitors/src/lib.rs:18-23 | one full pass of `combine_vecs(v, u)` is v followed by u, exactly |
| `Traitors.CombineVecsTake` | traitors/src/lib.rs:18-23 | taking n items gives n items when v ++ u is non-empty and none otherwise, item k being item k mod (length of v plus length of u) of v ++ u |
| `Traitors.Sum` | traitors/src/lib.rs:55 | by definition: `sum` of a list; used with `CombineVecsTestChain` |
| `Traitors.Doubled` | traitors/src/lib.rs:55 | by definition: the doubled list has the same length, each item twice the original |
| `Traitors.TakeEightOfTestChain` | traitors/src/lib.rs:51-55 | the first eight items of `combine_vecs([1,2,3,4], [1,2,3,4])` are 1, 2, 3, 4, 1, 2, 3, 4 |
| `Traitors.CombineVecsTestChain` | traitors/src/lib.rs:50-56 | doubling those eight items and summing gives 40 |

## Left out

- `Quantity::Portion(f64)` is not part of the data type. It holds a float, and Rust's float formatting is not modelled.
- Random data is not modelled: `UserRepo::get`, `RecipeRepo::list`, `Auth::new`, and the `Dummy` derives (onion/src/main.rs:129-145, 163-165, 185-190). The repositories and the session are arbitrary inputs instead. `Recipes::fakes` belongs to the same data fabrication.
- The mockall doubles are replaced by functions supplied by the caller. A mock's "expected once" and argument checks become the call log that `GetRecipes` returns.
- `async` and the tokio runtime are dropped: `GetRecipes` is an ordinary sequential method. tokio-bin/src/main.rs is not part of this model. It only joins two sleeps and prints.
- Printing is not modelled: the `println!` of the JWT in `Auth::is_valid` (onion/src/main.rs:176) and of the result in `main` (onion/src/main.rs:22). `main` itself only wires these parts together.
- OnionDomain.RecipeString: the full `Display for Recipe` template (onion/src/main.rs:286-298) is written out, but no lemma states its whitespace. Only the ingredient block inside it, and the role of each recipe's rendering in `Recipes`, are stated.
- Formatter errors are not modelled: every write to a `Formatter` succeeds, so a `Display` impl gives a string rather than a `fmt::Result`.
- anyhow's error chain is not modelled (`chain`, `root_cause`, the source of a ParseIntError). In onion an `anyhow::Error` is an opaque message. In errrr the error `.context` makes is its context message plus the `MyErr` cause.
- The ParseIntError kinds only a signed or zero-rejecting parse produces (NegOverflow, Zero) are absent, since `failer` parses a `u32`.
- `IngredientRepo` has no operations, so it is an empty datatype.
- Errrr.AddUpToThreshold: it requires the i32 sum to fit. The source would panic (debug) or wrap (release) on overflow, and neither is modelled.
- Traitors.F.Foo: it requires the argument to be at most 46340 in size, so that the square fits in i32, for the same reason.
- Traitors.DoThing: it requires `count` to be at most 46340 in size, like `foo`, for the same reason; `do_thing` itself has no such guard.
- Errrr.Add: for left at most 20 it requires the i32 sum to fit. Rust's `left + right` would panic (debug) or wrap (release) on overflow, and neither is modelled. Above 20 the sum is never formed, so that case has no requirement.
- Traitors.F.Bun: `F` has a single value, so the contract "returns its receiver" holds of any result. The calls to `foo(3)` and `bar()` inside it have no observable effect.
