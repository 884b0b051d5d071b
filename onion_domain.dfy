/** The domain layer of the recipe application (module `domain` of
    onion/src/main.rs): plain records and their `Display` renderings. */
module OnionDomain {
  import opened Ints
  import opened Decimal

  datatype User = User(id: string, name: string, recipe: seq<i32>)

  datatype Time = Time(hrs: i32, mins: i32)

  datatype Ingredient = Ingredient(id: i32, name: string)

  /** The integer cases of a quantity: a weight in grams or a count. */
  datatype Quantity = Weight(grams: i32) | Amount(count: u8)

  datatype RecipeIngredient = RecipeIngredient(ingredient: Ingredient, quantity: Quantity)

  datatype Recipe = Recipe(
    name: string,
    prepTime: Time,
    cookTime: Time,
    ingredients: seq<RecipeIngredient>,
    instructions: string)

  /** The response aggregate: an ordered list of recipes. */
  datatype Recipes = Recipes(items: seq<Recipe>)

  /** `Recipes::new`: the list is wrapped as it is. */
  function NewRecipes(r: seq<Recipe>): (rs: Recipes)
    ensures |rs.items| == |r|
    ensures forall i :: 0 <= i < |r| ==> rs.items[i] == r[i]
  {
    Recipes(r)
  }

  // ---------------------------------------------------------------------------
  // Facts about integer literals used by the renderings below

  lemma IntLiteralHasNo(n: int, c: char)
    requires !IsDigit(c) && c != '-'
    ensures c !in IntToString(n)
  {
    var s := IntToString(n);
    forall i | 0 <= i < |s|
      ensures s[i] != c
    {
      IntLiteralChars(s, i);
    }
  }

  lemma CanonicalHasNo(s: string, c: char)
    requires IsCanonical(s) && !IsDigit(c)
    ensures c !in s
  {
    forall i | 0 <= i < |s|
      ensures s[i] != c
    {
    }
  }

  // ---------------------------------------------------------------------------
  // Display impls

  /** `Display for Time`: hours, ':', minutes, no padding. */
  function TimeString(t: Time): string {
    IntToString(t.hrs as int) + [':'] + IntToString(t.mins as int)
  }

  /** Reading the text back at its first ':' returns both fields. */
  lemma TimeStringReadBack(t: Time)
    ensures var s := TimeString(t); var k := FirstIndex(s, ':');
      && k < |s| && s[k] == ':'
      && IsIntLiteral(s[..k]) && IntValue(s[..k]) == t.hrs as int
      && IsIntLiteral(s[k + 1..]) && IntValue(s[k + 1..]) == t.mins as int
  {
    var h := IntToString(t.hrs as int);
    var m := IntToString(t.mins as int);
    var s := h + [':'] + m;
    IntLiteralHasNo(t.hrs as int, ':');
    FirstIndexOfSplit(h, m, ':');
    assert s[..|h|] == h && s[|h| + 1..] == m;
  }

  lemma TimeStringInjective(a: Time, b: Time)
    requires TimeString(a) == TimeString(b)
    ensures a == b
  {
    TimeStringReadBack(a);
    TimeStringReadBack(b);
  }

  /** No zero padding: one hour five minutes is "1:5". */
  lemma TimeStringUnpadded()
    ensures TimeString(Time(1, 5)) == "1:5"
    ensures TimeString(Time(0, 45)) == "0:45"
  {
    assert NatToString(45) == NatToString(4) + [DigitChar(5)];
  }

  /** `Display for Quantity`: a weight is its grams followed by 'g', an amount
      is its bare count. */
  function QuantityString(q: Quantity): string {
    match q
    case Weight(n) => IntToString(n as int) + ['g']
    case Amount(n) => NatToString(n as int)
  }

  /** The trailing 'g' tells a weight from an amount, and the digits give the
      number back. */
  lemma QuantityStringReadBack(q: Quantity)
    ensures var s := QuantityString(q);
      && |s| > 0
      && (q.Weight? <==> s[|s| - 1] == 'g')
      && (q.Weight? ==> IsIntLiteral(s[..|s| - 1]) && IntValue(s[..|s| - 1]) == q.grams as int)
      && (q.Amount? ==> IsCanonical(s) && Value(s) == q.count as int)
  {
    var s := QuantityString(q);
    match q
    case Weight(n) =>
      assert s[..|s| - 1] == IntToString(n as int);
    case Amount(n) =>
      assert IsDigit(s[|s| - 1]);
  }

  lemma QuantityStringInjective(p: Quantity, q: Quantity)
    requires QuantityString(p) == QuantityString(q)
    ensures p == q
  {
    QuantityStringReadBack(p);
    QuantityStringReadBack(q);
  }

  lemma QuantityStringHasNoSpace(q: Quantity)
    ensures ' ' !in QuantityString(q)
  {
    match q
    case Weight(n) =>
      IntLiteralHasNo(n as int, ' ');
    case Amount(n) =>
      CanonicalHasNo(QuantityString(q), ' ');
  }

  /** `Display for RecipeIngredient`: "{quantity} x {name}". */
  function IngredientLine(ri: RecipeIngredient): string {
    QuantityString(ri.quantity) + " x " + ri.ingredient.name
  }

  /** The quantity is everything before the first space of the line, and the
      ingredient's name everything after " x ". */
  lemma IngredientLineReadBack(ri: RecipeIngredient)
    ensures var s := IngredientLine(ri); var k := FirstIndex(s, ' ');
      && k + 3 <= |s|
      && s[..k] == QuantityString(ri.quantity)
      && s[k..k + 3] == " x "
      && s[k + 3..] == ri.ingredient.name
  {
    var q := QuantityString(ri.quantity);
    var s := IngredientLine(ri);
    QuantityStringHasNoSpace(ri.quantity);
    assert s == q + [' '] + ("x " + ri.ingredient.name);
    FirstIndexOfSplit(q, "x " + ri.ingredient.name, ' ');
    assert s[..|q|] == q;
  }

  lemma IngredientLineInjective(a: RecipeIngredient, b: RecipeIngredient)
    requires IngredientLine(a) == IngredientLine(b)
    ensures a.quantity == b.quantity && a.ingredient.name == b.ingredient.name
  {
    IngredientLineReadBack(a);
    IngredientLineReadBack(b);
    QuantityStringInjective(a.quantity, b.quantity);
  }

  /** Rust's `collect::<String>()` over string pieces: their concatenation. */
  function Concat(pieces: seq<string>): string {
    if pieces == [] then [] else pieces[0] + Concat(pieces[1..])
  }

  lemma {:induction false} ConcatAppend(a: seq<string>, b: seq<string>)
    ensures Concat(a + b) == Concat(a) + Concat(b)
  {
    if a == [] {
      assert a + b == b;
    } else {
      assert (a + b)[1..] == a[1..] + b;
      ConcatAppend(a[1..], b);
    }
  }

  lemma {:induction false} ConcatEmpty(pieces: seq<string>)
    requires forall i :: 0 <= i < |pieces| ==> pieces[i] != []
    ensures Concat(pieces) == [] <==> pieces == []
  {
    if pieces != [] {
      assert pieces[0] != [];
    }
  }

  /** One entry of a recipe's ingredient block. */
  function IngredientEntry(ri: RecipeIngredient): (s: string)
    ensures |s| > 3 && s[..2] == "- " && s[|s| - 1] == '\n'
  {
    "- " + IngredientLine(ri) + "\n"
  }

  /** The `map` step: one entry per ingredient, in order. */
  function IngredientEntries(ings: seq<RecipeIngredient>): (es: seq<string>)
    ensures |es| == |ings|
    ensures forall i :: 0 <= i < |ings| ==> es[i] == IngredientEntry(ings[i])
  {
    seq(|ings|, i requires 0 <= i < |ings| => IngredientEntry(ings[i]))
  }

  /** The ingredient block inside `Display for Recipe`: one "- {ingredient}\n"
      per ingredient, in order, collected into one string. */
  function IngredientsList(ings: seq<RecipeIngredient>): (s: string)
  {
    Concat(IngredientEntries(ings))
  }

  /** The block is empty exactly when there are no ingredients. */
  lemma IngredientsListEmpty(ings: seq<RecipeIngredient>)
    ensures IngredientsList(ings) == [] <==> ings == []
  {
    ConcatEmpty(IngredientEntries(ings));
  }

  /** The block of a concatenation is the concatenation of the blocks. */
  lemma IngredientsListAppend(a: seq<RecipeIngredient>, b: seq<RecipeIngredient>)
    ensures IngredientsList(a + b) == IngredientsList(a) + IngredientsList(b)
  {
    assert IngredientEntries(a + b) == IngredientEntries(a) + IngredientEntries(b);
    ConcatAppend(IngredientEntries(a), IngredientEntries(b));
  }

  /** Every ingredient contributes exactly its own entry, at its own place. */
  lemma IngredientsListEntryAt(ings: seq<RecipeIngredient>, k: nat)
    requires k < |ings|
    ensures IngredientsList(ings) ==
      IngredientsList(ings[..k]) + IngredientEntry(ings[k]) + IngredientsList(ings[k + 1..])
  {
    assert ings == ings[..k] + ([ings[k]] + ings[k + 1..]);
    IngredientsListAppend(ings[..k], [ings[k]] + ings[k + 1..]);
    IngredientsListAppend([ings[k]], ings[k + 1..]);
    assert IngredientEntries([ings[k]]) == [IngredientEntry(ings[k])];
    assert Concat([IngredientEntry(ings[k])]) == IngredientEntry(ings[k]) + Concat([]);
  }

  function RecipeHead(r: Recipe): string {
    "Recipe: " + r.name + "\n\n    prep time - " + TimeString(r.prepTime)
      + "\n    cook time - " + TimeString(r.cookTime) + "\n\ningredients:\n"
  }

  function RecipeTail(r: Recipe): string {
    "\n\nmethod:\n    " + r.instructions
  }

  /** `Display for Recipe`. */
  function RecipeString(r: Recipe): string {
    RecipeHead(r) + IngredientsList(r.ingredients) + RecipeTail(r)
  }

  /** One recipe's block inside `Display for Recipes`. */
  function RecipeBlock(r: Recipe): string {
    RecipeString(r) + "\n\n"
  }

  function RecipeBlocks(rs: seq<Recipe>): (bs: seq<string>)
    ensures |bs| == |rs|
    ensures forall i :: 0 <= i < |rs| ==> bs[i] == RecipeBlock(rs[i])
  {
    seq(|rs|, i requires 0 <= i < |rs| => RecipeBlock(rs[i]))
  }

  /** `Display for Recipes`: every recipe followed by a blank line, in order. */
  function RecipesString(rs: seq<Recipe>): string {
    Concat(RecipeBlocks(rs))
  }

  /** An empty list renders as the empty string, and only an empty list does. */
  lemma RecipesStringEmpty(rs: seq<Recipe>)
    ensures RecipesString(rs) == [] <==> rs == []
  {
    ConcatEmpty(RecipeBlocks(rs));
  }

  lemma RecipesStringAppend(a: seq<Recipe>, b: seq<Recipe>)
    ensures RecipesString(a + b) == RecipesString(a) + RecipesString(b)
  {
    assert RecipeBlocks(a + b) == RecipeBlocks(a) + RecipeBlocks(b);
    ConcatAppend(RecipeBlocks(a), RecipeBlocks(b));
  }

  lemma RecipesStringSingle(r: Recipe)
    ensures RecipesString([r]) == RecipeString(r) + "\n\n"
  {
    assert RecipeBlocks([r]) == [RecipeBlock(r)];
    assert Concat([RecipeBlock(r)]) == RecipeBlock(r) + Concat([]);
  }

  lemma RecipesStringSnoc(rs: seq<Recipe>, i: nat)
    requires i < |rs|
    ensures RecipesString(rs[..i + 1]) == RecipesString(rs[..i]) + RecipeBlock(rs[i])
  {
    assert rs[..i + 1] == rs[..i] + [rs[i]];
    RecipesStringAppend(rs[..i], [rs[i]]);
    RecipesStringSingle(rs[i]);
  }

  /** The `try_for_each` loop of `Display for Recipes`: it writes one block per
      recipe to the formatter, and what it writes is RecipesString. */
  method FormatRecipes(recipes: Recipes) returns (out: string)
    ensures out == RecipesString(recipes.items)
  {
    var rs := recipes.items;
    out := "";
    var i := 0;
    while i < |rs|
      invariant 0 <= i <= |rs|
      invariant out == RecipesString(rs[..i])
    {
      RecipesStringSnoc(rs, i);
      out := out + RecipeBlock(rs[i]);
      i := i + 1;
    }
    assert rs[..i] == rs;
  }
}
