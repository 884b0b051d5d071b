/** The session, repository and service layers of the recipe application
    (modules `auth`, `repos` and `services` of onion/src/main.rs). The
    repositories fabricate data at random in the original; here each one is an
    arbitrary function supplied by the caller, so every property below holds
    for whatever the repositories return. */
module OnionServices {
  import opened Wrappers
  import opened Ints
  import opened OnionDomain

  /** anyhow::Error, kept opaque: only its message is observable. */
  datatype Error = Error(message: string)

  const SessionInvalid := Error("session is not valid")

  // ---------------------------------------------------------------------------
  // auth

  datatype Session = Session(jwt: string, valid: bool)

  datatype Auth = Auth(session: Session, userId: string)

  /** What the `Authed` trait lets the service observe of a session: its
      validity and the user id it belongs to. */
  datatype Authed = Authed(isValid: bool, id: string)

  /** `impl Authed for Auth`: valid when the session is, with the stored user id. */
  function AuthAsAuthed(a: Auth): (v: Authed)
    ensures v.isValid <==> a.session.valid
    ensures v.id == a.userId
  {
    Authed(a.session.valid, a.userId)
  }

  // ---------------------------------------------------------------------------
  // repos

  datatype UserRepo = UserRepo(get: string -> Result<User, Error>)

  datatype RecipeRepo = RecipeRepo(list: seq<i32> -> Result<seq<Recipe>, Error>)

  /** The ingredient repository has no operations. */
  datatype IngredientRepo = IngredientRepo

  /** A call the service makes on one of its repositories, with its argument. */
  datatype Call = GetUser(id: string) | ListRecipes(ids: seq<i32>)

  // ---------------------------------------------------------------------------
  // services

  datatype Services = Services(food: FoodService)

  datatype FoodService = FoodService(users: UserRepo, recipe: RecipeRepo, ingredient: IngredientRepo) {

    /** The one use case: check the session, fetch the user, fetch the user's
        recipes and wrap them. `calls` lists the repository calls made, in
        order. */
    method GetRecipes(auth: Authed) returns (r: Result<Recipes, Error>, calls: seq<Call>)
      // an invalid session is rejected before any repository is touched
      ensures !auth.isValid ==> r == Failure(SessionInvalid) && calls == []
      // a valid session queries the user repository first, with the session's id
      ensures auth.isValid ==> 1 <= |calls| <= 2 && calls[0] == GetUser(auth.id)
      // a failed user lookup is returned unchanged, and nothing else is called
      ensures auth.isValid && users.get(auth.id).Failure? ==>
        r == Failure(users.get(auth.id).error) && calls == [GetUser(auth.id)]
      // otherwise the recipe repository receives the user's recipe ids, as they are
      ensures auth.isValid && users.get(auth.id).Success? ==>
        calls == [GetUser(auth.id), ListRecipes(users.get(auth.id).value.recipe)]
      // its error is returned unchanged; its list is wrapped unchanged
      ensures auth.isValid && users.get(auth.id).Success? ==>
        var listed := recipe.list(users.get(auth.id).value.recipe);
        (listed.Failure? ==> r == Failure(listed.error)) &&
        (listed.Success? ==> r == Success(Recipes(listed.value)))
      // an error from the service is one of the three above
      ensures r.Failure? ==>
        r.error == SessionInvalid
        || (auth.isValid && users.get(auth.id) == Failure(r.error))
        || (auth.isValid && users.get(auth.id).Success?
            && recipe.list(users.get(auth.id).value.recipe) == Failure(r.error))
    {
      calls := [];
      if !auth.isValid {
        return Failure(SessionInvalid), calls;
      }
      var id := auth.id;
      calls := calls + [GetUser(id)];
      var fetched := users.get(id);
      if fetched.Failure? {
        return Failure(fetched.error), calls;
      }
      var recipeList := fetched.value.recipe;
      calls := calls + [ListRecipes(recipeList)];
      var listed := recipe.list(recipeList);
      if listed.Failure? {
        return Failure(listed.error), calls;
      }
      r := Success(NewRecipes(listed.value));
    }
  }

  /** `Services::new`: the food service over the three repositories. */
  function NewServices(users: UserRepo, recipe: RecipeRepo, ingredient: IngredientRepo): (s: Services)
    ensures s.food.users == users && s.food.recipe == recipe && s.food.ingredient == ingredient
  {
    Services(FoodService(users, recipe, ingredient))
  }

  /** The scenario of the service's unit test: the user repository answers only
      for id "123" with a user owning recipes [1, 2, 3], the recipe repository
      answers only for [1, 2, 3], and the session is valid with id "123". The
      call succeeds with exactly the recipes the repository gave. */
  method TestFoodServiceGetRecipes(fakeUser: User, fakeRecipes: seq<Recipe>)
    returns (res: Result<Recipes, Error>, calls: seq<Call>)
    ensures res == Success(Recipes(fakeRecipes))
    ensures calls == [GetUser("123"), ListRecipes([1, 2, 3])]
  {
    var user := fakeUser.(recipe := [1, 2, 3]);
    var unexpected := Error("unexpected call");
    var mockUsers := UserRepo((id: string) => if id == "123" then Success(user) else Failure(unexpected));
    var mockRecipes := RecipeRepo((ids: seq<i32>) => if ids == [1, 2, 3] then Success(fakeRecipes) else Failure(unexpected));
    var services := NewServices(mockUsers, mockRecipes, IngredientRepo);
    var mockAuth := Authed(true, "123");
    res, calls := services.food.GetRecipes(mockAuth);
  }
}
