/** The hydration-gated view of the home page: what it shows for the favorites
    slice, which stays `undefined` (`None`) until persisted data has been loaded. */
module HomePage {
  import opened Wrappers
  import opened Cars
  import FavoritesStore

  /** The one car the page offers to (un)favorite. */
  const TestCar: Car := Car(
    "1", 2023, "Tesla", "Model 3", "Sedan", "", "", "", "",
    [], [], "$50", "", "Kyiv, Ukraine", "", 1000)

  /** Text shown in place of the count until the favorites are known. */
  const CountPlaceholder: string := "..."

  /** The button area holds either a neutral skeleton or the real toggle button,
      which is drawn as "favorited" when `active` holds. */
  datatype Control = Skeleton | ToggleButton(active: bool)

  /** The count area holds either the number of favorites or a placeholder text. */
  datatype CountLabel = Length(n: nat) | Placeholder(text: string)

  /** Everything the page derives from the favorites slice. */
  datatype View = View(isHydrated: bool, active: bool, control: Control, count: CountLabel)

  /** Derives the page's view from the favorites slice. */
  function Render(favorites: Option<seq<Car>>): (v: View)
    ensures v.isHydrated <==> favorites.Some?
    ensures !v.isHydrated ==> !v.active
    ensures favorites.Some? ==>
      (v.active <==> exists i :: 0 <= i < |favorites.value| && favorites.value[i].id == TestCar.id)
    ensures v.control.Skeleton? <==> !v.isHydrated
    ensures v.control.ToggleButton? ==> v.control.active == v.active
    ensures favorites.Some? ==> v.count == Length(|favorites.value|)
    ensures favorites.None? ==> v.count == Placeholder("...")
  {
    var isHydrated := favorites.Some?;
    var active := if isHydrated then FavoritesStore.IsFavorite(favorites.value, TestCar.id) else false;
    View(
      isHydrated,
      active,
      if !isHydrated then Skeleton else ToggleButton(active),
      if isHydrated then Length(|favorites.value|) else Placeholder(CountPlaceholder))
  }

  /** A click on the button toggles the test car in the store. The button exists
      only once the slice is hydrated, so before that nothing can change. Once
      hydrated, the slice is the store's collection. */
  function Click(favorites: Option<seq<Car>>): (r: Option<seq<Car>>)
    ensures r.Some? <==> favorites.Some?
    ensures favorites.Some? ==> Render(r).active == !Render(favorites).active
    ensures favorites.None? ==> r == favorites
  {
    match favorites
    case None => None
    case Some(favs) => Some(FavoritesStore.Toggle(favs, TestCar))
  }

  /** On a unique collection one click moves the count by exactly one: up when the
      test car was not a favorite, down when it was. */
  lemma ClickMovesCountByOne(favs: seq<Car>)
    requires FavoritesStore.Unique(favs)
    ensures Render(Some(favs)).active ==> Render(Click(Some(favs))).count == Length(|favs| - 1)
    ensures !Render(Some(favs)).active ==> Render(Click(Some(favs))).count == Length(|favs| + 1)
  {
    if FavoritesStore.IsFavorite(favs, TestCar.id) {
      FavoritesStore.WithoutPresentLength(favs, TestCar.id);
    }
  }

  /** Clicking twice from an inactive button restores the slice exactly. */
  lemma ClickTwiceFromInactive(favs: seq<Car>)
    requires !Render(Some(favs)).active
    ensures Click(Click(Some(favs))) == Some(favs)
  {
    FavoritesStore.ToggleTwiceAbsent(favs, TestCar);
  }

  /** On a unique slice with an active button, two clicks restore the slice
      exactly when the test car is its last favorite. */
  lemma ClickTwiceFromActive(favs: seq<Car>)
    requires FavoritesStore.Unique(favs)
    requires Render(Some(favs)).active
    ensures Click(Click(Some(favs))) == Some(favs) <==> favs[|favs| - 1] == TestCar
  {
    FavoritesStore.ToggleTwiceRestores(favs, TestCar);
  }

  /** From an empty hydrated store: one click makes the test car a favorite with a
      count of one, a second click removes it again with a count of zero. */
  lemma ClickScenario()
    ensures Render(Click(Some([]))) == View(true, true, ToggleButton(true), Length(1))
    ensures Render(Click(Click(Some([])))) == View(true, false, ToggleButton(false), Length(0))
  {
  }
}
