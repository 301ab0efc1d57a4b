/**
 * The controller `main` sets up: the theme, the visited set, the loaded tours
 * and the active tour, the page it renders, and the handlers that change them.
 * Widget state (the search box and the "hide visited" switch) is passed to
 * every handler that re-renders.
 */
module App {
  import opened Values
  import opened Storage
  import opened Tours
  import opened Visited
  import opened StopList
  import opened Theme

  const LoadError := "Could not load tour content. Check stops.json and reload."
  const ResetMessage := "Visited status reset."

  class TourApp {
    var storage: Store
    /** The system colour scheme, fixed for the session. */
    var system: string
    /** The theme on the document (`data-theme`) and the toggle button's label. */
    var theme: string
    var themeLabel: string
    /** The visited set, in insertion order. */
    var visited: seq<string>
    /** Whether the data loaded and yielded at least one tour. */
    var loaded: bool
    var tours: seq<Tour>
    /** The active tour, as an index into `tours`. */
    var active: nat
    var header: string
    var routeHref: string
    var grid: seq<GridItem>
    var status: string

    /**
     * The visited set has no duplicates and is what a reload would read back;
     * the theme is what a reload would apply.
     */
    ghost predicate Valid()
      reads this`storage, this`system, this`theme, this`themeLabel, this`visited, this`loaded, this`tours, this`active
    {
      NoDups(visited)
      && LoadVisited(Get(storage, VisitedKey)) == visited
      && IsConcrete(system)
      && theme == Applied(SavedTheme(GetText(storage, ThemeKey)), system)
      && themeLabel == ButtonLabel(theme)
      && (loaded ==> active < |tours|)
    }

    /** The page after `updateForTour` on the active tour. */
    ghost predicate Shows(hideVisited: bool, query: string)
      reads this`loaded, this`tours, this`active, this`visited, this`header, this`routeHref, this`grid
      requires loaded && active < |tours|
    {
      header == HeaderText(tours[active])
      && routeHref == RouteHref(tours[active])
      && grid == StopsGrid(tours[active], visited, hideVisited, query)
    }

    /**
     * `main`: apply the saved theme, load the visited set, then resolve the
     * fetched dataset (`None` when the fetch or the JSON parse failed). With no
     * tours the status bar shows the load error; otherwise the saved tour (or
     * the first) becomes active and is rendered.
     */
    constructor Boot(store: Store, fetched: Option<Dataset>, systemTheme: string, hideVisited: bool, query: string)
      requires IsConcrete(systemTheme)
      ensures Valid()
      ensures storage == store && system == systemTheme
      ensures theme == Applied(SavedTheme(GetText(store, ThemeKey)), systemTheme)
      ensures visited == LoadVisited(Get(store, VisitedKey))
      ensures loaded <==> fetched.Some? && GetTours(fetched.value) != []
      ensures loaded ==> (tours == GetTours(fetched.value)
        && active == ActiveIndex(tours, GetText(store, ActiveTourKey))
        && Shows(hideVisited, query) && status == "")
      ensures !loaded ==> status == LoadError && tours == [] && grid == []
    {
      storage := store;
      system := systemTheme;
      var t := Applied(SavedTheme(GetText(store, ThemeKey)), systemTheme);
      theme := t;
      themeLabel := ButtonLabel(t);
      var v := LoadVisited(Get(store, VisitedKey));
      visited := v;
      var ts := if fetched.Some? then GetTours(fetched.value) else [];
      if ts == [] {
        loaded := false;
        tours := [];
        active := 0;
        header := "";
        routeHref := "";
        grid := [];
        status := LoadError;
      } else {
        loaded := true;
        tours := ts;
        var i := ActiveIndex(ts, GetText(store, ActiveTourKey));
        active := i;
        header := HeaderText(ts[i]);
        routeHref := RouteHref(ts[i]);
        var cards := RenderStops(ts[i], v, hideVisited, query);
        grid := cards;
        status := "";
      }
      SaveOfLoadIsStable(Get(store, VisitedKey));
    }

    /** `updateForTour(activeTour)`: header, route button and stop list for the active tour. */
    method UpdateForTour(hideVisited: bool, query: string)
      requires loaded && active < |tours|
      modifies this`header, this`routeHref, this`grid
      ensures Shows(hideVisited, query)
    {
      header := HeaderText(tours[active]);
      routeHref := RouteHref(tours[active]);
      RenderGrid(hideVisited, query);
    }

    /** `renderStops(activeTour)`: the stop list alone is drawn again. */
    method RenderGrid(hideVisited: bool, query: string)
      requires loaded && active < |tours|
      modifies this`grid
      ensures grid == StopsGrid(tours[active], visited, hideVisited, query)
    {
      grid := RenderStops(tours[active], visited, hideVisited, query);
    }

    /**
     * The click on a stop card's button: nothing happens for a stop without
     * an id; otherwise the id's membership flips, the set is saved and the
     * stop list is rendered again.
     */
    method ToggleVisited(stop: Stop, hideVisited: bool, query: string)
      requires Valid() && loaded
      modifies this`visited, this`storage, this`grid
      ensures Valid() && loaded && active < |tours|
      ensures !Truthy(stop.id) ==> visited == old(visited) && storage == old(storage) && grid == old(grid)
      ensures Truthy(stop.id) ==> (visited == Toggle(old(visited), stop.id.value)
        && storage == old(storage)[VisitedKey := SaveVisited(visited)]
        && grid == StopsGrid(tours[active], visited, hideVisited, query))
    {
      if !Truthy(stop.id) {
        return;
      }
      SaveToggled(stop.id.value);
      RenderGrid(hideVisited, query);
    }

    /** Flip one id's membership in the visited set and save the set. */
    method SaveToggled(id: string)
      requires Valid()
      modifies this`visited, this`storage
      ensures Valid()
      ensures visited == Toggle(old(visited), id)
      ensures storage == old(storage)[VisitedKey := SaveVisited(visited)]
    {
      visited := Toggle(visited, id);
      storage := storage[VisitedKey := SaveVisited(visited)];
      LoadAfterSave(visited);
    }

    /** The reset button: the set is emptied and saved, and the page is rendered again. */
    method ResetVisited(hideVisited: bool, query: string)
      requires Valid() && loaded
      modifies this`visited, this`storage, this`status, this`header, this`routeHref, this`grid
      ensures Valid() && loaded && active < |tours|
      ensures Shows(hideVisited, query)
      ensures visited == [] && storage == old(storage)[VisitedKey := SaveVisited([])]
      ensures status == ResetMessage
    {
      ClearVisited();
      UpdateForTour(hideVisited, query);
      status := ResetMessage;
    }

    /** Empty the visited set and save it. */
    method ClearVisited()
      requires Valid()
      modifies this`visited, this`storage
      ensures Valid()
      ensures visited == [] && storage == old(storage)[VisitedKey := SaveVisited([])]
    {
      visited := [];
      storage := storage[VisitedKey := SaveVisited([])];
      LoadAfterSave([]);
    }

    /**
     * A change of the tour selector: the tour with that id (or the first tour)
     * becomes active, its id is saved, and the page is rendered again.
     */
    method SelectTour(id: string, hideVisited: bool, query: string)
      requires Valid() && loaded
      modifies this`active, this`storage, this`header, this`routeHref, this`grid
      ensures Valid() && loaded && active < |tours| && Shows(hideVisited, query)
      ensures active == ActiveIndex(tours, Some(id))
      ensures storage == old(storage)[ActiveTourKey := Plain(IdText(tours[active]))]
      ensures tours[active].id.Some? ==> ActiveIndex(tours, GetText(storage, ActiveTourKey)) == active
    {
      Activate(id);
      UpdateForTour(hideVisited, query);
    }

    /** Make the tour with that id (or the first tour) active and save its id. */
    method Activate(id: string)
      requires Valid() && loaded
      modifies this`active, this`storage
      ensures Valid() && loaded && active < |tours|
      ensures active == ActiveIndex(tours, Some(id))
      ensures storage == old(storage)[ActiveTourKey := Plain(IdText(tours[active]))]
      ensures tours[active].id.Some? ==> ActiveIndex(tours, GetText(storage, ActiveTourKey)) == active
    {
      var next := ActiveIndex(tours, Some(id));
      active := next;
      storage := storage[ActiveTourKey := Plain(IdText(tours[next]))];
      if tours[next].id.Some? {
        SelectionSurvivesReload(tours, id);
      }
    }

    /** Any other re-render: the search box or the "hide visited" switch changed. */
    method WidgetsChanged(hideVisited: bool, query: string)
      requires Valid() && loaded
      modifies this`header, this`routeHref, this`grid
      ensures Valid() && loaded && active < |tours| && Shows(hideVisited, query)
    {
      UpdateForTour(hideVisited, query);
    }

    /** The theme button: the other concrete theme is saved and applied. */
    method ToggleTheme()
      requires Valid()
      modifies this`storage, this`theme, this`themeLabel
      ensures Valid()
      ensures theme == NextTheme(CurrentTheme(old(theme), system)) && IsConcrete(theme)
      ensures storage == old(storage)[ThemeKey := Plain(theme)]
    {
      var next := NextTheme(CurrentTheme(theme, system));
      storage := storage[ThemeKey := Plain(next)];
      theme := next;
      themeLabel := ButtonLabel(next);
    }
  }
}
