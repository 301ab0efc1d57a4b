/** The tour data: stops, tours, the two dataset shapes, and which tour is active. */
module Tours {
  import opened Values

  /**
   * One point of interest. Every field may be missing. `lat` and `lng` are
   * present only when the JSON holds a number there, and then hold that
   * number already written as text. `order` is the sort key.
   */
  datatype Stop = Stop(
    id: Option<string>,
    title: Option<string>,
    subtitle: Option<string>,
    description: Option<string>,
    address: Option<string>,
    photo: Option<string>,
    order: Option<int>,
    lat: Option<string>,
    lng: Option<string>,
    navUrl: Option<string>)

  datatype Tour = Tour(
    id: Option<string>,
    name: Option<string>,
    description: Option<string>,
    routeUrl: Option<string>,
    stops: Option<seq<Stop>>)

  /** A dataset member that should be an array: missing, present but not an array, or an array. */
  datatype Field<T> = Absent | NotArray | Array(items: seq<T>)

  /** The parsed JSON document: the multi-tour shape (`tours`) or the legacy flat shape (`stops` and its metadata). */
  datatype Dataset = Dataset(
    tours: Field<Tour>,
    stops: Field<Stop>,
    tourSubtitle: Option<string>,
    tourDescription: Option<string>,
    routeUrl: Option<string>)

  const LegacyTourId := "default"
  const LegacyTourName := "Campus Tour"
  const GenericRouteUrl := "https://www.google.com/maps"
  const GenericHeader := "Self-guided tour"

  /** The stops of a tour, `tour.stops || []`. */
  function StopsOf(t: Tour): seq<Stop> {
    t.stops.GetOr([])
  }

  predicate HasTourList(data: Dataset) {
    data.tours.Array? && |data.tours.items| > 0
  }

  /** The single tour the legacy flat shape stands for. */
  function LegacyTour(data: Dataset): (t: Tour)
    requires data.stops.Array?
    ensures t.id == Some(LegacyTourId)
    ensures StopsOf(t) == data.stops.items
    ensures Truthy(t.name) && (Truthy(data.tourSubtitle) ==> t.name == data.tourSubtitle)
    ensures !Truthy(data.tourSubtitle) ==> t.name == Some(LegacyTourName)
    ensures t.description == Some(OrElse(data.tourDescription, ""))
    ensures t.routeUrl == Some(OrElse(data.routeUrl, ""))
  {
    Tour(Some(LegacyTourId),
         Some(OrElse(data.tourSubtitle, LegacyTourName)),
         Some(OrElse(data.tourDescription, "")),
         Some(OrElse(data.routeUrl, "")),
         Some(data.stops.items))
  }

  /** `getToursFromData`: both dataset shapes resolved to one list of tours; empty when the document has neither. */
  function GetTours(data: Dataset): (r: seq<Tour>)
    ensures HasTourList(data) ==> r == data.tours.items
    ensures !HasTourList(data) && data.stops.Array? ==> r == [LegacyTour(data)]
    ensures r == [] <==> !HasTourList(data) && !data.stops.Array?
  {
    if HasTourList(data) then data.tours.items
    else if data.stops.Array? then [LegacyTour(data)]
    else []
  }

  /** The tour whose id equals the saved id (`t.id === savedTourId`). */
  predicate Matches(t: Tour, saved: Option<string>) {
    saved.Some? && t.id == saved
  }

  /** `tours.find(t => t.id === saved)`, as an index. */
  function FindTour(tours: seq<Tour>, saved: Option<string>): (r: Option<nat>)
    ensures r.Some? ==> r.value < |tours| && Matches(tours[r.value], saved)
    ensures r.Some? ==> forall j :: 0 <= j < r.value ==> !Matches(tours[j], saved)
    ensures r.None? ==> forall j :: 0 <= j < |tours| ==> !Matches(tours[j], saved)
  {
    if tours == [] then None
    else if Matches(tours[0], saved) then Some(0)
    else match FindTour(tours[1..], saved)
      case None => None
      case Some(k) => Some(k + 1)
  }

  /** The active tour, `tours.find(t => t.id === saved) || tours[0]`, as an index. */
  function ActiveIndex(tours: seq<Tour>, saved: Option<string>): (i: nat)
    requires |tours| > 0
    ensures i < |tours|
    ensures (exists j :: 0 <= j < |tours| && Matches(tours[j], saved)) ==>
      Matches(tours[i], saved) && forall j :: 0 <= j < i ==> !Matches(tours[j], saved)
    ensures (forall j :: 0 <= j < |tours| ==> !Matches(tours[j], saved)) ==> i == 0
  {
    FindTour(tours, saved).GetOr(0)
  }

  /** What `localStorage.setItem(key, tour.id)` stores: the id, or the text "undefined" for a tour without one. */
  function IdText(t: Tour): string {
    match t.id
    case Some(s) => s
    case None => "undefined"
  }

  /** Choosing a tour by id and storing its id selects the same tour on the next page load, as long as that tour has an id. */
  lemma SelectionSurvivesReload(tours: seq<Tour>, id: string)
    requires |tours| > 0
    requires tours[ActiveIndex(tours, Some(id))].id.Some?
    ensures ActiveIndex(tours, Some(IdText(tours[ActiveIndex(tours, Some(id))]))) == ActiveIndex(tours, Some(id))
  {
    var i := ActiveIndex(tours, Some(id));
    if !exists j :: 0 <= j < |tours| && Matches(tours[j], Some(id)) {
      assert i == 0;
      assert Matches(tours[0], Some(IdText(tours[0])));
    } else {
      assert Matches(tours[i], Some(IdText(tours[i])));
    }
  }

  /** The link of the "open full route" button. */
  function RouteHref(t: Tour): (href: string)
    ensures href != ""
    ensures Truthy(t.routeUrl) ==> href == t.routeUrl.value
    ensures !Truthy(t.routeUrl) ==> href == GenericRouteUrl
  {
    OrElse(t.routeUrl, GenericRouteUrl)
  }

  /** The header line naming the tour. */
  function HeaderText(t: Tour): (h: string)
    ensures h != ""
    ensures Truthy(t.name) ==> h == t.name.value
    ensures !Truthy(t.name) ==> h == GenericHeader
  {
    OrElse(t.name, GenericHeader)
  }
}
