/**
 * The stop list of `renderStops`: the stops sorted by `order`, filtered by the
 * "hide visited" switch and the search box, and turned into one card each or
 * into the "No stops found" placeholder.
 */
module StopList {
  import opened Values
  import opened Text
  import opened Tours
  import opened Navigation

  /* ---------- ordering ---------- */

  const MissingOrder := 999

  /** `stop.order ?? 999`. */
  function SortKey(s: Stop): int {
    Nullish(s.order, MissingOrder)
  }

  predicate SortedByKey(s: seq<Stop>) {
    forall i, j :: 0 <= i < j < |s| ==> SortKey(s[i]) <= SortKey(s[j])
  }

  /** Places `x` before the first element whose key is not smaller, so it stays ahead of equal keys that came later in the input. */
  function Insert(x: Stop, t: seq<Stop>): (r: seq<Stop>)
    ensures |r| == |t| + 1
  {
    if t == [] || SortKey(x) <= SortKey(t[0]) then [x] + t
    else [t[0]] + Insert(x, t[1..])
  }

  /**
   * `stops.slice().sort((a, b) => (a.order ?? 999) - (b.order ?? 999))`: a
   * stable sort by key on a copy, so the tour's own list keeps its order.
   */
  function SortByOrder(s: seq<Stop>): seq<Stop> {
    if s == [] then [] else Insert(s[0], SortByOrder(s[1..]))
  }

  lemma {:induction false} InsertSorted(x: Stop, t: seq<Stop>)
    requires SortedByKey(t)
    ensures SortedByKey(Insert(x, t))
  {
    if t != [] && SortKey(x) > SortKey(t[0]) {
      InsertSorted(x, t[1..]);
      var rest := Insert(x, t[1..]);
      InsertMultiset(x, t[1..]);
      forall k | 0 <= k < |rest| ensures SortKey(t[0]) <= SortKey(rest[k]) {
        assert rest[k] in multiset(rest);
        if rest[k] != x {
          assert rest[k] in multiset(t[1..]);
          var m :| 0 <= m < |t[1..]| && t[1..][m] == rest[k];
          assert t[m + 1] == rest[k];
        }
      }
    }
  }

  lemma {:induction false} InsertMultiset(x: Stop, t: seq<Stop>)
    ensures multiset(Insert(x, t)) == multiset(t) + multiset{x}
  {
    if t != [] && SortKey(x) > SortKey(t[0]) {
      InsertMultiset(x, t[1..]);
      assert t == [t[0]] + t[1..];
    }
  }

  /** The sorted list is ordered by key and is a permutation of the input. */
  lemma {:induction false} SortByOrderCorrect(s: seq<Stop>)
    ensures SortedByKey(SortByOrder(s))
    ensures multiset(SortByOrder(s)) == multiset(s)
  {
    if s != [] {
      SortByOrderCorrect(s[1..]);
      InsertSorted(s[0], SortByOrder(s[1..]));
      InsertMultiset(s[0], SortByOrder(s[1..]));
      assert s == [s[0]] + s[1..];
    }
  }

  /** The stops of `s` whose key is `k`, in their order in `s`. */
  function WithKey(s: seq<Stop>, k: int): seq<Stop> {
    if s == [] then []
    else (if SortKey(s[0]) == k then [s[0]] else []) + WithKey(s[1..], k)
  }

  lemma {:induction false} InsertWithKey(x: Stop, t: seq<Stop>, k: int)
    ensures WithKey(Insert(x, t), k) == (if SortKey(x) == k then [x] else []) + WithKey(t, k)
  {
    var r := Insert(x, t);
    if t == [] || SortKey(x) <= SortKey(t[0]) {
      assert r == [x] + t;
      assert r[1..] == t;
    } else {
      assert r == [t[0]] + Insert(x, t[1..]);
      assert r[1..] == Insert(x, t[1..]);
      InsertWithKey(x, t[1..], k);
      assert WithKey(t, k) == (if SortKey(t[0]) == k then [t[0]] else []) + WithKey(t[1..], k);
      if SortKey(t[0]) == k {
        assert SortKey(x) != k;
      }
    }
  }

  /** Stability: for every key, the stops with that key appear in the sorted list in their input order. */
  lemma {:induction false} SortByOrderStable(s: seq<Stop>, k: int)
    ensures WithKey(SortByOrder(s), k) == WithKey(s, k)
  {
    if s != [] {
      SortByOrderStable(s[1..], k);
      InsertWithKey(s[0], SortByOrder(s[1..]), k);
    }
  }

  lemma {:induction false} WithKeyNone(s: seq<Stop>, k: int)
    requires forall i :: 0 <= i < |s| ==> SortKey(s[i]) != k
    ensures WithKey(s, k) == []
  {
    if s != [] {
      WithKeyNone(s[1..], k);
    }
  }

  lemma WithKeyHead(s: seq<Stop>)
    requires s != []
    ensures WithKey(s, SortKey(s[0])) != []
  {
  }

  /** Two key-sorted lists that agree on the stops of every key are the same list. */
  lemma {:induction false} SortedUnique(a: seq<Stop>, b: seq<Stop>)
    requires SortedByKey(a) && SortedByKey(b)
    requires forall k :: WithKey(a, k) == WithKey(b, k)
    ensures a == b
    decreases |a| + |b|
  {
    if a == [] || b == [] {
      if b != [] {
        WithKeyHead(b);
        assert false;
      } else if a != [] {
        WithKeyHead(a);
        assert false;
      }
    } else {
      var ka, kb := SortKey(a[0]), SortKey(b[0]);
      if ka < kb {
        WithKeyNone(b, ka);
        assert false;
      } else if kb < ka {
        WithKeyNone(a, kb);
        assert false;
      }
      assert WithKey(a, ka) == [a[0]] + WithKey(a[1..], ka);
      assert WithKey(b, ka) == [b[0]] + WithKey(b[1..], ka);
      assert WithKey(a, ka) == WithKey(b, ka);
      assert a[0] == WithKey(a, ka)[0] == b[0];
      forall k ensures WithKey(a[1..], k) == WithKey(b[1..], k) {
        assert WithKey(a, k) == WithKey(b, k);
        assert WithKey(a, k) == (if SortKey(a[0]) == k then [a[0]] else []) + WithKey(a[1..], k);
        assert WithKey(b, k) == (if SortKey(b[0]) == k then [b[0]] else []) + WithKey(b[1..], k);
        if k == ka {
          assert WithKey(a[1..], k) == WithKey(a, k)[1..];
          assert WithKey(b[1..], k) == WithKey(b, k)[1..];
        } else {
          assert WithKey(a[1..], k) == WithKey(a, k);
          assert WithKey(b[1..], k) == WithKey(b, k);
        }
      }
      SortedUnique(a[1..], b[1..]);
      assert a == [a[0]] + a[1..] && b == [b[0]] + b[1..];
    }
  }

  /**
   * `SortByOrder` is the stable sort by `order ?? 999`: any list that is
   * ordered by key and keeps, for every key, the input order of the stops with
   * that key is exactly `SortByOrder(s)`.
   */
  lemma StableSortIsUnique(s: seq<Stop>, r: seq<Stop>)
    requires SortedByKey(r)
    requires forall k :: WithKey(r, k) == WithKey(s, k)
    ensures r == SortByOrder(s)
  {
    SortByOrderCorrect(s);
    forall k ensures WithKey(r, k) == WithKey(SortByOrder(s), k) {
      SortByOrderStable(s, k);
    }
    SortedUnique(r, SortByOrder(s));
  }

  /**
   * Where a stop without `order` lands: after every stop whose order is below
   * 999 (an order of 0 included), before every stop whose order is above 999.
   */
  lemma MissingOrderPlacement(s: seq<Stop>, i: int, j: int)
    requires 0 <= i < |SortByOrder(s)| && 0 <= j < |SortByOrder(s)|
    requires SortByOrder(s)[j].order.None?
    ensures SortByOrder(s)[i].order.Some? && SortByOrder(s)[i].order.value < MissingOrder ==> i < j
    ensures SortByOrder(s)[i].order.Some? && SortByOrder(s)[i].order.value > MissingOrder ==> j < i
  {
    SortByOrderCorrect(s);
  }

  /* ---------- filtering ---------- */

  predicate IsSubsequence(a: seq<Stop>, b: seq<Stop>) {
    a == [] || (b != [] && ((a[0] == b[0] && IsSubsequence(a[1..], b[1..])) || IsSubsequence(a, b[1..])))
  }

  /** `visitedSet.has(stop.id)`: a stop without an id is never visited. */
  predicate IsVisited(s: Stop, visited: seq<string>) {
    s.id.Some? && s.id.value in visited
  }

  /** `[title, subtitle, description, address].join(" ")`. */
  function Haystack(s: Stop): string {
    JoinText(s.title) + " " + JoinText(s.subtitle) + " " + JoinText(s.description) + " " + JoinText(s.address)
  }

  /** A stop matches a normalized query when the query is empty or its normalized searchable text contains the query. */
  predicate MatchesQuery(s: Stop, q: string) {
    q == "" || Contains(Normalize(Haystack(s)), q)
  }

  /** The filter callback of `renderStops`, for an already normalized query `q`. */
  predicate Keep(s: Stop, visited: seq<string>, hideVisited: bool, q: string) {
    !(hideVisited && IsVisited(s, visited)) && MatchesQuery(s, q)
  }

  /** `stops.filter(...)`: exactly the kept stops, in their order. */
  function FilterStops(s: seq<Stop>, visited: seq<string>, hideVisited: bool, q: string): (r: seq<Stop>)
    ensures IsSubsequence(r, s)
  {
    if s == [] then []
    else
      var rest := FilterStops(s[1..], visited, hideVisited, q);
      if Keep(s[0], visited, hideVisited, q) then
        assert ([s[0]] + rest)[1..] == rest;
        [s[0]] + rest
      else rest
  }

  /** A stop is in the filtered list exactly when it is in the input and the callback keeps it. */
  lemma {:induction false} FilterMembers(s: seq<Stop>, visited: seq<string>, hideVisited: bool, q: string)
    ensures forall x :: x in FilterStops(s, visited, hideVisited, q) <==> x in s && Keep(x, visited, hideVisited, q)
    ensures forall x ::
      multiset(FilterStops(s, visited, hideVisited, q))[x] == (if Keep(x, visited, hideVisited, q) then multiset(s)[x] else 0)
  {
    if s != [] {
      FilterMembers(s[1..], visited, hideVisited, q);
      assert s == [s[0]] + s[1..];
      assert multiset(s) == multiset{s[0]} + multiset(s[1..]);
      var rest := FilterStops(s[1..], visited, hideVisited, q);
      if Keep(s[0], visited, hideVisited, q) {
        assert multiset([s[0]] + rest) == multiset{s[0]} + multiset(rest);
      }
    }
  }

  lemma {:induction false} SubsequenceSorted(a: seq<Stop>, b: seq<Stop>)
    requires IsSubsequence(a, b) && SortedByKey(b)
    ensures SortedByKey(a)
    decreases |b|
  {
    if a != [] {
      assert b != [];
      if a[0] == b[0] && IsSubsequence(a[1..], b[1..]) {
        SubsequenceSorted(a[1..], b[1..]);
        SubsequenceBound(a[1..], b[1..], SortKey(b[0]));
      } else {
        SubsequenceSorted(a, b[1..]);
      }
    }
  }

  lemma {:induction false} SubsequenceBound(a: seq<Stop>, b: seq<Stop>, k: int)
    requires IsSubsequence(a, b)
    requires forall j :: 0 <= j < |b| ==> k <= SortKey(b[j])
    ensures forall i :: 0 <= i < |a| ==> k <= SortKey(a[i])
    decreases |b|
  {
    if a != [] {
      if a[0] == b[0] && IsSubsequence(a[1..], b[1..]) {
        SubsequenceBound(a[1..], b[1..], k);
        assert forall i :: 1 <= i < |a| ==> a[i] == a[1..][i - 1];
      } else {
        SubsequenceBound(a, b[1..], k);
      }
    }
  }

  lemma {:induction false} FilterKeepsAll(s: seq<Stop>, visited: seq<string>, hideVisited: bool, q: string)
    requires forall i :: 0 <= i < |s| ==> Keep(s[i], visited, hideVisited, q)
    ensures FilterStops(s, visited, hideVisited, q) == s
  {
    if s != [] {
      FilterKeepsAll(s[1..], visited, hideVisited, q);
    }
  }

  /** The stops `renderStops` shows, in the order it shows them. */
  function VisibleStops(tour: Tour, visited: seq<string>, hideVisited: bool, query: string): seq<Stop> {
    FilterStops(SortByOrder(StopsOf(tour)), visited, hideVisited, Normalize(query))
  }

  /**
   * The visible stops are a subsequence of the stops sorted by `order ?? 999`,
   * so they are in key order; a stop of the tour is visible exactly when it is
   * not hidden as visited and matches the normalized query.
   */
  lemma VisibleStopsCorrect(tour: Tour, visited: seq<string>, hideVisited: bool, query: string)
    ensures var vis := VisibleStops(tour, visited, hideVisited, query);
      IsSubsequence(vis, SortByOrder(StopsOf(tour))) && SortedByKey(vis)
    ensures forall x :: x in VisibleStops(tour, visited, hideVisited, query) <==>
      x in StopsOf(tour) && !(hideVisited && IsVisited(x, visited)) && MatchesQuery(x, Normalize(query))
    ensures forall x ::
      multiset(VisibleStops(tour, visited, hideVisited, query))[x]
      == (if !(hideVisited && IsVisited(x, visited)) && MatchesQuery(x, Normalize(query)) then multiset(StopsOf(tour))[x] else 0)
  {
    var sorted := SortByOrder(StopsOf(tour));
    SortByOrderCorrect(StopsOf(tour));
    FilterMembers(sorted, visited, hideVisited, Normalize(query));
    SubsequenceSorted(VisibleStops(tour, visited, hideVisited, query), sorted);
    forall x ensures x in sorted <==> x in StopsOf(tour) {
      assert x in sorted <==> x in multiset(sorted);
      assert x in StopsOf(tour) <==> x in multiset(StopsOf(tour));
    }
  }

  /** With the query blank after normalizing and "hide visited" off, every stop is shown, sorted. */
  lemma BlankQueryShowsAll(tour: Tour, visited: seq<string>, query: string)
    requires Normalize(query) == ""
    ensures VisibleStops(tour, visited, false, query) == SortByOrder(StopsOf(tour))
  {
    FilterKeepsAll(SortByOrder(StopsOf(tour)), visited, false, "");
  }

  /* ---------- cards ---------- */

  const DefaultTitle := "Tour Stop"
  const DefaultPhotoAlt := "Stop photo"
  const VisitedLabel := "Visited ✓"
  const MarkLabel := "Mark visited"

  /** What one stop card shows. */
  datatype Card = Card(
    stopId: Option<string>,
    photoSrc: string,
    photoAlt: string,
    title: string,
    subtitle: string,
    description: string,
    navHref: string,
    badgeHidden: bool,
    buttonLabel: string)

  /** One entry of the stops grid: the empty-state card or a stop card. */
  datatype GridItem = Placeholder(heading: string, hint: string) | StopCard(card: Card)

  const NoStopsFound := Placeholder("No stops found", "Try a different search, or disable “Hide visited”.")

  /** The view of one stop (see `CardShows`). */
  function CardFor(s: Stop, visited: seq<string>): Card {
    var visitedNow := IsVisited(s, visited);
    Card(
      s.id,
      OrElse(s.photo, ""),
      if Truthy(s.title) then s.title.value + " photo" else DefaultPhotoAlt,
      OrElse(s.title, DefaultTitle),
      OrElse(s.subtitle, OrElse(s.address, "")),
      OrElse(s.description, ""),
      NavUrl(s),
      !visitedNow,
      if visitedNow then VisitedLabel else MarkLabel)
  }

  /** What a stop card shows: defaults for missing text, the visited badge and button label, and the map link. */
  lemma CardShows(s: Stop, visited: seq<string>)
    ensures var c := CardFor(s, visited);
      c.stopId == s.id
      && c.title != ""
      && (Truthy(s.title) ==> c.title == s.title.value && c.photoAlt == s.title.value + " photo")
      && (!Truthy(s.title) ==> c.title == DefaultTitle && c.photoAlt == DefaultPhotoAlt)
      && (Truthy(s.subtitle) ==> c.subtitle == s.subtitle.value)
      && (!Truthy(s.subtitle) ==> c.subtitle == OrElse(s.address, ""))
      && (Truthy(s.description) ==> c.description == s.description.value)
      && (!Truthy(s.description) ==> c.description == "")
      && (Truthy(s.photo) ==> c.photoSrc == s.photo.value)
      && (!Truthy(s.photo) ==> c.photoSrc == "")
      && (c.badgeHidden <==> !IsVisited(s, visited))
      && (c.buttonLabel == VisitedLabel <==> IsVisited(s, visited))
      && (c.buttonLabel == MarkLabel <==> !IsVisited(s, visited))
      && c.navHref == NavUrl(s) && c.navHref != ""
  {
    NavUrlShape(s);
  }

  /** The grid `renderStops` leaves behind. */
  function StopsGrid(tour: Tour, visited: seq<string>, hideVisited: bool, query: string): seq<GridItem> {
    GridOf(VisibleStops(tour, visited, hideVisited, query), visited)
  }

  /** The placeholder for no stops, else one card per stop. */
  function GridOf(vis: seq<Stop>, visited: seq<string>): seq<GridItem> {
    if vis == [] then [NoStopsFound] else MapSeq(CardItem(visited), vis)
  }

  /** The grid entry of one stop. */
  function CardItem(visited: seq<string>): Stop -> GridItem {
    s => StopCard(CardFor(s, visited))
  }

  /** `f` applied to every element, in order, built by appending at the end. */
  function MapSeq<A, B>(f: A -> B, s: seq<A>): seq<B> {
    if s == [] then [] else MapSeq(f, s[..|s| - 1]) + [f(s[|s| - 1])]
  }

  lemma {:induction false} MapSeqLength<A, B>(f: A -> B, s: seq<A>)
    ensures |MapSeq(f, s)| == |s|
  {
    if s != [] {
      MapSeqLength(f, s[..|s| - 1]);
    }
  }

  lemma {:induction false} MapSeqAt<A, B>(f: A -> B, s: seq<A>, i: nat)
    requires i < |s|
    ensures |MapSeq(f, s)| == |s| && MapSeq(f, s)[i] == f(s[i])
  {
    var init := s[..|s| - 1];
    MapSeqLength(f, init);
    MapSeqLength(f, s);
    if i < |init| {
      MapSeqAt(f, init, i);
      assert init[i] == s[i];
    }
  }

  /**
   * The grid is the lone "No stops found" card exactly when no stop is
   * visible; otherwise it holds one stop card per visible stop, in order.
   */
  lemma GridShape(vis: seq<Stop>, visited: seq<string>)
    ensures var grid := GridOf(vis, visited);
      (grid == [NoStopsFound] <==> vis == [])
      && (vis != [] ==> |grid| == |vis| && forall i :: 0 <= i < |vis| ==> grid[i] == StopCard(CardFor(vis[i], visited)))
  {
    if vis != [] {
      MapSeqLength(CardItem(visited), vis);
      forall i | 0 <= i < |vis| ensures GridOf(vis, visited)[i] == StopCard(CardFor(vis[i], visited)) {
        MapSeqAt(CardItem(visited), vis, i);
      }
      assert GridOf(vis, visited)[0].StopCard?;
    }
  }

  /** With "hide visited" on, no card in the grid shows the visited badge or the "Visited ✓" label. */
  lemma HiddenVisitedShowNoBadge(tour: Tour, visited: seq<string>, query: string)
    ensures var grid := StopsGrid(tour, visited, true, query);
      forall i :: 0 <= i < |grid| && grid[i].StopCard? ==> grid[i].card.badgeHidden && grid[i].card.buttonLabel == MarkLabel
  {
    var vis := VisibleStops(tour, visited, true, query);
    GridShape(vis, visited);
    FilterMembers(SortByOrder(StopsOf(tour)), visited, true, Normalize(query));
    forall i | 0 <= i < |vis| ensures !IsVisited(vis[i], visited) {
      assert vis[i] in vis;
      CardShows(vis[i], visited);
    }
  }

  /** With a blank query and "hide visited" off, a tour with stops gets one card per stop. */
  lemma BlankQueryCardPerStop(tour: Tour, visited: seq<string>, query: string)
    requires Normalize(query) == "" && StopsOf(tour) != []
    ensures |StopsGrid(tour, visited, false, query)| == |StopsOf(tour)|
  {
    BlankQueryShowsAll(tour, visited, query);
    GridShape(VisibleStops(tour, visited, false, query), visited);
    SortByOrderCorrect(StopsOf(tour));
    assert |multiset(SortByOrder(StopsOf(tour)))| == |multiset(StopsOf(tour))|;
  }

  /** `renderStops`: clears the grid, then appends the placeholder or one card per visible stop. */
  method RenderStops(tour: Tour, visited: seq<string>, hideVisited: bool, query: string) returns (grid: seq<GridItem>)
    ensures grid == StopsGrid(tour, visited, hideVisited, query)
  {
    var filtered := VisibleStops(tour, visited, hideVisited, query);
    grid := AppendCards(filtered, visited);
  }

  /** The body of `renderStops` after filtering: the placeholder when nothing is left, else one card per stop, appended in order. */
  method AppendCards(filtered: seq<Stop>, visited: seq<string>) returns (grid: seq<GridItem>)
    ensures grid == GridOf(filtered, visited)
  {
    grid := [];
    if |filtered| == 0 {
      grid := grid + [NoStopsFound];
      return;
    }
    for i := 0 to |filtered|
      invariant grid == MapSeq(CardItem(visited), filtered[..i])
    {
      var card := CardFor(filtered[i], visited);
      assert filtered[..i + 1][..i] == filtered[..i];
      grid := grid + [StopCard(card)];
    }
    assert filtered[..|filtered|] == filtered;
  }
}
