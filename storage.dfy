/** The origin's durable key/value storage (`localStorage`) and the keys the app uses. */
module Storage {
  import opened Values

  const VisitedKey := "sfsuTour.visitedStopIds"
  const ActiveTourKey := "sfsuTour.activeTourId"
  const ThemeKey := "sfsuTour.theme"

  /**
   * A stored value. `Plain` is text written as it is (a tour id, a theme
   * name); the other three stand for text read back through `JSON.parse`:
   * text the parser rejects, a well-formed value that is not an array, and the
   * JSON array of strings `saveVisitedSet` writes.
   */
  datatype Stored = Plain(text: string) | Unparseable | NotArray | IdArray(ids: seq<string>)

  type Store = map<string, Stored>

  /** `localStorage.getItem(key)`, with `None` for a missing key. */
  function Get(store: Store, key: string): (r: Option<Stored>)
    ensures r.Some? <==> key in store
    ensures r.Some? ==> r.value == store[key]
  {
    if key in store then Some(store[key]) else None
  }

  /** `getItem` read as plain text; a JSON document under a text key is treated like a missing one. */
  function GetText(store: Store, key: string): (r: Option<string>)
    ensures r.Some? <==> key in store && store[key].Plain?
    ensures r.Some? ==> r.value == store[key].text
  {
    if key in store && store[key].Plain? then Some(store[key].text) else None
  }
}
