/** `buildStopNavUrl`: the outbound map link of one stop. */
module Navigation {
  import opened Values
  import opened Text
  import opened Uri
  import opened Tours

  const SearchPrefix := "https://www.google.com/maps/search/?api=1&query="
  const DefaultPlace := "San Francisco State University"

  /** An explicit link that is not blank wins over everything else. */
  predicate HasOverride(s: Stop) {
    s.navUrl.Some? && Trim(s.navUrl.value) != ""
  }

  predicate HasCoordinates(s: Stop) {
    s.lat.Some? && s.lng.Some?
  }

  /** The text searched for when there is neither an override nor coordinates: address, else title, else the campus. */
  function SearchText(s: Stop): (t: string)
    ensures t != ""
    ensures Truthy(s.address) ==> t == s.address.value
    ensures !Truthy(s.address) && Truthy(s.title) ==> t == s.title.value
    ensures !Truthy(s.address) && !Truthy(s.title) ==> t == DefaultPlace
  {
    OrElse(s.address, OrElse(s.title, DefaultPlace))
  }

  /** `encodeURIComponent(DefaultPlace)`, written out once (see `SearchQueryEncodes`). */
  const DefaultPlaceQuery := "San" + "%20" + "Francisco" + "%20" + "State" + "%20" + "University"

  /** The encoded search text; the campus fallback uses its encoding written out. */
  function SearchQuery(s: Stop): string {
    if Truthy(s.address) then EncodeComponent(s.address.value)
    else if Truthy(s.title) then EncodeComponent(s.title.value)
    else DefaultPlaceQuery
  }

  /** The query is exactly `encodeURIComponent` of the search text, in every case. */
  lemma SearchQueryEncodes(s: Stop)
    ensures SearchQuery(s) == EncodeComponent(SearchText(s))
  {
    if !Truthy(s.address) && !Truthy(s.title) {
      DefaultPlaceEncoding();
    }
  }

  /** The campus name encodes to `DefaultPlaceQuery`: its words are unreserved and each space becomes `%20`. */
  lemma DefaultPlaceEncoding()
    ensures EncodeComponent(DefaultPlace) == DefaultPlaceQuery
  {
    DefaultPlaceWords();
    EncodeFourWords("San", "Francisco", "State", "University");
  }

  lemma DefaultPlaceWords()
    ensures DefaultPlace == "San" + " " + "Francisco" + " " + "State" + " " + "University"
  {
  }

  lemma EncodeFourWords(w1: string, w2: string, w3: string, w4: string)
    requires forall i :: 0 <= i < |w1| ==> IsUnreserved(w1[i])
    requires forall i :: 0 <= i < |w2| ==> IsUnreserved(w2[i])
    requires forall i :: 0 <= i < |w3| ==> IsUnreserved(w3[i])
    requires forall i :: 0 <= i < |w4| ==> IsUnreserved(w4[i])
    ensures EncodeComponent(w1 + " " + w2 + " " + w3 + " " + w4) == w1 + "%20" + w2 + "%20" + w3 + "%20" + w4
  {
    EncodeUnreservedOnly(w1);
    EncodeUnreservedOnly(w2);
    EncodeUnreservedOnly(w3);
    EncodeUnreservedOnly(w4);
    EncodeSpace();
    EncodeComponentAppend(w1 + " " + w2 + " " + w3 + " ", w4);
    EncodeComponentAppend(w1 + " " + w2 + " " + w3, " ");
    EncodeComponentAppend(w1 + " " + w2 + " ", w3);
    EncodeComponentAppend(w1 + " " + w2, " ");
    EncodeComponentAppend(w1 + " ", w2);
    EncodeComponentAppend(w1, " ");
  }

  /** The override, else a search on the coordinates, else a search on the encoded text (see `NavUrlShape`). */
  function NavUrl(s: Stop): string {
    if HasOverride(s) then Trim(s.navUrl.value)
    else if HasCoordinates(s) then SearchPrefix + s.lat.value + "," + s.lng.value
    else SearchPrefix + SearchQuery(s)
  }

  /** The link is never empty: the trimmed override when there is one, else a maps search URL. */
  lemma NavUrlShape(s: Stop)
    ensures NavUrl(s) != ""
    ensures HasOverride(s) ==> NavUrl(s) == Trim(s.navUrl.value)
    ensures !HasOverride(s) ==> |SearchPrefix| < |NavUrl(s)| && NavUrl(s)[..|SearchPrefix|] == SearchPrefix
  {
    if !HasOverride(s) && !HasCoordinates(s) {
      SearchQueryEncodes(s);
      EncodeNonEmpty(SearchText(s));
    }
  }

  lemma EncodeNonEmpty(t: string)
    requires t != ""
    ensures EncodeComponent(t) != ""
  {
    if !IsUnreserved(t[0]) {
      var bs := Utf8Char(t[0]);
      assert EscapeAll(bs) == Escape(bs[0]) + EscapeAll(bs[1..]);
    }
  }

  /** An override is used with the white space around it removed. */
  lemma OverrideIsTrimmed(s: Stop)
    requires HasOverride(s)
    ensures var url := NavUrl(s); !IsSpace(url[0]) && !IsSpace(url[|url| - 1])
  {
    NavUrlShape(s);
    TrimShape(s.navUrl.value);
  }

  /** Without an override, coordinates give a query on `lat,lng`. */
  lemma CoordinateQuery(s: Stop)
    requires !HasOverride(s) && HasCoordinates(s)
    ensures NavUrl(s)[|SearchPrefix|..] == s.lat.value + "," + s.lng.value
  {
  }

  /**
   * Otherwise the query decodes back to exactly the first truthy text among
   * the address, the title and the campus name, and holds no character that
   * could end the query parameter.
   */
  lemma TextQuery(s: Stop)
    requires !HasOverride(s) && !HasCoordinates(s)
    ensures DecodeComponent(NavUrl(s)[|SearchPrefix|..]) == Some(SearchText(s))
    ensures AllSafe(NavUrl(s)[|SearchPrefix|..])
  {
    var q := EncodeComponent(SearchText(s));
    SearchQueryEncodes(s);
    assert NavUrl(s)[|SearchPrefix|..] == q;
    ComponentRoundTrip(SearchText(s));
    ComponentIsSafe(SearchText(s));
  }
}
