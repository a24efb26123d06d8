/** `create_google_maps_link` and the reading back of the link it builds. */
module MapsLink {
  import opened Wrappers
  import opened Text

  const MapsPrefix := "https://www.google.com/maps?q="

  /**
   * Python truthiness of a coordinate: `get_coordinates_from_wikidata` returns
   * either `None` or `str(value)`, and both `None` and `""` are false.
   */
  predicate Truthy(v: Option<string>) {
    v.Some? && v.value != ""
  }

  /** `create_google_maps_link(lat, lon)`. */
  function GoogleMapsLink(lat: Option<string>, lon: Option<string>): (link: string)
    ensures link == "" <==> !(Truthy(lat) && Truthy(lon))
    ensures link != "" ==>
      StartsWith(link, MapsPrefix) && link[|MapsPrefix|..] == lat.value + "," + lon.value
  {
    if Truthy(lat) && Truthy(lon) then MapsPrefix + lat.value + "," + lon.value else ""
  }

  /** Reads the coordinates back out of a map link: the query up to and after its first comma. */
  function ParseMapsLink(link: string): (r: Option<(string, string)>)
    ensures r.Some? ==> link == MapsPrefix + r.value.0 + "," + r.value.1 && ',' !in r.value.0
    ensures r.None? ==> !StartsWith(link, MapsPrefix) || ',' !in link[|MapsPrefix|..]
  {
    if !StartsWith(link, MapsPrefix) then None
    else
      var q := link[|MapsPrefix|..];
      match IndexOf(q, ',')
      case None => None
      case Some(k) =>
        assert link == MapsPrefix + q[..k] + "," + q[k + 1..];
        Some((q[..k], q[k + 1..]))
  }

  /**
   * The coordinates come from `str()` of a number, which never holds a comma,
   * so the link always gives them back.
   */
  lemma {:induction false} MapsLinkRoundTrip(lat: string, lon: string)
    requires lat != "" && lon != "" && ',' !in lat
    ensures ParseMapsLink(GoogleMapsLink(Some(lat), Some(lon))) == Some((lat, lon))
  {
    var link := GoogleMapsLink(Some(lat), Some(lon));
    var q := link[|MapsPrefix|..];
    assert q == lat + "," + lon;
    assert q[|lat|] == ',' && q[..|lat|] == lat;
    assert q[|lat| + 1..] == lon;
  }
}
