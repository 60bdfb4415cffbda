/** End-to-end examples: the doc-comment address, a county on its own, and
    the two ways a request fails. */
module GeocoderExamples {
  import opened Outcomes
  import opened PyText
  import opened AddressTokenizer
  import opened ProgressiveMatcher
  import opened Geocoder
  import opened TokenizerExamples

  /** "Johnstown, Bennekerry, Co Carlow" resolves to the townland rows of
      JOHNSTOWN in CARLOW when there are any. */
  lemma DocCommentGeocode(townlands: seq<Place>, counties: seq<Place>)
    requires Select(townlands, ByTownland("CARLOW", "JOHNSTOWN")) != []
    ensures GeocodeResult("Johnstown, Bennekerry, Co Carlow", townlands, counties)
      == Ok(Select(townlands, ByTownland("CARLOW", "JOHNSTOWN")))
  {
    DocCommentExample();
    CarlowSearchOrder(townlands, counties);
  }

  /** A county on its own is looked up in the counties table only. */
  lemma CountyOnlyGeocode(townlands: seq<Place>, counties: seq<Place>)
    ensures GeocodeResult("Carlow", townlands, counties) == Ok(Select(counties, ByCounty("CARLOW")))
  {
    CountyOnlyExample();
    SingleToken("CARLOW", townlands, counties);
  }

  /** The empty address leaves no token and the projection fails. */
  lemma EmptyAddressGeocode(townlands: seq<Place>, counties: seq<Place>)
    ensures GeocodeResult("", townlands, counties) == Err(KeyError)
  {
    EmptyAddressExample();
  }

  /** `"Foo,,,Bar"`: of the two adjacent empty segments one survives the
      removal loop, and `word[0]` raises `IndexError`. */
  lemma TripleCommaGeocode(townlands: seq<Place>, counties: seq<Place>)
    ensures GeocodeResult("Foo,,,Bar", townlands, counties) == Err(IndexError)
  {
    TripleCommaExample();
  }

  /** A lone comma gives two empty segments; one survives the removal loop. */
  lemma LoneCommaGeocode(townlands: seq<Place>, counties: seq<Place>)
    ensures GeocodeResult(",", townlands, counties) == Err(IndexError)
  {
    assert "," == [] + [','] + [];
    SplitOnField([], [], ',');
    assert SplitOn(",", ',') == [[], []];
    assert |SplitOn(",", ',')[0]| == 0 && |SplitOn(",", ',')[1]| == 0;
  }
}
