/** The request path without its HTTP plumbing: the address goes through
    `address_handler`, and the resulting list through
    `extract_gps_coordinates`. */
module Geocoder {
  import opened Outcomes
  import opened PyText
  import opened AddressTokenizer
  import opened ProgressiveMatcher

  /** What the two calls produce together: the `IndexError` of the tokenizer
      comes first; otherwise the matcher's outcome on the tokens. */
  function GeocodeResult(address: string, townlands: seq<Place>, counties: seq<Place>): (r: Result<seq<Place>>)
    ensures r == Err(IndexError) <==> HasAdjacentEmpty(SplitOn(address, ','))
  {
    if HasAdjacentEmpty(SplitOn(address, ',')) then Err(IndexError)
    else Resolution(Tokenize(address), townlands, counties)
  }

  /** `address_words = address_handler(address)` followed by
      `data = extract_gps_coordinates(address_words)`. */
  method Geocode(address: string, townlands: seq<Place>, counties: seq<Place>) returns (r: Result<seq<Place>>)
    ensures r == GeocodeResult(address, townlands, counties)
  {
    var words := AddressHandler(address);
    if words.Err? {
      r := Err(words.error);
    } else {
      var addressList := new AddressList(words.value);
      r := ExtractGpsCoordinates(addressList, townlands, counties);
    }
  }

  /** The request fails exactly on a surviving empty segment or on an address
      that leaves no token; every row it returns lies in the county named by
      the last token. */
  lemma GeocodeOutcomes(address: string, townlands: seq<Place>, counties: seq<Place>)
    ensures GeocodeResult(address, townlands, counties).Err? <==>
      HasAdjacentEmpty(SplitOn(address, ',')) || Tokenize(address) == []
    ensures GeocodeResult(address, townlands, counties) == Err(KeyError) <==>
      !HasAdjacentEmpty(SplitOn(address, ',')) && Tokenize(address) == []
    ensures GeocodeResult(address, townlands, counties).Ok? ==>
      var tokens := Tokenize(address);
      forall i :: 0 <= i < |GeocodeResult(address, townlands, counties).value| ==>
        GeocodeResult(address, townlands, counties).value[i].county == tokens[|tokens| - 1]
  {
    if !HasAdjacentEmpty(SplitOn(address, ',')) && Tokenize(address) != [] {
      TownlandLevelIff(Tokenize(address), townlands, counties);
    }
  }
}
