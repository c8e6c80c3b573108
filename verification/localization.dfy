/**
 * The geographic side of the scraper, reduced to what the core needs: a point
 * value and the external street geocoder, whose answers are a parameter.
 */
module Localization {
  import opened Wrappers

  /** A point; the fields are in the order the `Location` dataclass declares them. */
  datatype Location = Location(longitude: real, latitude: real)

  /**
   * The street geocoder: a lookup of a street in a city that yields the averaged
   * location of the points found, or nothing. Its answers are fixed by `answer`;
   * `requests` records every lookup made, in order, so that callers can state
   * when the service is and is not contacted.
   */
  class GeocodeService {
    const answer: (string, string) -> Option<Location>
    var requests: seq<(string, string)>

    constructor (answer: (string, string) -> Option<Location>)
      ensures this.answer == answer && requests == []
    {
      this.answer := answer;
      requests := [];
    }

    /** One lookup of `street` in `city`. */
    method FindAverageLocation(street: string, city: string) returns (loc: Option<Location>)
      modifies this
      ensures requests == old(requests) + [(street, city)]
      ensures loc == answer(street, city)
    {
      requests := requests + [(street, city)];
      loc := answer(street, city);
    }
  }
}
