/**
 * Offers: the record stored and mailed for a listing, and the builder that
 * fills in its derived fields (rent, blacklist verdict, distance) from a
 * listing's page text.
 */
module Offers {
  import opened Wrappers
  import opened Text
  import opened Localization
  import opened Config
  import opened Parsers

  /**
   * What the builder takes from a scraped listing: its title, price and link,
   * the description text and the rent shown in the page's own rent field.
   */
  datatype Listing = Listing(title: string, price: int, link: string, description: string, displayedRent: Option<nat>)

  /** The string an offer's id is hashed from: the title and the price, separated by " | ". */
  function IdKey(title: string, price: int): (key: string)
    ensures |key| > |title| + 3 && key[..|title| + 3] == title + " | "
    ensures key[|title| + 3..] == IntToString(price)
  {
    title + " | " + IntToString(price)
  }

  /**
   * An offer. `backlisted` keeps the spelling of the stored record's field;
   * `createdAt` is the moment the builder was started.
   */
  datatype Offer = Offer(
    id: int, title: string, link: string, price: int, createdAt: int,
    description: string, distance: Option<real>, backlisted: Option<bool>, rent: Option<nat>)
  {
    /** The price plus the rent, where a missing or zero rent adds nothing. */
    function TotalCost(): (c: int)
      ensures c >= price
      ensures c == price <==> rent.None? || rent.value == 0
      ensures rent.Some? ==> c == price + rent.value
    {
      if rent.None? || rent.value == 0 then price else price + rent.value
    }

    /**
     * The verdict as the code computes it: blacklisted offers are too far,
     * offers of unknown distance are not, and otherwise the offer is called
     * too far when it lies WITHIN the maximum distance.
     */
    function IsTooFarAsWritten(): (r: bool)
      ensures backlisted == Some(true) ==> r
      ensures backlisted != Some(true) && distance.None? ==> !r
      ensures backlisted != Some(true) && distance.Some? ==> (r <==> distance.value <= MaxDistance)
    {
      if backlisted == Some(true) then true
      else if distance.None? then false
      else distance.value <= MaxDistance
    }

    /**
     * The intended verdict: too far when blacklisted, or when the distance is
     * known and exceeds the maximum.
     */
    function IsTooFar(): (r: bool)
      ensures r <==> backlisted == Some(true) || (distance.Some? && distance.value > MaxDistance)
    {
      if backlisted == Some(true) then true
      else if distance.None? then false
      else distance.value > MaxDistance
    }
  }

  /**
   * The offer a builder produces: every field as given, and the id the hash of
   * `IdKey(title, price)`. `hash` stands for the runtime's string hash, which
   * differs between processes; nothing is assumed about it.
   */
  function NewOffer(
    hash: string -> int, title: string, link: string, price: int, createdAt: int,
    description: string, distance: Option<real>, backlisted: Option<bool>, rent: Option<nat>): (o: Offer)
    ensures o.id == hash(IdKey(title, price))
    ensures o.title == title && o.link == link && o.price == price && o.createdAt == createdAt
    ensures o.description == description && o.distance == distance
    ensures o.backlisted == backlisted && o.rent == rent
  {
    Offer(hash(IdKey(title, price)), title, link, price, createdAt, description, distance, backlisted, rent)
  }

  /** The id depends on the title and the price only: nothing else about the offer changes it. */
  lemma IdDependsOnTitleAndPrice(hash: string -> int, o1: Offer, o2: Offer)
    requires o1 == NewOffer(hash, o1.title, o1.link, o1.price, o1.createdAt, o1.description, o1.distance, o1.backlisted, o1.rent)
    requires o2 == NewOffer(hash, o2.title, o2.link, o2.price, o2.createdAt, o2.description, o2.distance, o2.backlisted, o2.rent)
    requires o1.title == o2.title && o1.price == o2.price
    ensures o1.id == o2.id
  {
  }

  /**
   * The hashed string tells different prices apart under the same title
   * (the hash itself may still collide).
   */
  lemma IdKeySeparatesPrices(title: string, p1: int, p2: int)
    requires p1 != p2
    ensures IdKey(title, p1) != IdKey(title, p2)
  {
    IntToStringInjective(p1, p2);
    assert IdKey(title, p1)[|title| + 3..] != IdKey(title, p2)[|title| + 3..];
  }

  /** A nearby offer, 2.5 km away and not blacklisted, is reported as too far by the code. */
  lemma NearOfferCalledTooFar(o: Offer)
    requires o.backlisted == Some(false) && o.distance == Some(2.5)
    ensures o.IsTooFarAsWritten()
    ensures !o.IsTooFar()
  {
  }

  /** Away from the blacklist, the code's verdict is the exact opposite of the intended one. */
  lemma AsWrittenIsInverted(o: Offer)
    requires o.backlisted != Some(true) && o.distance.Some?
    ensures o.IsTooFarAsWritten() == !o.IsTooFar()
  {
  }

  /** Moving an offer farther away never brings it back within range. */
  lemma IsTooFarMonotone(o: Offer, d: real)
    requires o.distance.Some? && o.distance.value <= d && o.IsTooFar()
    ensures o.(distance := Some(d)).IsTooFar()
  {
  }

  /** As written, the opposite holds: a far offer can become "too far" by moving closer. */
  lemma AsWrittenNotMonotone(o: Offer)
    requires o.backlisted == Some(false) && o.distance == Some(20.0)
    ensures !o.IsTooFarAsWritten() && o.(distance := Some(5.0)).IsTooFarAsWritten()
  {
  }

  /**
   * The rent after reconciling the rent shown on the page with the one found
   * in the text: unchanged when neither is known, otherwise the larger of
   * the two, a missing one counting as 0.
   */
  function ReconciledRent(current: Option<nat>, displayed: Option<nat>, hidden: Option<nat>): (r: Option<nat>)
    ensures displayed.None? && hidden.None? ==> r == current
    ensures displayed.Some? || hidden.Some? ==>
              r.Some?
              && (displayed.Some? ==> r.value >= displayed.value)
              && (hidden.Some? ==> r.value >= hidden.value)
              && (displayed == Some(r.value) || hidden == Some(r.value))
  {
    if hidden.None? && displayed.None? then current
    else
      var d := displayed.GetOr(0);
      var h := hidden.GetOr(0);
      Some(if h >= d then h else d)
  }

  /** Reconciling twice with the same inputs gives what reconciling once gave. */
  lemma ReconciledRentIdempotent(current: Option<nat>, displayed: Option<nat>, hidden: Option<nat>)
    ensures ReconciledRent(ReconciledRent(current, displayed, hidden), displayed, hidden)
              == ReconciledRent(current, displayed, hidden)
  {
  }

  /** A displayed rent of 0 with no rent in the text is recorded as a rent of 0, not as no rent. */
  lemma DisplayedZeroIsKept(current: Option<nat>)
    ensures ReconciledRent(current, Some(0), None) == Some(0)
  {
  }

  /**
   * Builds an offer from a listing. The description is read once and the
   * parser built from the title and the description; the three derived
   * fields start unknown and are filled in by the `Add` methods.
   */
  class OfferBuilder {
    const listing: Listing
    const createdAt: int
    const description: string
    const parser: DescriptionParser

    var distance: Option<real>
    var backlisted: Option<bool>
    var rent: Option<nat>

    /** The parser reads the listing's title and description, joined by " | ". */
    ghost predicate Valid() {
      description == listing.description
      && parser.raw == listing.title + " | " + listing.description
      && parser.Valid()
    }

    /**
     * `createdAt` is the current time, given by the caller; `table` is the
     * transliteration the parser applies.
     */
    constructor (listing: Listing, createdAt: int, table: char -> string)
      requires AsciiTable(table)
      ensures Valid() && this.listing == listing && this.createdAt == createdAt
      ensures parser.table == table && fresh(parser)
      ensures distance.None? && backlisted.None? && rent.None?
    {
      this.listing := listing;
      this.createdAt := createdAt;
      description := listing.description;
      parser := new DescriptionParser(listing.title + " | " + listing.description, table);
      distance := None;
      backlisted := None;
      rent := None;
    }

    /** Sets the rent from the displayed rent and the rent hidden in the text; nothing else changes. */
    method AddRent()
      requires Valid()
      modifies this`rent
      ensures rent == ReconciledRent(old(rent), listing.displayedRent, parser.FindHiddenRent())
      ensures distance == old(distance) && backlisted == old(backlisted)
    {
      var displayedRent := listing.displayedRent;
      var hiddenRent := parser.FindHiddenRent();
      if hiddenRent.Some? || displayedRent.Some? {
        var d := displayedRent.GetOr(0);
        var h := hiddenRent.GetOr(0);
        rent := Some(if h >= d then h else d);
      }
    }

    /** Records whether the text names a blacklisted place; nothing else changes. */
    method AddBlacklisted()
      modifies this`backlisted
      ensures backlisted == Some(parser.DoesContainBlacklisted())
      ensures backlisted.value <==> exists t :: t in BLACKLIST && t in parser.wordsSet
      ensures distance == old(distance) && rent == old(rent)
    {
      backlisted := Some(parser.DoesContainBlacklisted());
    }

    /**
     * Sets the distance from the street the text names to the centre point.
     * A blacklisted listing is left alone and the geocoder is not asked; a
     * listing with no street, or a street the geocoder cannot place, keeps
     * its distance.
     */
    method AddDistance(finder: GeocodeService, distanceTo: (Location, Location) -> real)
      modifies this`distance, finder
      ensures backlisted == Some(true) ==> distance == old(distance) && finder.requests == old(finder.requests)
      ensures backlisted != Some(true) && StreetName(parser.description).None? ==>
                distance == old(distance) && finder.requests == old(finder.requests)
      ensures backlisted != Some(true) && StreetName(parser.description).Some? ==>
                var street := StreetName(parser.description).value;
                finder.requests == old(finder.requests) + [(street, City)]
                && distance == (if finder.answer(street, City).Some?
                                then Some(distanceTo(finder.answer(street, City).value, CenterLocation))
                                else old(distance))
      ensures backlisted == old(backlisted) && rent == old(rent)
    {
      if backlisted == Some(true) {
        return;
      }
      var location := parser.FindPossibleLocation(finder);
      if location.Some? {
        distance := Some(distanceTo(location.value, CenterLocation));
      }
    }

    /** The offer holding the listing's title, link and price and the builder's current fields. */
    method Build(hash: string -> int) returns (o: Offer)
      ensures o == NewOffer(hash, listing.title, listing.link, listing.price, createdAt,
                            description, distance, backlisted, rent)
      ensures o.id == hash(IdKey(listing.title, listing.price))
    {
      o := NewOffer(hash, listing.title, listing.link, listing.price, createdAt,
                    description, distance, backlisted, rent);
    }
  }
}
