/** The scraper's configuration constants that the core reads. */
module Config {
  import opened Localization

  /** Place names whose mention disqualifies a listing (matched as whole words). */
  const BLACKLIST: seq<string> := [
    "bemowo", "bemowie", "wilanow", "wilanowie", "ursus", "ursusie",
    "bielany", "bielanach", "wawer", "wawrze", "tarchomin", "tarchominie",
    "bialoleka", "bialolece", "brodno", "brodnie", "targowek", "targowku",
    "rembertow", "rembertowie", "goclaw", "goclawiu", "grodzisk", "grodzisku",
    "miedzylesie", "miedzylesiu"
  ]

  /** The point distances are measured from, passed positionally as the source does. */
  const CenterLocation: Location := Location(52.222188, 21.007188)

  /** `MAXIMUX_DISTANCE`, in km. */
  const MaxDistance: real := 10.0

  /** The alternatives of the street pattern's first group, in the pattern's order. */
  const StreetPrefixes: seq<string> := ["ul.", "ulicy", "ulica", "al.", "aleja", "Ul.", "Ulica", "Al.", "Aleja"]
}
