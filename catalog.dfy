/**
 * The read-only reference data every game works on: a species record as the
 * bundled data files describe it after its references have been resolved.
 */
module Catalog {

  /**
   * A species. `firstTypes` stands for `varieties[0].types`, the only part of
   * a species' varieties that any game rule reads; `seen` and `caught` are the
   * personal-progress flags carried by the personal pokedex's entries.
   */
  datatype Species = Species(
    name: string,
    displayName: string,
    color: string,
    shape: string,
    habitat: string,
    firstTypes: seq<string>,
    isLegendary: bool,
    isMythical: bool,
    seen: bool,
    caught: bool)
}
