/** The cadet entity: the `Cadet` class of modules/models/Cadet.js, the
    preference and degree objects it holds, and the cadet objects the
    application's pages pass around. */
module CadetModel {
  import opened Dicts

  /** The three degree tiers. The module that declares them is not part of this
      model; their values are the strings the cadet editor compares against. */
  const MANDATORY: string := "Mandatory"
  const DESIRED: string := "Desired"
  const PERMITTED: string := "Permitted"

  predicate IsTier(v: string) {
    v == MANDATORY || v == DESIRED || v == PERMITTED
  }

  /** A value stored under a key of a preference object: a rank (the generator
      and the editor's parser store numbers), a string (the placeholder of a
      new cadet), or `null`. */
  datatype PrefValue = NullValue | RankValue(rank: int) | TextValue(text: string)

  /** AFSC code -> preference value. */
  type Prefs = Dict<PrefValue>

  /** AFSC code -> degree tier text. */
  type Degrees = Dict<string>

  /** The four fields of the `Cadet` class, in constructor order. The field types
      are parameters because callers pass arguments of other types in these
      positions (see `NewCadetFiveArgs`). The class has no `name` field. */
  datatype Cadet<P, C, U, D> = Cadet(cadetPreferences: P, cadetPercentile: C, cadetFromUSAFA: U, cadetDegrees: D)

  /** `new Cadet(cadetPreferences, cadetPercentile, cadetFromUSAFA, cadetDegrees)`. */
  function NewCadet<P, C, U, D>(cadetPreferences: P, cadetPercentile: C, cadetFromUSAFA: U, cadetDegrees: D)
    : (c: Cadet<P, C, U, D>)
    ensures c.cadetPreferences == cadetPreferences && c.cadetPercentile == cadetPercentile
    ensures c.cadetFromUSAFA == cadetFromUSAFA && c.cadetDegrees == cadetDegrees
  {
    Cadet(cadetPreferences, cadetPercentile, cadetFromUSAFA, cadetDegrees)
  }

  /** `new Cadet(a, b, c, d, e)`: JavaScript binds the first four arguments to the
      four parameters and drops the fifth. */
  function NewCadetFiveArgs<A, B, C, D, E>(a: A, b: B, c: C, d: D, e: E): Cadet<A, B, C, D>
  {
    NewCadet(a, b, c, d)
  }

  /** A five-argument call that starts with a name shifts every field by one
      place and loses its last argument. */
  lemma FiveArgumentCallShiftsFields<P, C, U, D>(name: string, prefs: P, percentile: C, usafa: U, degrees: D, other: D)
    ensures NewCadetFiveArgs(name, prefs, percentile, usafa, degrees).cadetPreferences == name
    ensures NewCadetFiveArgs(name, prefs, percentile, usafa, degrees).cadetPercentile == prefs
    ensures NewCadetFiveArgs(name, prefs, percentile, usafa, degrees).cadetFromUSAFA == percentile
    ensures NewCadetFiveArgs(name, prefs, percentile, usafa, degrees).cadetDegrees == usafa
    ensures NewCadetFiveArgs(name, prefs, percentile, usafa, degrees)
            == NewCadetFiveArgs(name, prefs, percentile, usafa, other)
  {
  }

  /** A cadet object as the editor creates it and the simulation page keys it:
      the four `Cadet` fields with their intended types, plus a `name`. */
  datatype AppCadet = AppCadet(
    name: string,
    cadetPreferences: Prefs,
    cadetPercentile: real,
    cadetFromUSAFA: bool,
    cadetDegrees: Degrees)
}
