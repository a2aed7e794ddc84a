/** The city record and the numeric domain of its population (a Java `int`). */
module CityRecords {

  datatype Option<T> = None | Some(value: T)

  /** One line of the input file, once parsed: `new City(name, state, population)`. */
  datatype City = City(name: string, state: string, population: int)

  const Int32Min: int := -0x8000_0000
  const Int32Max: int := 0x7FFF_FFFF

  predicate IsInt32(x: int) { Int32Min <= x <= Int32Max }

  /** Populations come out of `Integer.parseInt` on a digit-only string. */
  predicate ValidPopulation(p: int) { 0 <= p <= Int32Max }

  /** `a` is an initial segment of `b`. */
  predicate IsPrefix<T(==)>(a: seq<T>, b: seq<T>) { |a| <= |b| && a == b[..|a|] }

  /** Key extractors `City::getState` and `City::getName`. */
  function StateOf(c: City): string { c.state }
  function NameOf(c: City): string { c.name }
}
