/**
  Cities and the distance between them, as the genetic algorithm sees them.
 */
module Utils {

  /** A city read from the input: an identifier and two coordinates. The
      algorithm addresses a city by its position in the list of cities, never
      by its identifier. */
  datatype City = City(id: nat, x: real, y: real)

  /** The distance between two cities. The program computes the Euclidean
      distance in double precision; the model leaves it uninterpreted and
      passes it to every operation that needs it. */
  type Distance = (City, City) -> real

  /** An optional value (the program's Option). */
  datatype Option<T> = None | Some(value: T)
}
