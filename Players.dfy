/** The roster entries of the current engine and the day numbers dates are modelled by. */
module Players {

  /** A calendar date, as a day number counted from a fixed epoch. */
  type Day = int

  /** A fairness weight (1 by default); nothing checks its sign, and the scoring that divides by it is left out. */
  type Weight = real

  /** A participant: a name, the days they cannot play, and a weight. */
  datatype Player = Player(name: string, cannotPlay: set<Day>, weight: Weight)

  /** Whether the player can play on day `d`. */
  predicate CanPlay(p: Player, d: Day) {
    d !in p.cannotPlay
  }
}
