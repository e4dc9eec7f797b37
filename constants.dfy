/** The configuration constants the graph builder reads (constants.py). */
module Constants {

  /** Court coordinates of the two baskets. */
  const BasketX1: real := 5.25
  const BasketY1: real := 25.0
  const BasketX2: real := 88.75
  const BasketY2: real := 25.0

  /** Node ids of the ball and the two baskets; players are nodes 0 to 9. */
  const IndexBall: int := 10
  const IndexBasket1: int := 11
  const IndexBasket2: int := 12

  /** Number of players on court in a frame. */
  const PlayerCount: int := 10
}
