/** sdk.Coin. */
module Coins {
  datatype Coin = Coin(denom: string, amount: int)
}
