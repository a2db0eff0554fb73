/** The request's strategy name and the provider's driving-strategy code. */
module Strategy {
  import opened Common

  datatype StrategyError = UnknownStrategy(name: string)

  /** The lookup table of `strategy_to_amap`. */
  const AmapCodes: map<string, string> := map[
    "fastest" := "0",
    "avoid_highway" := "1",
    "avoid_tolls" := "2",
    "avoid_congestion" := "3"
  ]

  /**
   * The provider code for a strategy name; any name outside the table is an
   * error (the dictionary lookup raises).
   */
  function StrategyToAmap(strategy: string): (r: Result<string, StrategyError>)
    ensures r == Success("0") <==> strategy == "fastest"
    ensures r == Success("1") <==> strategy == "avoid_highway"
    ensures r == Success("2") <==> strategy == "avoid_tolls"
    ensures r == Success("3") <==> strategy == "avoid_congestion"
    ensures r.Failure? <==>
      strategy !in {"fastest", "avoid_highway", "avoid_tolls", "avoid_congestion"}
    ensures r.Failure? ==> r.error == UnknownStrategy(strategy)
  {
    if strategy in AmapCodes then Success(AmapCodes[strategy]) else Failure(UnknownStrategy(strategy))
  }
}
