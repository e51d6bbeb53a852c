/**
 * `Balance` (src/metrics/metrics.py): the requester's balance as a single metric line.
 */
module MetricsBalance {
  import opened Wrappers
  import opened MetricsBase
  import opened MetricsEvents

  /** The `Decimal` balance the requester reports, taken as an opaque number. */
  type Amount = int

  /** `'"balance_name" must be set'`: the ValueError of `get_lines`. */
  datatype BalanceError = BalanceNameNotSet

  class Balance {
    const base: BaseMetric
    var balanceName: Option<string>

    constructor (balanceName: Option<string>, client: Option<ClientId>)
      ensures this.balanceName == balanceName
      ensures fresh(base) && base.className == "Balance" && base.client == client
    {
      base := new BaseMetric("Balance", client);
      this.balanceName := balanceName;
    }

    /** `__attrs_post_init__`: a missing name becomes 'toloka_requester_balance'; a given one is kept. */
    method PostInit()
      modifies this`balanceName
      ensures old(balanceName).None? ==> balanceName == Some("toloka_requester_balance")
      ensures old(balanceName).Some? ==> balanceName == old(balanceName)
      ensures balanceName.Some?
      ensures old(balanceName).None? ==> GetLineNames() == [Some("toloka_requester_balance")]
      ensures old(balanceName).Some? ==> GetLineNames() == [old(balanceName)]
    {
      if balanceName.None? {
        balanceName := Some("toloka_requester_balance");
      }
    }

    /** `get_line_names`: the single name, whatever it is. */
    function GetLineNames(): (r: seq<Option<string>>)
      reads this
      ensures |r| == 1 && r[0] == balanceName
    {
      [balanceName]
    }

    /**
     * `get_lines`, with `now` the current time and `balance` what `get_requester` would
     * report: a missing or empty name fails before the requester is asked; otherwise the
     * one line holds the one point `(now, balance)`. `asked` says whether the requester
     * was asked.
     */
    method GetLines(now: Time, balance: Amount) returns (r: Result<Lines<Amount>, BalanceError>, asked: bool)
      ensures r.Err? <==> balanceName.None? || balanceName.value == ""
      ensures r.Err? ==> r.error == BalanceNameNotSet && !asked
      ensures r.Ok? ==> asked && r.value == map[balanceName.value := [Point(now, balance)]]
    {
      if balanceName.None? || balanceName.value == "" {
        return Err(BalanceNameNotSet), false;
      }
      var result: Lines<Amount> := map[];
      result := result[balanceName.value := [Point(now, balance)]];
      return Ok(result), true;
    }
  }
}
