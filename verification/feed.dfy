/**
 * The price feed: extraction of the three coin quotes from the price provider's
 * reply (`get_crypto`) and the ordered fallback cascade over exchange-rate
 * providers (`get_fx`). The network is not modelled: a reply is a parsed value
 * and each exchange-rate candidate's request has a given outcome.
 */
module Feed {
  import opened Wrappers

  // ---------------------------------------------------------------------------
  // get_crypto

  datatype Quote = Quote(symbol: string, price: real, change: real)

  /** A parsed reply of the price provider: asset id -> field name -> number. */
  type Reply = map<string, map<string, real>>

  /** A KeyError while reading the reply. */
  datatype FeedError = MissingKey(key: string)

  /** The asset ids requested from the price provider and the symbols they are shown under. */
  const CoinIds: seq<(string, string)> :=
    [("bitcoin", "BTC"), ("ethereum", "ETH"), ("the-open-network", "TON")]

  function Lookup(j: Reply, id: string, field: string): Result<real, FeedError>
  {
    if id !in j then Err(MissingKey(id))
    else if field !in j[id] then Err(MissingKey(field))
    else Ok(j[id][field])
  }

  predicate HasQuote(j: Reply, id: string)
  {
    id in j && "usd" in j[id] && "usd_24h_change" in j[id]
  }

  /** `pack(k, s)`: the quote of asset k under symbol s, or the KeyError it raises. */
  function Pack(j: Reply, id: string, symbol: string): (r: Result<Quote, FeedError>)
    ensures r.Ok? <==> HasQuote(j, id)
    ensures r.Ok? ==> r.value == Quote(symbol, j[id]["usd"], j[id]["usd_24h_change"])
    ensures r.Err? && id !in j ==> r.error == MissingKey(id)
  {
    match Lookup(j, id, "usd")
    case Err(e) => Err(e)
    case Ok(p) =>
      match Lookup(j, id, "usd_24h_change")
      case Err(e) => Err(e)
      case Ok(c) => Ok(Quote(symbol, p, c))
  }

  /** `get_crypto` after the request: the three quotes keyed by symbol, or the first KeyError. */
  function GetCrypto(j: Reply): (r: Result<map<string, Quote>, FeedError>)
    ensures r.Ok? <==> HasQuote(j, "bitcoin") && HasQuote(j, "ethereum") && HasQuote(j, "the-open-network")
    ensures r.Ok? ==> r.value.Keys == {"BTC", "ETH", "TON"}
    ensures r.Ok? ==> forall k :: 0 <= k < |CoinIds| ==>
      r.value[CoinIds[k].1] == Quote(CoinIds[k].1, j[CoinIds[k].0]["usd"], j[CoinIds[k].0]["usd_24h_change"])
  {
    match Pack(j, "bitcoin", "BTC")
    case Err(e) => Err(e)
    case Ok(btc) =>
      match Pack(j, "ethereum", "ETH")
      case Err(e) => Err(e)
      case Ok(eth) =>
        match Pack(j, "the-open-network", "TON")
        case Err(e) => Err(e)
        case Ok(ton) => Ok(map["BTC" := btc, "ETH" := eth, "TON" := ton])
  }

  // ---------------------------------------------------------------------------
  // get_fx

  datatype Base = USD | EUR

  datatype Candidate = Candidate(url: string, base: Base)

  /** The exchange-rate providers, in the order they are consulted. */
  const FxCandidates: seq<Candidate> := [
    Candidate("https://api.exchangerate.host/latest?base=USD&symbols=RUB", USD),
    Candidate("https://api.exchangerate.host/latest?base=EUR&symbols=RUB", EUR),
    Candidate("https://api.frankfurter.app/latest?from=USD&to=RUB", USD),
    Candidate("https://api.frankfurter.app/latest?from=EUR&to=RUB", EUR),
    Candidate("https://open.er-api.com/v6/latest/USD", USD),
    Candidate("https://open.er-api.com/v6/latest/EUR", EUR)
  ]

  /**
   * What consulting one candidate yields: the request or its parsing raised
   * (Failed), the payload has no `rates.RUB` (NoRub), or the RUB rate.
   */
  datatype Outcome = Failed | NoRub | Rub(rate: real)

  /** The two local variables `usd` and `eur` of the cascade (None stands for Python's None). */
  datatype Rates = Rates(usd: Option<real>, eur: Option<real>)

  /** The returned dictionary: both keys are always present. */
  datatype FxRates = FxRates(usdRub: real, eurRub: real)

  const DefaultUsdRub: real := 83.0
  const DefaultEurRub: real := 97.0

  /** Python truthiness of a rate: None and 0.0 are false. */
  predicate Truthy(v: Option<real>) { v.Some? && v.value != 0.0 }

  /** The loop's exit test `usd and eur`. */
  predicate Satisfied(r: Rates) { Truthy(r.usd) && Truthy(r.eur) }

  /** The effect of one consulted candidate on the two rates. */
  function Absorb(r: Rates, base: Base, o: Outcome): Rates
  {
    match o
    case Rub(v) => if base == USD then r.(usd := Some(v)) else r.(eur := Some(v))
    case _ => r
  }

  /** The rates after consulting the first n candidates in order (without stopping). */
  function RatesAfter(cands: seq<Candidate>, outs: seq<Outcome>, n: nat): Rates
    requires n <= |cands| == |outs|
  {
    if n == 0 then Rates(None, None)
    else Absorb(RatesAfter(cands, outs, n - 1), cands[n - 1].base, outs[n - 1])
  }

  /**
   * The cascade consults exactly c candidates: after c of them both rates are
   * known (or the list is exhausted), and after no fewer were they.
   */
  ghost predicate StopsAt(cands: seq<Candidate>, outs: seq<Outcome>, c: nat)
    requires |cands| == |outs|
  {
    && c <= |cands|
    && (c == |cands| || Satisfied(RatesAfter(cands, outs, c)))
    && forall k :: 0 <= k < c ==> !Satisfied(RatesAfter(cands, outs, k))
  }

  /** `usd or 83.0`, `eur or 97.0`: a missing or zero rate becomes its default. */
  function Finish(r: Rates): (fx: FxRates)
    ensures fx.usdRub != 0.0 && fx.eurRub != 0.0
    ensures fx.usdRub == (if Truthy(r.usd) then r.usd.value else DefaultUsdRub)
    ensures fx.eurRub == (if Truthy(r.eur) then r.eur.value else DefaultEurRub)
  {
    FxRates(if Truthy(r.usd) then r.usd.value else DefaultUsdRub,
            if Truthy(r.eur) then r.eur.value else DefaultEurRub)
  }

  /**
   * `get_fx`: consult the candidates in order, absorbing failures, stop right
   * after the first candidate at which both rates are known, and default the
   * missing ones. Also returns how many candidates were consulted.
   */
  method GetFx(outcomes: seq<Outcome>) returns (fx: FxRates, consulted: nat)
    requires |outcomes| == |FxCandidates|
    ensures StopsAt(FxCandidates, outcomes, consulted)
    ensures fx == Finish(RatesAfter(FxCandidates, outcomes, consulted))
  {
    var usd: Option<real> := None;
    var eur: Option<real> := None;
    consulted := 0;
    while consulted < |FxCandidates|
      invariant consulted <= |FxCandidates|
      invariant Rates(usd, eur) == RatesAfter(FxCandidates, outcomes, consulted)
      invariant forall k :: 0 <= k <= consulted ==> !Satisfied(RatesAfter(FxCandidates, outcomes, k))
    {
      var base := FxCandidates[consulted].base;
      var o := outcomes[consulted];
      consulted := consulted + 1;
      if o.Failed? {
        continue;
      }
      if o.Rub? {
        if base == USD {
          usd := Some(o.rate);
        } else {
          eur := Some(o.rate);
        }
      }
      if Truthy(usd) && Truthy(eur) {
        break;
      }
    }
    fx := Finish(Rates(usd, eur));
  }

  /** The most recent RUB rate reported for `base` among the first n candidates. */
  function LastRate(cands: seq<Candidate>, outs: seq<Outcome>, n: nat, base: Base): Option<real>
    requires n <= |cands| == |outs|
  {
    if n == 0 then None
    else if cands[n - 1].base == base && outs[n - 1].Rub? then Some(outs[n - 1].rate)
    else LastRate(cands, outs, n - 1, base)
  }

  /**
   * Failures and payloads without a RUB rate change nothing, and a later rate for
   * the same base overwrites an earlier one: each variable holds the last rate
   * reported for its base.
   */
  lemma {:induction false} RatesAreLast(cands: seq<Candidate>, outs: seq<Outcome>, n: nat)
    requires n <= |cands| == |outs|
    ensures RatesAfter(cands, outs, n).usd == LastRate(cands, outs, n, USD)
    ensures RatesAfter(cands, outs, n).eur == LastRate(cands, outs, n, EUR)
  {
    if n > 0 {
      RatesAreLast(cands, outs, n - 1);
    }
  }

  /** The rates after n candidates depend only on the first n outcomes. */
  lemma {:induction false} RatesDependOnPrefix(cands: seq<Candidate>, o1: seq<Outcome>, o2: seq<Outcome>, n: nat)
    requires |cands| == |o1| == |o2| && n <= |cands|
    requires o1[..n] == o2[..n]
    ensures RatesAfter(cands, o1, n) == RatesAfter(cands, o2, n)
  {
    if n > 0 {
      assert o1[n - 1] == o1[..n][n - 1] && o2[n - 1] == o2[..n][n - 1];
      assert o1[..n - 1] == o1[..n][..n - 1] && o2[..n - 1] == o2[..n][..n - 1];
      RatesDependOnPrefix(cands, o1, o2, n - 1);
    }
  }

  /**
   * Short circuit: candidates after the c consulted ones are never looked at.
   * Whatever they would have returned, the cascade consults the same number of
   * candidates and ends with the same rates.
   */
  lemma {:induction false} OnlyConsultedMatter(cands: seq<Candidate>, o1: seq<Outcome>, o2: seq<Outcome>, c: nat)
    requires |cands| == |o1| == |o2| && c <= |cands|
    requires StopsAt(cands, o1, c) && o1[..c] == o2[..c]
    ensures StopsAt(cands, o2, c)
    ensures RatesAfter(cands, o1, c) == RatesAfter(cands, o2, c)
  {
    forall k | 0 <= k <= c
      ensures RatesAfter(cands, o1, k) == RatesAfter(cands, o2, k)
    {
      assert o1[..k] == o1[..c][..k] && o2[..k] == o2[..c][..k];
      RatesDependOnPrefix(cands, o1, o2, k);
    }
  }

  /** The number of consulted candidates is determined by the outcomes. */
  lemma {:induction false} StopIsUnique(cands: seq<Candidate>, outs: seq<Outcome>, c1: nat, c2: nat)
    requires |cands| == |outs|
    requires StopsAt(cands, outs, c1) && StopsAt(cands, outs, c2)
    ensures c1 == c2
  {
  }

  /** With no RUB rate from any candidate, all are consulted and both defaults are returned. */
  lemma {:induction false} AllFailedGivesDefaults(cands: seq<Candidate>, outs: seq<Outcome>)
    requires |cands| == |outs|
    requires forall k :: 0 <= k < |outs| ==> !outs[k].Rub?
    ensures StopsAt(cands, outs, |cands|)
    ensures Finish(RatesAfter(cands, outs, |cands|)) == FxRates(DefaultUsdRub, DefaultEurRub)
  {
    forall n | 0 <= n <= |cands|
      ensures RatesAfter(cands, outs, n) == Rates(None, None)
    {
      NoRateYet(cands, outs, n);
    }
  }

  lemma {:induction false} NoRateYet(cands: seq<Candidate>, outs: seq<Outcome>, n: nat)
    requires n <= |cands| == |outs|
    requires forall k :: 0 <= k < n ==> !outs[k].Rub?
    ensures RatesAfter(cands, outs, n) == Rates(None, None)
  {
    if n > 0 {
      NoRateYet(cands, outs, n - 1);
    }
  }

  /** Both rates need a report: the cascade never stops before two candidates are consulted. */
  lemma {:induction false} StopNeedsBothBases(cands: seq<Candidate>, outs: seq<Outcome>, c: nat)
    requires |cands| == |outs| && c <= |cands|
    requires Satisfied(RatesAfter(cands, outs, c))
    ensures exists i :: 0 <= i < c && cands[i].base == USD && outs[i].Rub? && outs[i].rate != 0.0
    ensures exists i :: 0 <= i < c && cands[i].base == EUR && outs[i].Rub? && outs[i].rate != 0.0
  {
    RatesAreLast(cands, outs, c);
    LastRateReported(cands, outs, c, USD);
    LastRateReported(cands, outs, c, EUR);
  }

  lemma {:induction false} LastRateReported(cands: seq<Candidate>, outs: seq<Outcome>, n: nat, base: Base)
    requires n <= |cands| == |outs|
    requires LastRate(cands, outs, n, base).Some?
    ensures exists i :: 0 <= i < n && cands[i].base == base && outs[i].Rub?
                     && outs[i].rate == LastRate(cands, outs, n, base).value
  {
    if !(cands[n - 1].base == base && outs[n - 1].Rub?) {
      LastRateReported(cands, outs, n - 1, base);
    }
  }
}
