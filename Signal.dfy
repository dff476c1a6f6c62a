/** The signal decision of CoinClerk: the last row of the indicator frame is
    read with warm-up defaults and mapped to one of three labels,
    MUA (buy), BÁN (sell) or GIỮ (hold).  Only comparisons are involved, so
    the indicator values are modelled as reals. */
module Signal {

  /** A value read from the last row of the indicator frame: the column may be
      absent (`get` gives None), hold NaN (the indicator is still warming up),
      or hold a number. */
  datatype Cell = Missing | NaN | Num(value: real)

  /** Defaults substituted when a value is absent or NaN. */
  const RsiDefault: real := 50.0
  const MacdDefault: real := 0.0

  /** RSI thresholds of the decision rule. */
  const Oversold: real := 30.0
  const Overbought: real := 70.0

  /** The three labels written to the log. */
  datatype Label = Buy | Sell | Hold {
    /** The text stored in the `signal` column. */
    function Text(): (s: string)
      ensures |s| == 3
    {
      match this
      case Buy => "MUA"
      case Sell => "B\U{00C1}N"
      case Hold => "GI\U{1EEE}"
    }
  }

  /** A present, non-NaN value is passed through; anything else becomes the default. */
  function SafeFloat(c: Cell, default: real): (r: real)
    ensures c.Num? ==> r == c.value
    ensures c.Missing? || c.NaN? ==> r == default
  {
    match c
    case Num(v) => v
    case _ => default
  }

  /** The decision rule: the first matching branch wins. */
  function Decide(rsi: real, macdMain: real, macdSignal: real): (l: Label)
    ensures l == Buy <==> rsi < Oversold && macdMain > macdSignal
    ensures l == Sell <==> rsi > Overbought && macdMain < macdSignal
    ensures l == Hold <==> !(rsi < Oversold && macdMain > macdSignal) && !(rsi > Overbought && macdMain < macdSignal)
  {
    if rsi < Oversold && macdMain > macdSignal then Buy
    else if rsi > Overbought && macdMain < macdSignal then Sell
    else Hold
  }

  /** The defaults followed by the decision rule, as one script run applies them. */
  function Evaluate(rsi: Cell, macdMain: Cell, macdSignal: Cell): (l: Label)
    ensures !rsi.Num? ==> l == Hold
    ensures !macdMain.Num? && !macdSignal.Num? ==> l == Hold
    ensures l == Buy ==> rsi.Num? && rsi.value < Oversold
    ensures l == Sell ==> rsi.Num? && rsi.value > Overbought
    ensures l != Hold ==> macdMain.Num? || macdSignal.Num?
  {
    Decide(SafeFloat(rsi, RsiDefault), SafeFloat(macdMain, MacdDefault), SafeFloat(macdSignal, MacdDefault))
  }

  /** The three stored texts are pairwise distinct, so the `signal` column
      identifies the decision. */
  lemma TextInjective(a: Label, b: Label)
    ensures a.Text() == b.Text() ==> a == b
  {
    if a != b {
      assert a.Text()[1] != b.Text()[1];
    }
  }

  /** An RSI of exactly 50 (the default) never gives buy or sell. */
  lemma NeutralRsiHolds(macdMain: real, macdSignal: real)
    ensures Decide(RsiDefault, macdMain, macdSignal) == Hold
  {
  }

  /** Equal MACD lines (as the 0.0/0.0 defaults are) never give buy or sell. */
  lemma EqualMacdHolds(rsi: real, macd: real)
    ensures Decide(rsi, macd, macd) == Hold
  {
  }

  /** Buy stays buy when RSI falls; sell stays sell when RSI rises. */
  lemma DecideMonotoneInRsi(rsi: real, rsi': real, macdMain: real, macdSignal: real)
    ensures rsi' <= rsi && Decide(rsi, macdMain, macdSignal) == Buy ==> Decide(rsi', macdMain, macdSignal) == Buy
    ensures rsi' >= rsi && Decide(rsi, macdMain, macdSignal) == Sell ==> Decide(rsi', macdMain, macdSignal) == Sell
  {
  }

  /** The rule is symmetric: mirroring RSI about 50 and swapping the MACD
      lines turns buy into sell and sell into buy. */
  lemma DecideMirror(rsi: real, macdMain: real, macdSignal: real)
    ensures Decide(rsi, macdMain, macdSignal) == Buy <==> Decide(100.0 - rsi, macdSignal, macdMain) == Sell
    ensures Decide(rsi, macdMain, macdSignal) == Hold <==> Decide(100.0 - rsi, macdSignal, macdMain) == Hold
  {
  }

  /** The defaults protect only a missing RSI or two missing MACD lines: when
      the MACD line is defined but its signal line is still NaN, the signal
      line defaults to 0.0 and the rule can still give buy or sell. */
  lemma SignalLineWarmupCanDecide()
    ensures Evaluate(Num(20.0), Num(1.0), NaN) == Buy
    ensures Evaluate(Num(80.0), Num(-1.0), NaN) == Sell
  {
  }

  /** Worked cases of the rule. */
  lemma DecideExamples()
    ensures Decide(25.0, 5.0, 2.0) == Buy
    ensures Decide(80.0, 1.0, 3.0) == Sell
    ensures Decide(50.0, 0.0, 0.0) == Hold
    ensures Decide(20.0, 1.0, 5.0) == Hold
    ensures Decide(30.0, 5.0, 2.0) == Hold
    ensures Decide(70.0, 1.0, 3.0) == Hold
  {
  }
}
