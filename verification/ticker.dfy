/**
 * The marquee surface of the ticker (`build_ticker_surface`): one coloured text
 * segment per coin (`part_coin`) and per exchange rate, the five segments cycled
 * three times, and the layout loop that draws them left to right with a shadow
 * pass and a " | " separator. Pixels and fonts are not modelled: the surface is
 * the list of drawing operations, and text width is a given non-negative function.
 */
module Ticker {
  import opened NumFormat
  import Feed
  import Arith

  datatype RGB = RGB(r: int, g: int, b: int)

  datatype Segment = Segment(text: string, color: RGB)

  const Up: char := '\U{25B2}'
  const Down: char := '\U{25BC}'
  const Euro: char := '\U{20AC}'

  /** The per-name colour table. */
  const CoinColors: map<string, RGB> := map[
    "BTC" := RGB(247, 147, 26),
    "ETH" := RGB(136, 99, 255),
    "TON" := RGB(0, 163, 224),
    "USD" := RGB(7, 170, 75),
    "EUR" := RGB(7, 140, 190)
  ]

  /** The sign colours, used only for a name missing from the table. */
  const Rising: RGB := RGB(7, 200, 85)
  const Falling: RGB := RGB(240, 60, 60)

  /** Whole dollars from 1000 up, cents below. */
  function CoinPlaces(p: real): nat { if p >= 1000.0 then 0 else 2 }

  function PriceText(p: real): string { NiceNum(ToFixed(p, CoinPlaces(p))) }

  /** `f"{abs(ch):.2f}"` */
  function ChangeText(ch: real): string { FormatF(ToFixed(Abs(ch), 2), Wrappers.None) }

  /** The text of a coin segment from its printed parts. */
  function CoinText(name: string, price: string, arrow: char, change: string): string
  {
    name + " $" + price + " " + [arrow] + change + "%"
  }

  /** `part_coin`: "NAME $PRICE ▲1.23%" with the arrow of the change's sign, coloured by name. */
  function PartCoin(name: string, p: real, ch: real): Segment
  {
    var arrow := if ch >= 0.0 then Up else Down;
    var color := if ch >= 0.0 then Rising else Falling;
    Segment(CoinText(name, PriceText(p), arrow, ChangeText(ch)),
            if name in CoinColors then CoinColors[name] else color)
  }

  predicate NoArrow(s: string) { Up !in s && Down !in s }

  lemma {:induction false} NumericHasNoArrow(s: string)
    requires NumericText(s)
    ensures NoArrow(s)
  {
  }

  /** The segment shows '▲' exactly when the change is non-negative, and '▼' exactly when it is negative. */
  lemma {:induction false} PartCoinArrow(name: string, p: real, ch: real)
    requires NoArrow(name)
    ensures Up in PartCoin(name, p, ch).text <==> ch >= 0.0
    ensures Down in PartCoin(name, p, ch).text <==> ch < 0.0
  {
    NiceNumChars(ToFixed(p, CoinPlaces(p)));
    FormatFChars(ToFixed(Abs(ch), 2));
    NumericHasNoArrow(PriceText(p));
    NumericHasNoArrow(ChangeText(ch));
    var arrow := if ch >= 0.0 then Up else Down;
    var a := name + " $" + PriceText(p) + " ";
    var b := ChangeText(ch) + "%";
    assert NoArrow(a);
    assert NoArrow(b);
    assert CoinText(name, PriceText(p), arrow, ChangeText(ch)) == a + [arrow] + b;
  }

  /**
   * A price from 1000 up is printed as grouped whole dollars with no '.'; below
   * 1000 it has two fraction digits, of which nice_num keeps a '.' exactly when
   * the cents are not zero.
   */
  lemma {:induction false} PriceTextPrecision(p: real)
    requires p >= 0.0
    ensures p >= 1000.0 ==> PriceText(p) == Grouped(RoundHalfEven(p), ' ') && '.' !in PriceText(p)
    ensures p < 1000.0 ==> ('.' in PriceText(p) <==> RoundHalfEven(p * 100.0) % 100 != 0)
  {
    var x := ToFixed(p, CoinPlaces(p));
    assert Abs(p) == p;
    if p >= 1000.0 {
      assert x.mantissa == RoundHalfEven(p);
      NiceNumWhole(x);
      GroupedNoDot(x.mantissa);
    } else {
      assert Scale(p, 2) == 10.0 * Scale(p, 1) == p * 100.0;
      assert x.mantissa == RoundHalfEven(p * 100.0);
      NiceNumFraction(x);
      DigitSplit(x.mantissa, 2);
    }
  }

  /** The change is printed with exactly two fraction digits, and reading its digits gives the rounded change. */
  lemma {:induction false} ChangeTextValue(ch: real)
    ensures var t := ChangeText(ch);
      && |t| >= 4 && t[|t| - 3] == '.'
      && AllDigits(t[..|t| - 3]) && AllDigits(t[|t| - 2..])
      && DecValue(t[..|t| - 3] + t[|t| - 2..]) == RoundHalfEven(Abs(ch) * 100.0)
  {
    var m := RoundHalfEven(Abs(ch) * 100.0);
    var x := ToFixed(Abs(ch), 2);
    assert Abs(Abs(ch)) == Abs(ch);
    assert Scale(Abs(ch), 2) == 10.0 * Scale(Abs(ch), 1) == Abs(ch) * 100.0;
    assert x == Fixed(false, m, 2);
    var t := ChangeText(ch);
    var d := Digits(DropDigits(m, 2));
    var f := PadDigits(m, 2);
    assert t == d + "." + f;
    assert t[..|t| - 3] == d;
    assert t[|t| - 2..] == f;
    DecValueAppend(d, f);
    DigitsValue(DropDigits(m, 2));
    PadDigitsValue(m, 2);
    DigitSplit(m, 2);
  }

  /** The five segment kinds, in drawing order, and the colour-table entry each one uses. */
  const Labels: seq<string> := ["BTC", "ETH", "TON", "USD", "EUR"]

  /** How each segment's text begins. */
  const Heads: seq<string> := ["BTC $", "ETH $", "TON $", "$ ", [Euro, ' ']]

  /** `nice_num(rate, 2)` */
  function RateText(v: real): string { NiceNum(ToFixed(v, 2)) }

  predicate HasCoins(crypto: map<string, Feed.Quote>)
  {
    "BTC" in crypto && "ETH" in crypto && "TON" in crypto
  }

  /** The `segments` list: three coins, then the dollar and euro rates. */
  function Segments(crypto: map<string, Feed.Quote>, fx: Feed.FxRates): (segs: seq<Segment>)
    requires HasCoins(crypto)
    ensures |segs| == 5
  {
    [ PartCoin("BTC", crypto["BTC"].price, crypto["BTC"].change),
      PartCoin("ETH", crypto["ETH"].price, crypto["ETH"].change),
      PartCoin("TON", crypto["TON"].price, crypto["TON"].change),
      Segment("$ " + RateText(fx.usdRub), CoinColors["USD"]),
      Segment([Euro, ' '] + RateText(fx.eurRub), CoinColors["EUR"]) ]
  }

  /** A coin segment starts with its name and " $", and a tabled name always gets its table colour. */
  lemma {:induction false} CoinSegment(name: string, p: real, ch: real)
    ensures var seg := PartCoin(name, p, ch);
      && |name| + 2 <= |seg.text| && seg.text[..|name| + 2] == name + " $"
      && (name in CoinColors ==> seg.color == CoinColors[name])
  {
    var arrow := if ch >= 0.0 then Up else Down;
    CoinTextHead(name, PriceText(p), arrow, ChangeText(ch));
  }

  lemma {:induction false} CoinTextHead(name: string, price: string, arrow: char, change: string)
    ensures var t := CoinText(name, price, arrow, change);
      |name| + 2 <= |t| && t[..|name| + 2] == name + " $"
  {
    var t := CoinText(name, price, arrow, change);
    assert t == (name + " $") + (price + " " + [arrow] + change + "%");
  }

  /**
   * Each segment shows its own data: segment i < 3 is `part_coin` of coin i's own
   * price and change, and the last two show the dollar and the euro rate.
   */
  lemma {:induction false} SegmentsContent(crypto: map<string, Feed.Quote>, fx: Feed.FxRates)
    requires HasCoins(crypto)
    ensures var segs := Segments(crypto, fx);
      && segs[0] == PartCoin("BTC", crypto["BTC"].price, crypto["BTC"].change)
      && segs[1] == PartCoin("ETH", crypto["ETH"].price, crypto["ETH"].change)
      && segs[2] == PartCoin("TON", crypto["TON"].price, crypto["TON"].change)
      && segs[3].text == "$ " + RateText(fx.usdRub)
      && segs[4].text == [Euro, ' '] + RateText(fx.eurRub)
  {
  }

  /**
   * The segments follow the fixed order BTC, ETH, TON, USD, EUR: every one takes
   * its colour from the name table, never from the sign of its change, and starts
   * with its name.
   */
  lemma {:induction false} SegmentsOrder(crypto: map<string, Feed.Quote>, fx: Feed.FxRates)
    requires HasCoins(crypto)
    ensures var segs := Segments(crypto, fx);
      && |segs| == |Labels| == 5
      && forall i :: 0 <= i < 5 ==>
           && segs[i].color == CoinColors[Labels[i]]
           && |Heads[i]| <= |segs[i].text| && segs[i].text[..|Heads[i]|] == Heads[i]
  {
    var segs := Segments(crypto, fx);
    CoinSegment("BTC", crypto["BTC"].price, crypto["BTC"].change);
    CoinSegment("ETH", crypto["ETH"].price, crypto["ETH"].change);
    CoinSegment("TON", crypto["TON"].price, crypto["TON"].change);
    RateSegment("$ ", fx.usdRub, CoinColors["USD"]);
    RateSegment([Euro, ' '], fx.eurRub, CoinColors["EUR"]);
    forall i | 0 <= i < 5
      ensures segs[i].color == CoinColors[Labels[i]]
      ensures |Heads[i]| <= |segs[i].text| && segs[i].text[..|Heads[i]|] == Heads[i]
    {
      if i == 0 {
        assert Labels[i] == "BTC" && Heads[i] == "BTC" + " $";
      } else if i == 1 {
        assert Labels[i] == "ETH" && Heads[i] == "ETH" + " $";
      } else if i == 2 {
        assert Labels[i] == "TON" && Heads[i] == "TON" + " $";
      } else if i == 3 {
        assert Labels[i] == "USD" && Heads[i] == "$ ";
      } else {
        assert Labels[i] == "EUR" && Heads[i] == [Euro, ' '];
      }
    }
  }

  /** A rate segment starts with its head and has the table colour it was given. */
  lemma {:induction false} RateSegment(head: string, v: real, color: RGB)
    ensures var seg := Segment(head + RateText(v), color);
      |head| <= |seg.text| && seg.text[..|head|] == head && seg.color == color
  {
    assert (head + RateText(v))[..|head|] == head;
  }

  /** `s * k`: the list repeated k times. */
  function Repeat<T>(s: seq<T>, k: nat): seq<T>
  {
    if k == 0 then [] else s + Repeat(s, k - 1)
  }

  /** Element i of the repeated list is element i mod |s| of the list. */
  lemma {:induction false} RepeatIndex<T>(s: seq<T>, k: nat, i: nat)
    requires i < |Repeat(s, k)|
    ensures |s| > 0 && |Repeat(s, k)| == k * |s|
    ensures Repeat(s, k)[i] == s[i % |s|]
  {
    RepeatLength(s, k);
    if i >= |s| {
      RepeatIndex(s, k - 1, i - |s|);
      Arith.ModSub(i, |s|);
    }
  }

  lemma {:induction false} RepeatLength<T>(s: seq<T>, k: nat)
    ensures |Repeat(s, k)| == k * |s|
  {
    if k > 0 {
      RepeatLength(s, k - 1);
    }
  }

  /** Five segments cycled three times: fifteen draws, draw i being segment i mod 5. */
  lemma {:induction false} DrawsCycle(crypto: map<string, Feed.Quote>, fx: Feed.FxRates)
    requires HasCoins(crypto)
    ensures var draws := Repeat(Segments(crypto, fx), 3);
      && |draws| == 15
      && forall i :: 0 <= i < 15 ==> draws[i] == Segments(crypto, fx)[i % 5]
  {
    var segs := Segments(crypto, fx);
    RepeatLength(segs, 3);
    forall i | 0 <= i < 15
      ensures Repeat(segs, 3)[i] == segs[i % 5]
    {
      RepeatIndex(segs, 3, i);
    }
  }

  // ---------------------------------------------------------------------------
  // The layout loop

  /** A text width as the font measures it. */
  type Width = w: real | w >= 0.0 witness 0.0

  const Separator: string := " | "
  const LeftMargin: real := 40.0
  const ShadowOffset: int := 2
  const Shadow: RGB := RGB(0, 0, 0)
  const SeparatorColor: RGB := RGB(220, 220, 230)

  datatype DrawOp =
    | Text(x: real, y: int, text: string, fill: RGB)
    | Rect(x0: int, y0: int, x1: int, y1: int, fill: RGB)

  /** The pen position before draw i: the margin plus every earlier segment and separator width. */
  function SegmentX(draws: seq<Segment>, i: nat, width: string -> Width): real
    requires i <= |draws|
  {
    if i == 0 then LeftMargin
    else SegmentX(draws, i - 1, width) + width(draws[i - 1].text) + width(Separator)
  }

  /**
   * The three drawing operations of draw i: the shadow, offset by 2 in black; the
   * text in its colour at the pen; the separator right after the text.
   */
  function DrawOpsOf(draws: seq<Segment>, i: nat, y: int, width: string -> Width): seq<DrawOp>
    requires i < |draws|
  {
    var x := SegmentX(draws, i, width);
    [ Text(x + ShadowOffset as real, y + ShadowOffset, draws[i].text, Shadow),
      Text(x, y, draws[i].text, draws[i].color),
      Text(x + width(draws[i].text), y, Separator, SeparatorColor) ]
  }

  /** The drawing operations of the first n draws, in order. */
  function DrawOps(draws: seq<Segment>, n: nat, y: int, width: string -> Width): seq<DrawOp>
    requires n <= |draws|
  {
    if n == 0 then [] else DrawOps(draws, n - 1, y, width) + DrawOpsOf(draws, n - 1, y, width)
  }

  /** Operations 3i, 3i+1 and 3i+2 draw the shadow, the text and the separator of draw i. */
  lemma {:induction false} DrawOpsAt(draws: seq<Segment>, n: nat, i: nat, y: int, width: string -> Width)
    requires i < n <= |draws|
    ensures |DrawOps(draws, n, y, width)| == 3 * n
    ensures DrawOps(draws, n, y, width)[3 * i .. 3 * i + 3] == DrawOpsOf(draws, i, y, width)
  {
    DrawOpsLength(draws, n - 1, y, width);
    if i < n - 1 {
      DrawOpsAt(draws, n - 1, i, y, width);
    }
  }

  lemma {:induction false} DrawOpsLength(draws: seq<Segment>, n: nat, y: int, width: string -> Width)
    requires n <= |draws|
    ensures |DrawOps(draws, n, y, width)| == 3 * n
  {
    if n > 0 {
      DrawOpsLength(draws, n - 1, y, width);
    }
  }

  /** The loop `for seg, col in segments * 3` at mid-height, the pen starting at 40. */
  method Layout(draws: seq<Segment>, height: nat, width: string -> Width) returns (ops: seq<DrawOp>)
    ensures ops == DrawOps(draws, |draws|, height / 2, width)
  {
    var x: real := LeftMargin;
    var y := height / 2;
    ops := [];
    for i := 0 to |draws|
      invariant x == SegmentX(draws, i, width)
      invariant ops == DrawOps(draws, i, y, width)
    {
      var seg := draws[i];
      ops := ops + [Text(x + ShadowOffset as real, y + ShadowOffset, seg.text, Shadow),
                    Text(x, y, seg.text, seg.color)];
      x := x + width(seg.text) + width(Separator);
      ops := ops + [Text(x - width(Separator), y, Separator, SeparatorColor)];
    }
  }

  /**
   * Draws never overlap and move right: draw i and its separator end before or
   * where draw j starts, for every later j; the pen never goes left of 40.
   */
  lemma {:induction false} PenAdvances(draws: seq<Segment>, i: nat, j: nat, width: string -> Width)
    requires i < j <= |draws|
    ensures LeftMargin <= SegmentX(draws, i, width)
    ensures SegmentX(draws, i, width) + width(draws[i].text) + width(Separator) <= SegmentX(draws, j, width)
  {
    if j == i + 1 {
      PenFromMargin(draws, i, width);
    } else {
      PenAdvances(draws, i, j - 1, width);
    }
  }

  lemma {:induction false} PenFromMargin(draws: seq<Segment>, i: nat, width: string -> Width)
    requires i <= |draws|
    ensures LeftMargin <= SegmentX(draws, i, width)
  {
    if i > 0 {
      PenFromMargin(draws, i - 1, width);
    }
  }

  const Background: RGB := RGB(20, 26, 40)
  const Border: RGB := RGB(40, 50, 70)

  /** The surface: its size, its background and the drawing operations in order. */
  datatype Canvas = Canvas(width: nat, height: nat, background: RGB, ops: seq<DrawOp>)

  /**
   * `build_ticker_surface`: the fifteen draws laid out on the background, then
   * the top and bottom border strips.
   */
  method BuildTickerSurface(crypto: map<string, Feed.Quote>, fx: Feed.FxRates, width: nat, height: nat,
                            textWidth: string -> Width) returns (c: Canvas)
    requires HasCoins(crypto)
    ensures c.width == width && c.height == height && c.background == Background
    ensures var draws := Repeat(Segments(crypto, fx), 3);
      c.ops == DrawOps(draws, |draws|, height / 2, textWidth)
               + [Rect(0, 0, width, 2, Border), Rect(0, height - 2, width, height, Border)]
  {
    var segments := Segments(crypto, fx);
    var draws := Repeat(segments, 3);
    var ops := Layout(draws, height, textWidth);
    ops := ops + [Rect(0, 0, width, 2, Border), Rect(0, height - 2, width, height, Border)];
    c := Canvas(width, height, Background, ops);
  }
}
