# Daily digest bot — ticker core

A model of the computational core of `digest_bot.py`, a bot that posts a daily
market digest: coin prices and rouble exchange rates drawn as a scrolling
marquee (the "ticker") and cut into animation frames. The model covers:

- the price feed (`Feed`). `get_crypto` turns the parsed price-provider reply
  into three quotes keyed BTC, ETH and TON, or raises the KeyError of the first
  missing key. `get_fx` walks six exchange-rate providers in a fixed order. It
  absorbs failures, keeps the last RUB rate reported for each base, stops as
  soon as both rates are truthy, and replaces a missing or zero rate by 83.0 or
  97.0.
- number formatting (`NumFormat`). `nice_num` formats a number with `,` as the
  thousands separator, replaces it by a space, and strips trailing zeros and a
  bare decimal point. Numbers are fixed-point values rounded half to even,
  as Python's `f"{n:,.{d}f}"` rounds the exact value of its argument.
- the marquee surface (`Ticker`). `part_coin` builds a coin's text, arrow and
  colour. The five segments are BTC, ETH, TON, then the dollar and euro rates.
  They are cycled three times and laid out left to right from x = 40 at
  mid-height. Each is drawn as a black shadow offset by 2, the text in its
  colour, and a `" | "` separator. Two border strips finish the surface.
- the frame sampler (`Sampler`). `make_ticker_frames` slides a `frame_w`-wide
  window over the surface. Frame i sits at offset `int(i * speed / fps) mod w`,
  and a window that runs past the right edge is made of the surface's tail
  followed by its head.

The model keeps three details of the code exactly:

- the frame count is exactly `duration * fps`;
- the offset uses `int()`, which truncates toward zero;
- the surface is always 2400 wide, whatever the window width, and the code
  draws the five segments three times from x = 40, whatever their widths. Text
  drawn past x = 2400 is clipped by the image.

`Wrappers` holds `Option`/`Result`, and `Arith` holds the division and
remainder facts the proofs use.

## Model

| member | source | states |
|---|---|---|
| Feed.Pack | digest_bot.py:82 | Succeeds exactly when the asset and both its `usd` and `usd_24h_change` fields are present. The quote carries the given symbol and those two numbers. A missing asset yields the KeyError for the asset id. |
| Feed.GetCrypto | digest_bot.py:78-85 | Succeeds exactly when bitcoin, ethereum and the-open-network all have full quotes. The result then has exactly the keys BTC, ETH and TON, each holding its asset's price and change under its own symbol. |
| Feed.Finish | digest_bot.py:107 | Neither returned rate is ever zero. Each is the collected rate when that rate is truthy, otherwise 83.0 for USD and 97.0 for EUR. |
| Feed.GetFx | digest_bot.py:87-107 | Consults the providers in order. It stops at the first count after which both rates are truthy, or after all six. The result is the default-filled rates collected by that point. |
| Feed.Absorb | digest_bot.py:101-103 | One consulted provider's effect on the two rates. Its meaning is given by Feed.RatesAreLast: only a RUB reply changes anything, and only for the provider's own base. |
| Feed.RatesAfter | digest_bot.py:97-105 | The two rates after the first n providers, folded in order from None and None. Feed.RatesAreLast proves each equals the last rate reported for its base. |
| Feed.RatesAreLast | digest_bot.py:98-105 | Failures and replies without RUB change nothing. Each variable holds the last RUB rate reported for its base. |
| Feed.RatesDependOnPrefix | digest_bot.py:98-106 | The rates after n providers depend only on the first n outcomes. |
| Feed.OnlyConsultedMatter | digest_bot.py:98-106 | Short circuit: whatever the providers after the stopping point would return, the number consulted and the rates are the same. |
| Feed.StopIsUnique | digest_bot.py:106 | The number of providers consulted is determined by the outcomes. |
| Feed.AllFailedGivesDefaults | digest_bot.py:97-107 | When no provider reports a RUB rate, all six are consulted and the result is 83.0 and 97.0. |
| Feed.StopNeedsBothBases | digest_bot.py:101-106 | A stop before the end needs a non-zero RUB report for USD and one for EUR among the providers consulted. |
| Feed.LastRateReported | digest_bot.py:101-103 | A collected rate was reported by one of the providers consulted for that base. |
| NumFormat.Digits | digest_bot.py:113 | Integer digits are a non-empty digit string. |
| NumFormat.DigitsValue | digest_bot.py:113 | Reading the digits of n gives back n. |
| NumFormat.DigitsNoLeadingZero | digest_bot.py:113 | The integer digits have no leading zero except for 0 itself. |
| NumFormat.PadDigits | digest_bot.py:113 | Fraction digits are exactly `places` digits. |
| NumFormat.PadDigitsValue | digest_bot.py:113 | The fraction digits read back as the low `places` digits of the mantissa. |
| NumFormat.DigitSplit | digest_bot.py:113 | The integer part and fraction of a fixed-point value are the quotient and remainder by 10^places, and they recombine to the mantissa. |
| NumFormat.Grouped | digest_bot.py:113 | A grouped integer is non-empty and ends with a digit. |
| NumFormat.GroupedWellFormed | digest_bot.py:113 | For a non-digit separator, the grouped integer has a first group of 1 to 3 digits with no leading zero, then groups of a separator and exactly 3 digits. |
| NumFormat.GroupedValue | digest_bot.py:113 | Removing the separators from the grouped integer reads back n. |
| NumFormat.GroupedChars | digest_bot.py:113 | The grouped integer contains only digits and the separator. |
| NumFormat.ReplaceGrouped | digest_bot.py:113 | Replacing `,` by a space in the comma-grouped integer gives the space-grouped integer. |
| NumFormat.FormatF | digest_bot.py:113 | The `,.{d}f` and `.2f` formats of a rounded value: sign, integer digits (grouped or not), then '.' and exactly `places` fraction digits. Its meaning is given by NumFormat.FormatFFraction, NumFormat.FormatFChars, NumFormat.ReplacedFormat and NumFormat.GroupedValue. |
| NumFormat.FormatFFraction | digest_bot.py:113 | With d > 0 places the text ends in '.' followed by exactly d digits, and those digits read as the fraction of the fixed-point value. |
| NumFormat.Replace | digest_bot.py:113 | `replace` keeps the string's length. Its contents are given by NumFormat.ReplaceChars. |
| NumFormat.ReplaceChars | digest_bot.py:113 | `replace(a, b)` turns every `a` into `b` and keeps every other character at its place. |
| NumFormat.RStrip | digest_bot.py:114 | `rstrip(c)` returns a prefix that does not end in c, and everything removed was c. |
| NumFormat.RStripZerosValue | digest_bot.py:114 | Stripping trailing zeros from a fraction's digits keeps their value as a fraction. |
| NumFormat.RoundHalfEven | digest_bot.py:113 | The result is within 0.5 of the real it rounds, and a tie goes to the even integer. These two facts fix the result uniquely. |
| NumFormat.ToFixed | digest_bot.py:113 | The fixed-point value has the requested number of places and is negative exactly when the number is. Its mantissa is given by NumFormat.ToFixedRounds. |
| NumFormat.ToFixedRounds | digest_bot.py:113 | The mantissa is within 0.5 of \|v\|·10^d. A tie goes to the even mantissa, which is how Python rounds in `f"{n:,.{d}f}"` and `:.2f`. |
| NumFormat.NiceNum | digest_bot.py:112-115 | `nice_num` itself. Its meaning is given by NumFormat.NiceNumShape, NumFormat.NiceNumFraction, NumFormat.NiceNumNoTrailingZero and NumFormat.NiceNumChars. |
| NumFormat.NiceNumShape | digest_bot.py:112-115 | `nice_num` is the sign, the space-grouped integer part, then the fraction with its trailing zeros and a bare point removed. |
| NumFormat.NiceNumNoTrailingZero | digest_bot.py:114 | When the result has a '.', it ends neither in '0' nor in '.'. |
| NumFormat.NiceNumWhole | digest_bot.py:113-114 | With 0 places the result is the sign and the space-grouped integer. |
| NumFormat.NiceNumHasDot | digest_bot.py:114 | A '.' survives exactly when some fraction digits are left after stripping trailing zeros. NumFormat.NiceNumFraction turns this into "exactly when the fraction is non-zero". |
| NumFormat.NiceNumFraction | digest_bot.py:113-114 | '.' appears exactly when the fraction is non-zero. The digits after it read as the fraction with its trailing zeros removed. |
| NumFormat.NiceNumChars | digest_bot.py:112-115 | The result contains only digits, spaces, '.' and '-'. |
| NumFormat.FormatFChars | digest_bot.py:141 | The `:.2f` output contains nothing but digits, spaces, '.' and '-', so it holds no arrow. |
| Ticker.PartCoin | digest_bot.py:138-142 | `part_coin` itself. Its meaning is given by Ticker.PartCoinArrow, Ticker.PriceTextPrecision, Ticker.ChangeTextValue and Ticker.CoinSegment. |
| Ticker.PartCoinArrow | digest_bot.py:138-141 | The coin text shows '▲' exactly when the change is non-negative and '▼' exactly when it is negative. |
| Ticker.PriceTextPrecision | digest_bot.py:141 | A price from 1000 up prints as space-grouped whole dollars with no '.'. Below 1000 it keeps a '.' exactly when the rounded cents are non-zero. |
| Ticker.ChangeTextValue | digest_bot.py:141 | The change prints with exactly two fraction digits, and its digits read as the absolute change rounded to cents. |
| Ticker.CoinSegment | digest_bot.py:138-142 | A coin text starts with its name and " $". A name in the colour table always gets its table colour. |
| Ticker.Segments | digest_bot.py:145-151 | There are exactly five segments. Their contents are given by Ticker.SegmentsContent and Ticker.SegmentsOrder. |
| Ticker.SegmentsContent | digest_bot.py:145-150 | Segment i < 3 is `part_coin` of coin i's own name, price and change, for BTC, ETH and TON. Segment 3 is "$ " and the dollar rate, and segment 4 is "€ " and the euro rate, each through `nice_num(rate, 2)`. |
| Ticker.SegmentsOrder | digest_bot.py:129-151 | Segment i is BTC, ETH, TON, USD, EUR in that order. Each takes its colour from the name table and starts with "NAME $", "$ " or "€ ". |
| Ticker.Repeat | digest_bot.py:159 | `segments * 3`. Its meaning is given by Ticker.RepeatIndex and Ticker.RepeatLength. |
| Ticker.RepeatIndex | digest_bot.py:159 | Element i of `s * k` is element i mod \|s\| of s, and the list has k·\|s\| elements. |
| Ticker.RepeatLength | digest_bot.py:159 | `s * k` has k·\|s\| elements. |
| Ticker.DrawsCycle | digest_bot.py:159 | The loop makes 15 draws, and draw i is segment i mod 5. |
| Ticker.Layout | digest_bot.py:154-169 | The loop emits, per draw and in order, a shadow at (x+2, y+2), the text at (x, y) and the separator after the text. y is height // 2, and x starts at 40 and grows by the text and separator widths. |
| Ticker.DrawOpsAt | digest_bot.py:159-169 | Operations 3i to 3i+2 are the shadow, text and separator of draw i. |
| Ticker.DrawOpsLength | digest_bot.py:159-169 | Each draw emits exactly three operations. |
| Ticker.PenAdvances | digest_bot.py:154-167 | Draws never overlap and only move right. Draw i and its separator end at or before the start of any later draw. |
| Ticker.PenFromMargin | digest_bot.py:154-167 | The pen never goes left of x = 40. |
| Ticker.BuildTickerSurface | digest_bot.py:118-176 | The surface has the requested size and the background (20, 26, 40). Its operations are the layout of the 15 draws followed by the top and bottom border strips. |
| Sampler.OrDefault | digest_bot.py:180-181 | `v or default` for a number: None and zero are replaced, any other value is kept. The values are pinned down by Sampler.FalsyDefaults. |
| Sampler.FrameCount | digest_bot.py:180-188 | The number of loop iterations, `len(range(duration * fps))` after the default. The values are pinned down by Sampler.FalsyDefaults. |
| Sampler.Accumulated | digest_bot.py:185-198 | The accumulator before frame i. Sampler.AccumulatorStep proves it starts at 0 and grows by speed / fps. |
| Sampler.Crop | digest_bot.py:191-194 | `surf.crop` of a full-height column range. Its effect on frames is given by Sampler.FrameColumn and Sampler.WrapSplit. |
| Sampler.PasteSideBySide | digest_bot.py:195-196 | A new image holding one part at x = 0 and the other right after it. Its effect on frames is given by Sampler.FrameColumn and Sampler.WrapSplit. |
| Sampler.Trunc | digest_bot.py:189 | `int()` truncates toward zero: the floor for non-negative values and the ceiling for negative ones. |
| Sampler.AccumulatorStep | digest_bot.py:185-198 | The accumulator starts at 0 and grows by speed / fps per frame. |
| Sampler.Offset | digest_bot.py:189 | The sampling offset lies in [0, w). |
| Sampler.FrameAt | digest_bot.py:190-196 | Every frame is exactly `frame_w` columns wide and `frame_h` high, wrapping or not. |
| Sampler.FrameColumn | digest_bot.py:190-196 | Column j of the frame at offset xi is surface column (xi + j) mod w. |
| Sampler.FrameIsWindowOfDoubled | digest_bot.py:190-196 | Seamless wraparound: every frame is the window [xi, xi + frame_w) of the surface laid twice side by side. |
| Sampler.WrapSplit | digest_bot.py:190-196 | A frame wraps exactly when xi + frame_w > w. Then the tail and head are both non-empty, sum to frame_w, and the head ends before xi. |
| Sampler.FramesOverlap | digest_bot.py:189-198 | When the window moves right by d (mod w), column j of the later frame is column j + d of the earlier one. |
| Sampler.OffsetInIntegers | digest_bot.py:185-189 | For a non-negative integer speed and a positive fps, the offset is floor(i·speed / fps) mod w. |
| Sampler.MakeTickerFrames | digest_bot.py:178-199 | A falsy duration or speed becomes 14 or 100, and the speed may be any real number. The method produces max(0, duration·fps) frames, and frame i is the window at offset int(i·speed/fps) mod w. |
| Sampler.FalsyDefaults | digest_bot.py:178-186 | A missing or zero duration counts as 14 s, and any other duration is kept. For fps > 0 the default gives 14·fps frames. A missing or zero speed counts as 100 px/s, and any other speed is kept. With 24 fps that makes 336 frames, and the 1280-wide window fits the 2400-wide surface. |

## Left out

- Network I/O is not modelled: the HTTP session, timeouts and `raise_for_status`. The price reply is a parsed map, and each exchange-rate provider's request has a given outcome: failed, no RUB rate, or a rate.
- JSON values are modelled as numbers. `float()` on a non-numeric JSON value is covered by the failed outcome in `get_fx`. In `get_crypto` such a value is not modelled.
- Floating point is not modelled: numbers are exact reals. The accumulator is `i * (speed / fps)` exactly, so the drift of repeated float addition and NaN or infinite rates are outside the model. A NaN rate would be truthy in Python.
- NumFormat.NiceNum: `-0.0` is not distinguished from `0.0`. Rounding is exact half-to-even on the real value, which is what Python's `f"{n:.{d}f}"` does to the exact binary value of a float.
- Pixels and fonts are not modelled. Text width is a given non-negative function, and the ticker surface is its list of drawing operations. The sampler works on a surface given as columns of an opaque pixel type. Rasterising the operations into those columns is not modelled, so Sampler.MakeTickerFrames takes the already rendered 2400-wide surface instead of calling `build_ticker_surface` itself.
- The model does not relate the drawn text widths to the 2400 columns the sampler reads. It makes no claim that the picture has no seam at the wrap: with real font widths the fifteen draws run past x = 2400, so clipped text meets the left margin there.
- Sampler.MakeTickerFrames requires `frame_w <= w`. A wider window would make PIL pad the crop with black, and that is not modelled.
- Sampler.MakeTickerFrames requires `fps != 0`. With 0 the source raises ZeroDivisionError, and that error path is not modelled.
- The pasting of two parts onto a new black image is modelled as concatenation. That is exact because the two parts always cover the whole frame (Sampler.WrapSplit).
- The environment overrides of `TICKER_SPEED` and `TICKER_DUR` are not modelled; their defaults 100 and 14 are constants.
- The rest of the bot is not part of this model: `render_digest`, encoding the frames to MP4 or GIF, sending through Telegram, the scheduler, commands and logging.
- The code runs the providers one after another and has no locking, so no concurrency is modelled.
- The rounded-rectangle helper `rr` is not part of this model.
