/** The figures `render` derives from the entries and the other voters'
    baseline: real and clamped totals, prize shares, dollar amounts, the
    positive / neutral / negative classification and the one-vote previews
    shown on the up and down buttons. BigNumber arithmetic is exact here. */
module Allocation {
  import opened Sums
  import opened Entries
  import opened Ledger

  datatype Option<T> = None | Some(value: T)

  function AbsR(x: real): real
  {
    if x < 0.0 then -x else x
  }

  /** `Math.max(x, 0)` */
  function Max0(x: int): int
  {
    if x < 0 then 0 else x
  }

  /** `votes * Math.abs(votes)`: the square, carrying the sign of the votes. */
  function SignedSquare(v: int): (w: int)
    ensures w > 0 <==> v > 0
    ensures w < 0 <==> v < 0
    ensures w == v * v || w == -(v * v)
  {
    if v < 0 then
      assert v * v > 0;
      v * -v
    else
      assert v > 0 ==> v * v > 0;
      v * v
  }

  lemma SignedSquareMonotone(a: int, b: int)
    requires a <= b
    ensures SignedSquare(a) <= SignedSquare(b)
  {
    if 0 <= a {
      assert a * a <= a * b <= b * b;
    } else if b <= 0 {
      assert (-b) * (-b) <= (-a) * (-b) <= (-a) * (-a);
    }
  }

  /** `voteTotalReal`: each entry's signed square on top of its baseline. */
  function VoteTotalReal(es: seq<Entry>, others: seq<int>): (r: seq<int>)
    requires |es| == |others|
    ensures |r| == |es|
  {
    seq(|es|, i requires 0 <= i < |es| => SignedSquare(es[i].votes) + others[i])
  }

  /** A real total exceeds the baseline exactly for up-voted entries,
      equals it exactly for entries without votes and falls below it
      exactly for down-voted ones. */
  lemma VoteTotalRealSign(es: seq<Entry>, others: seq<int>)
    requires |es| == |others|
    ensures var r := VoteTotalReal(es, others);
      forall i :: 0 <= i < |r| ==>
        && (r[i] > others[i] <==> es[i].votes > 0)
        && (r[i] == others[i] <==> es[i].votes == 0)
        && (r[i] < others[i] <==> es[i].votes < 0)
  {
  }

  /** `voteTotalAbsolute` / `voteOthersAbsolute`: totals clamped at 0. */
  function Clamped(s: seq<int>): (r: seq<int>)
    ensures |r| == |s|
  {
    seq(|s|, i requires 0 <= i < |s| => Max0(s[i]))
  }

  /** Each clamped total is the least non-negative value not below its
      input. */
  lemma ClampedBounds(s: seq<int>)
    ensures var r := Clamped(s);
      forall i :: 0 <= i < |r| ==> r[i] >= 0 && r[i] >= s[i] && (r[i] == s[i] || r[i] == 0)
  {
  }

  // Each figure below is defined twice. `render` computes it per entry,
  // inside its `map` over the entries (`Share`, `Amount`, `Gain`, `Delta`).
  // The lemmas about all entries at once sum a sequence (`Shares`,
  // `Amounts`, `Gains`, `Deltas`). `AmountAt`, `GainAt` and `DeltaAt` give
  // the per-entry form at each index of the sequence form.

  /** An entry's share of the prize: its weight over the total weight. */
  function Share(abs: seq<int>, i: nat): real
    requires i < |abs| && Sum(abs) != 0
  {
    abs[i] as real / Sum(abs) as real
  }

  function Shares(abs: seq<int>): seq<real>
    requires Sum(abs) != 0
  {
    seq(|abs|, i requires 0 <= i < |abs| => Share(abs, i))
  }

  /** The shares add up to the whole prize. */
  lemma SharesSumToOne(abs: seq<int>)
    requires Sum(abs) != 0
    ensures SumR(Shares(abs)) == 1.0
  {
    var t := Sum(abs) as real;
    forall j | 0 <= j < |abs| ensures Shares(abs)[j] == abs[j] as real / t {
    }
    SumRQuotients(abs, Shares(abs), t);
    assert t / t == 1.0;
  }

  /** With non-negative weights each share is a fraction in [0, 1]. */
  lemma ShareBounds(abs: seq<int>, i: nat)
    requires i < |abs| && Sum(abs) != 0
    requires forall j :: 0 <= j < |abs| ==> abs[j] >= 0
    ensures 0.0 <= Share(abs, i) <= 1.0
  {
    SumBoundsTerm(abs, i);
    SumNonnegative(abs);
    FractionBounds(abs[i] as real, Sum(abs) as real);
  }

  /** A part of a positive whole, over the whole, lies in [0, 1]. */
  lemma FractionBounds(x: real, s: real)
    requires 0.0 <= x <= s && s > 0.0
    ensures 0.0 <= x / s <= 1.0
  {
    QuotientLe(0.0, 1.0, x, s);
    QuotientLe(x, s, 1.0, 1.0);
  }

  /** A quantity in prize units, scaled to dollars. */
  function InDollars(q: real, prize: int, price: real): real
  {
    q * prize as real * price
  }

  /** The dollar amount of an entry (the bold figure). */
  function Amount(totalAbs: seq<int>, i: nat, prize: int, price: real): real
    requires i < |totalAbs| && Sum(totalAbs) != 0
  {
    InDollars(Share(totalAbs, i), prize, price)
  }

  /** The dollar amount of an entry under the baseline alone: its credit
      count when that is negative, its dollars otherwise. */
  datatype Figure = Credits(credits: int) | Dollars(amount: real)

  function BaselineFigure(othersReal: seq<int>, othersAbs: seq<int>, i: nat, prize: int, price: real): Figure
    requires i < |othersReal| == |othersAbs|
    requires othersReal[i] >= 0 ==> Sum(othersAbs) != 0
  {
    if othersReal[i] < 0 then Credits(othersReal[i])
    else Dollars(InDollars(Share(othersAbs, i), prize, price))
  }

  /** The dollar amounts of all entries, in order: the shares times the
      prize, times the price. */
  function Amounts(totalAbs: seq<int>, prize: int, price: real): (r: seq<real>)
    requires Sum(totalAbs) != 0
    ensures |r| == |totalAbs|
  {
    Scale(Scale(Shares(totalAbs), prize as real), price)
  }

  /** The i-th of the amounts is the amount of entry i. */
  lemma AmountAt(totalAbs: seq<int>, i: nat, prize: int, price: real)
    requires i < |totalAbs| && Sum(totalAbs) != 0
    ensures Amounts(totalAbs, prize, price)[i] == Amount(totalAbs, i, prize, price)
  {
    TwiceScaledAt(Shares(totalAbs), prize as real, price, i);
    assert Shares(totalAbs)[i] == Share(totalAbs, i);
  }

  /** The amounts distribute exactly the prize times the price. */
  lemma AmountsSumToPool(totalAbs: seq<int>, prize: int, price: real)
    requires Sum(totalAbs) != 0
    ensures SumR(Amounts(totalAbs, prize, price)) == prize as real * price
  {
    SharesSumToOne(totalAbs);
    SumTwiceScaledWhole(Shares(totalAbs), prize as real, price);
  }

  /** The entry's gain in prize units: its share now minus its share under
      the baseline, times the prize. */
  function Gain(totalAbs: seq<int>, othersAbs: seq<int>, i: nat, prize: int): real
    requires i < |totalAbs| == |othersAbs|
    requires Sum(totalAbs) != 0 && Sum(othersAbs) != 0
  {
    (Share(totalAbs, i) - Share(othersAbs, i)) * prize as real
  }

  /** The dollar change of an entry against the baseline (the page shows
      its absolute value after the arrow). */
  function Delta(totalAbs: seq<int>, othersAbs: seq<int>, i: nat, prize: int, price: real): real
    requires i < |totalAbs| == |othersAbs|
    requires Sum(totalAbs) != 0 && Sum(othersAbs) != 0
  {
    Gain(totalAbs, othersAbs, i, prize) * price
  }

  /** The gains of all entries, in order. */
  function Gains(totalAbs: seq<int>, othersAbs: seq<int>, prize: int): (r: seq<real>)
    requires |totalAbs| == |othersAbs|
    requires Sum(totalAbs) != 0 && Sum(othersAbs) != 0
    ensures |r| == |totalAbs|
  {
    Scale(Difference(Shares(totalAbs), Shares(othersAbs)), prize as real)
  }

  /** The dollar changes of all entries, in order. */
  function Deltas(totalAbs: seq<int>, othersAbs: seq<int>, prize: int, price: real): (r: seq<real>)
    requires |totalAbs| == |othersAbs|
    requires Sum(totalAbs) != 0 && Sum(othersAbs) != 0
    ensures |r| == |totalAbs|
  {
    Scale(Gains(totalAbs, othersAbs, prize), price)
  }

  /** The i-th of the gains is the gain of entry i. */
  lemma GainAt(totalAbs: seq<int>, othersAbs: seq<int>, i: nat, prize: int)
    requires i < |totalAbs| == |othersAbs|
    requires Sum(totalAbs) != 0 && Sum(othersAbs) != 0
    ensures Gains(totalAbs, othersAbs, prize)[i] == Gain(totalAbs, othersAbs, i, prize)
  {
    var s1, s2 := Shares(totalAbs), Shares(othersAbs);
    assert Difference(s1, s2)[i] == s1[i] - s2[i];
    assert s1[i] == Share(totalAbs, i);
    assert s2[i] == Share(othersAbs, i);
  }

  /** The i-th of the dollar changes is the change of entry i. */
  lemma DeltaAt(totalAbs: seq<int>, othersAbs: seq<int>, i: nat, prize: int, price: real)
    requires i < |totalAbs| == |othersAbs|
    requires Sum(totalAbs) != 0 && Sum(othersAbs) != 0
    ensures Deltas(totalAbs, othersAbs, prize, price)[i] == Delta(totalAbs, othersAbs, i, prize, price)
  {
    GainAt(totalAbs, othersAbs, i, prize);
  }

  /** What one participant gains on some entries, the others lose: the
      dollar changes cancel out. */
  lemma DeltasSumToZero(totalAbs: seq<int>, othersAbs: seq<int>, prize: int, price: real)
    requires |totalAbs| == |othersAbs|
    requires Sum(totalAbs) != 0 && Sum(othersAbs) != 0
    ensures SumR(Deltas(totalAbs, othersAbs, prize, price)) == 0.0
  {
    SharesSumToOne(totalAbs);
    SharesSumToOne(othersAbs);
    SumTwiceScaledDifferenceOfWholes(Shares(totalAbs), Shares(othersAbs), prize as real, price);
  }

  lemma TwiceScaledAt(a: seq<real>, p: real, q: real, i: nat)
    requires i < |a|
    ensures Scale(Scale(a, p), q)[i] == a[i] * p * q
  {
    assert Scale(a, p)[i] == a[i] * p;
  }

  /** A sequence that sums to 1, scaled twice, sums to the product of the
      two factors. */
  lemma SumTwiceScaledWhole(a: seq<real>, p: real, q: real)
    requires SumR(a) == 1.0
    ensures SumR(Scale(Scale(a, p), q)) == p * q
  {
    var g := Scale(a, p);
    SumRScaled(a, g, p);
    SumRScaled(g, Scale(g, q), q);
    ScaleChain(SumR(a), p, q, SumR(g), SumR(Scale(g, q)));
  }

  /** Two sequences that each sum to 1, subtracted pointwise and scaled
      twice, sum to 0. */
  lemma SumTwiceScaledDifferenceOfWholes(a: seq<real>, b: seq<real>, p: real, q: real)
    requires |a| == |b| && SumR(a) == 1.0 && SumR(b) == 1.0
    ensures SumR(Scale(Scale(Difference(a, b), p), q)) == 0.0
  {
    var c := Difference(a, b);
    var g := Scale(c, p);
    SumRDifference(a, b, c);
    SumRScaled(c, g, p);
    SumRScaled(g, Scale(g, q), q);
    ScaleChain(SumR(c), p, q, SumR(g), SumR(Scale(g, q)));
  }

  /** Scaling twice in a row: g = x * p and e = g * q give e = x * p * q. */
  lemma ScaleChain(x: real, p: real, q: real, g: real, e: real)
    requires g == x * p && e == g * q
    ensures x == 0.0 ==> e == 0.0
    ensures x == 1.0 ==> e == p * q
  {
  }

  /** BigNumber `dp(2)` in its default rounding mode ROUND_HALF_UP: to the
      nearest hundredth, ties away from zero. */
  function Dp2(x: real): real
  {
    if x >= 0.0 then (x * 100.0 + 0.5).Floor as real / 100.0
    else -(((-x) * 100.0 + 0.5).Floor as real / 100.0)
  }

  /** A value rounds to zero at two decimals exactly when it is below half
      a hundredth in magnitude. */
  lemma Dp2IsZero(x: real)
    ensures Dp2(x) == 0.0 <==> -0.005 < x < 0.005
  {
    var y := if x >= 0.0 then x else -x;
    var f := (y * 100.0 + 0.5).Floor;
    assert f as real <= y * 100.0 + 0.5 < f as real + 1.0;
    assert Dp2(x) == 0.0 <==> f == 0;
  }

  /** The colour class of an entry's figures: 'positive', none, 'negative'. */
  datatype Tone = Positive | Neutral | Negative

  /** Below zero the raw vote difference decides; otherwise the gain,
      neutral when it rounds to zero at two decimals. */
  function Classify(totalReal: seq<int>, othersReal: seq<int>, totalAbs: seq<int>, othersAbs: seq<int>,
                    prize: int, i: nat): Tone
    requires i < |totalReal| == |othersReal| == |totalAbs| == |othersAbs|
    requires totalReal[i] >= 0 ==> Sum(totalAbs) != 0 && Sum(othersAbs) != 0
  {
    if totalReal[i] < 0 then
      if totalReal[i] == othersReal[i] then Neutral
      else if totalReal[i] - othersReal[i] > 0 then Positive
      else Negative
    else
      var gain := Gain(totalAbs, othersAbs, i, prize);
      if Dp2(gain) == 0.0 then Neutral
      else if gain > 0.0 then Positive
      else Negative
  }

  /** An entry whose real total is negative is classified by the direction
      of the participant's own votes. */
  lemma ClassifyBelowZero(es: seq<Entry>, others: seq<int>, prize: int, i: nat)
    requires |es| == |others| && i < |es|
    requires VoteTotalReal(es, others)[i] < 0
    ensures var tr := VoteTotalReal(es, others);
      Classify(tr, others, Clamped(tr), Clamped(others), prize, i)
        == if es[i].votes > 0 then Positive else if es[i].votes == 0 then Neutral else Negative
  {
  }

  /** An entry whose real total is not negative is neutral exactly when
      its gain is below half a cent, and otherwise follows the gain's sign. */
  lemma ClassifyAtOrAboveZero(totalReal: seq<int>, othersReal: seq<int>, totalAbs: seq<int>, othersAbs: seq<int>,
                              prize: int, i: nat)
    requires i < |totalReal| == |othersReal| == |totalAbs| == |othersAbs|
    requires totalReal[i] >= 0 && Sum(totalAbs) != 0 && Sum(othersAbs) != 0
    ensures var g := Gain(totalAbs, othersAbs, i, prize);
      var c := Classify(totalReal, othersReal, totalAbs, othersAbs, prize, i);
      && (c == Neutral <==> -0.005 < g < 0.005)
      && (c == Positive <==> g >= 0.005)
      && (c == Negative <==> g <= -0.005)
  {
    Dp2IsZero(Gain(totalAbs, othersAbs, i, prize));
  }

  /** Before any vote the totals are the baseline and every entry keeps
      its baseline share: no gain, no dollar change, all neutral. */
  lemma UnvotedIsBaseline(es: seq<Entry>, others: seq<int>, prize: int, price: real)
    requires |es| == |others|
    requires forall i :: 0 <= i < |es| ==> es[i].votes == 0
    requires Sum(Clamped(others)) != 0
    ensures VoteTotalReal(es, others) == others
    ensures Clamped(VoteTotalReal(es, others)) == Clamped(others)
    ensures forall i :: 0 <= i < |es| ==>
      && Share(Clamped(others), i) == Share(Clamped(VoteTotalReal(es, others)), i)
      && Delta(Clamped(VoteTotalReal(es, others)), Clamped(others), i, prize, price) == 0.0
      && Classify(VoteTotalReal(es, others), others, Clamped(VoteTotalReal(es, others)), Clamped(others), prize, i) == Neutral
  {
    var tr := VoteTotalReal(es, others);
    assert tr == others;
  }

  /** Before any vote, the line under each title (the other voters'
      share in dollars, when their total is not negative) shows the same
      dollars as the bold current amount. */
  lemma UnvotedFigureIsAmount(es: seq<Entry>, others: seq<int>, i: nat, prize: int, price: real)
    requires |es| == |others| && i < |es|
    requires forall j :: 0 <= j < |es| ==> es[j].votes == 0
    requires others[i] >= 0 && Sum(Clamped(others)) != 0
    ensures Sum(Clamped(VoteTotalReal(es, others))) != 0
    ensures BaselineFigure(others, Clamped(others), i, prize, price)
         == Dollars(Amount(Clamped(VoteTotalReal(es, others)), i, prize, price))
  {
    assert VoteTotalReal(es, others) == others;
  }

  /** The change shown on a button for moving the entry's votes to `u`:
      its share with the entry's unclamped new total in the denominator,
      minus its current share. None stands for BigNumber's NaN, a zero
      denominator. */
  function PreviewChange(totalAbs: seq<int>, othersReal: seq<int>, i: nat, u: int, prize: int, price: real): Option<real>
    requires i < |totalAbs| == |othersReal|
  {
    var w := SignedSquare(u);
    var den := Sum(totalAbs) + othersReal[i] - totalAbs[i] + w;
    if den == 0 || Sum(totalAbs) == 0 then None
    else Some(InDollars(Max0(othersReal[i] + w) as real / den as real - Share(totalAbs, i), prize, price))
  }

  /** The figure on the up button ('+$'). */
  function UpPreview(totalAbs: seq<int>, othersReal: seq<int>, i: nat, votes: int, prize: int, price: real): Option<real>
    requires i < |totalAbs| == |othersReal|
  {
    PreviewChange(totalAbs, othersReal, i, votes + 1, prize, price)
  }

  /** The figure on the down button ('-$'), shown as a magnitude. */
  function DownPreview(totalAbs: seq<int>, othersReal: seq<int>, i: nat, votes: int, prize: int, price: real): Option<real>
    requires i < |totalAbs| == |othersReal|
  {
    match PreviewChange(totalAbs, othersReal, i, votes - 1, prize, price)
    case None => None
    case Some(x) => Some(AbsR(x))
  }

  /** The figure for moving entry i's votes to u is defined and equals, in
      dollars, how far its share moves from the totals `cur` to `hyp`. */
  predicate PreviewIsShareChange(cur: seq<int>, hyp: seq<int>, others: seq<int>, i: nat, u: int,
                                 prize: int, price: real)
    requires i < |cur| == |hyp| == |others|
  {
    && Sum(cur) != 0 && Sum(hyp) != 0
    && PreviewChange(cur, others, i, u, prize, price)
         == Some(InDollars(Share(hyp, i) - Share(cur, i), prize, price))
  }

  /** Recomputing the totals after a vote on one entry changes only that
      entry's clamped total. */
  lemma TotalsAfterVote(es: seq<Entry>, others: seq<int>, k: nat, d: int)
    requires |es| == |others| && k < |es|
    ensures Clamped(VoteTotalReal(es[k := Voted(es[k], d)], others))
         == Clamped(VoteTotalReal(es, others))[k := Max0(others[k] + SignedSquare(es[k].votes + d))]
  {
  }

  /** The preview is the share the entry would have after the vote, minus
      the share it has now, scaled to dollars; it measures against the
      current share, not the baseline one. It is defined whenever the new
      unclamped total is not negative. */
  lemma PreviewPredictsVote(es: seq<Entry>, others: seq<int>, k: nat, d: int, prize: int, price: real)
    requires |es| == |others| && k < |es|
    requires Sum(Clamped(VoteTotalReal(es, others))) != 0
    requires Sum(Clamped(VoteTotalReal(es[k := Voted(es[k], d)], others))) != 0
    ensures var cur := Clamped(VoteTotalReal(es, others));
      var hyp := Clamped(VoteTotalReal(es[k := Voted(es[k], d)], others));
      var p := PreviewChange(cur, others, k, es[k].votes + d, prize, price);
      && (others[k] + SignedSquare(es[k].votes + d) >= 0 ==> p.Some?)
      && (p.Some? ==> p.value == InDollars(Share(hyp, k) - Share(cur, k), prize, price))
  {
    var cur := Clamped(VoteTotalReal(es, others));
    var hyp := Clamped(VoteTotalReal(es[k := Voted(es[k], d)], others));
    var t := others[k] + SignedSquare(es[k].votes + d);
    TotalsAfterVote(es, others, k, d);
    SumUpdate(cur, k, Max0(t));
    var den := Sum(cur) + others[k] - cur[k] + SignedSquare(es[k].votes + d);
    if t >= 0 {
      assert den == Sum(hyp);
    } else {
      assert hyp[k] == 0;
      assert Share(hyp, k) == 0.0;
    }
  }

  /** Comparing quotients with positive denominators by cross-multiplying. */
  lemma QuotientLe(p: real, a: real, q: real, b: real)
    requires a > 0.0 && b > 0.0 && p * b <= q * a
    ensures p / a <= q / b
  {
    var u, w := p / a, q / b;
    assert p == u * a && q == w * b;
  }

  /** Moving an entry's weight from x to x2, the others fixed, moves its
      share the same way: the preview quotient has the sign of x2 - x. */
  lemma ShareShift(x: real, x2: real, s: real)
    requires 0.0 <= x <= s && 0.0 < s && 0.0 <= x2
    requires s - x + x2 > 0.0
    ensures x <= x2 ==> x / s <= x2 / (s - x + x2)
    ensures x2 <= x ==> x2 / (s - x + x2) <= x / s
  {
    var s2 := s - x + x2;
    assert x2 * s - x * s2 == (x2 - x) * (s - x);
    if x <= x2 {
      assert (x2 - x) * (s - x) >= 0.0;
      QuotientLe(x, s, x2, s2);
    } else {
      assert (x2 - x) * (s - x) <= 0.0;
      QuotientLe(x2, s2, x, s);
    }
  }

  /** The sign of the preview's quotient, before scaling to dollars. */
  lemma ChangeSign(x: real, s: real, t: int, den: real, up: bool)
    requires 0.0 <= x <= s && 0.0 < s && den != 0.0
    requires t >= 0 ==> den == s - x + t as real
    requires up ==> (t < 0 ==> x == 0.0) && (t >= 0 ==> x <= t as real)
    requires !up ==> (t >= 0 ==> t as real <= x)
    ensures up ==> Max0(t) as real / den - x / s >= 0.0
    ensures !up ==> Max0(t) as real / den - x / s <= 0.0
  {
    if t < 0 {
      assert Max0(t) as real / den == 0.0;
      assert x / s >= 0.0;
    } else {
      assert den > 0.0;
      ShareShift(x, t as real, s);
    }
  }

  /** The preview, once defined, spelled out over its denominator. */
  lemma PreviewChangeValue(cur: seq<int>, others: seq<int>, k: nat, u: int, prize: int, price: real, den: int)
    requires k < |cur| == |others|
    requires den == Sum(cur) + others[k] - cur[k] + SignedSquare(u)
    requires Sum(cur) != 0 && den != 0
    ensures PreviewChange(cur, others, k, u, prize, price).Some?
    ensures PreviewChange(cur, others, k, u, prize, price).value
         == InDollars(Max0(others[k] + SignedSquare(u)) as real / den as real - cur[k] as real / Sum(cur) as real,
                      prize, price)
  {
    assert Share(cur, k) == cur[k] as real / Sum(cur) as real;
  }

  /** The preview's dollar figure over plain numbers: the entry's clamped
      total `x` moves from the clamp of `c` to the clamp of `t`, in a sum
      `s` that becomes `den`. */
  lemma ChangeFigureSign(x: int, s: int, c: int, t: int, den: int, up: bool, prize: int, price: real)
    requires 0 <= x <= s && s != 0 && den != 0
    requires x == Max0(c) && den == s - x + t
    requires up ==> c <= t
    requires !up ==> t <= c
    requires prize >= 0 && price >= 0.0
    ensures up ==> InDollars(Max0(t) as real / den as real - x as real / s as real, prize, price) >= 0.0
    ensures !up ==> InDollars(Max0(t) as real / den as real - x as real / s as real, prize, price) <= 0.0
  {
    ChangeSign(x as real, s as real, t, den as real, up);
    ScaledSign(Max0(t) as real / den as real - x as real / s as real, prize, price, up);
  }

  /** One button's preview has the sign of its direction. */
  lemma PreviewSign(cur: seq<int>, others: seq<int>, k: nat, v: int, d: int, prize: int, price: real)
    requires k < |cur| == |others| && (d == 1 || d == -1)
    requires forall j :: 0 <= j < |cur| ==> cur[j] >= 0
    requires cur[k] == Max0(others[k] + SignedSquare(v))
    requires prize >= 0 && price >= 0.0
    ensures var p := PreviewChange(cur, others, k, v + d, prize, price);
      p.Some? ==> (if d == 1 then p.value >= 0.0 else p.value <= 0.0)
  {
    var t := others[k] + SignedSquare(v + d);
    var den := Sum(cur) + others[k] - cur[k] + SignedSquare(v + d);
    if den != 0 && Sum(cur) != 0 {
      SumBoundsTerm(cur, k);
      if d == 1 {
        SignedSquareMonotone(v, v + 1);
      } else {
        SignedSquareMonotone(v - 1, v);
      }
      ChangeFigureSign(cur[k], Sum(cur), others[k] + SignedSquare(v), t, den, d == 1, prize, price);
      PreviewChangeValue(cur, others, k, v + d, prize, price, den);
    }
  }

  /** The up button's figure is never a loss and the down button's signed
      change is never a gain, so '+$' and '-$' carry the right sign. */
  lemma PreviewSigns(es: seq<Entry>, others: seq<int>, k: nat, prize: int, price: real)
    requires |es| == |others| && k < |es|
    requires prize >= 0 && price >= 0.0
    ensures var cur := Clamped(VoteTotalReal(es, others));
      var up := UpPreview(cur, others, k, es[k].votes, prize, price);
      var down := PreviewChange(cur, others, k, es[k].votes - 1, prize, price);
      && (up.Some? ==> up.value >= 0.0)
      && (down.Some? ==> down.value <= 0.0)
      && (down.Some? ==> DownPreview(cur, others, k, es[k].votes, prize, price) == Some(-down.value))
  {
    var cur := Clamped(VoteTotalReal(es, others));
    var v := es[k].votes;
    ClampedBounds(VoteTotalReal(es, others));
    assert cur[k] == Max0(others[k] + SignedSquare(v));
    PreviewSign(cur, others, k, v, 1, prize, price);
    PreviewSign(cur, others, k, v, -1, prize, price);
  }

  lemma ScaledSign(q: real, prize: int, price: real, up: bool)
    requires prize >= 0 && price >= 0.0
    requires up ==> q >= 0.0
    requires !up ==> q <= 0.0
    ensures up ==> InDollars(q, prize, price) >= 0.0
    ensures !up ==> InDollars(q, prize, price) <= 0.0
  {
    var m := prize as real * price;
    assert m >= 0.0;
    assert q * prize as real * price == q * m;
  }

  /** Each clamped total weighs at least its baseline minus the entry's
      square. */
  lemma ClampedTotalLowerBound(others: int, v: int)
    ensures others + SignedSquare(v) >= others - v * v
    ensures Max0(others + SignedSquare(v)) >= others - v * v
  {
    assert v * v >= 0;
  }

  /** The clamped totals weigh at least the baseline minus the squares. */
  lemma AbsSumLowerBound(es: seq<Entry>, others: seq<int>)
    requires |es| == |others|
    ensures Sum(Clamped(VoteTotalReal(es, others))) >= Sum(others) - Sum(Squares(es))
  {
    var cur := Clamped(VoteTotalReal(es, others));
    var low := seq(|es|, j requires 0 <= j < |es| => others[j] - es[j].votes * es[j].votes);
    SumPointwiseSub(others, Squares(es), low);
    forall j | 0 <= j < |es| ensures low[j] <= cur[j] {
      ClampedTotalLowerBound(others[j], es[j].votes);
    }
    SumMonotone(low, cur);
  }

  /** One term of the bound below: the totals with the entry's unclamped
      new total in place weigh, term by term, at least the baseline minus
      the squares after the vote. */
  lemma DenominatorTermBound(es: seq<Entry>, others: seq<int>, k: nat, d: int, j: nat)
    requires |es| == |others| && k < |es| && j < |es|
    ensures var cur := Clamped(VoteTotalReal(es, others));
      var t := others[k] + SignedSquare(es[k].votes + d);
      others[j] - Squares(es[k := Voted(es[k], d)])[j] <= cur[k := t][j]
  {
    if j == k {
      ClampedTotalLowerBound(others[k], es[k].votes + d);
    } else {
      ClampedTotalLowerBound(others[j], es[j].votes);
    }
  }

  /** The preview's denominator weighs at least the baseline minus the
      squares after the vote. */
  lemma PreviewDenominatorLowerBound(es: seq<Entry>, others: seq<int>, k: nat, d: int)
    requires |es| == |others| && k < |es|
    ensures var cur := Clamped(VoteTotalReal(es, others));
      Sum(cur) + others[k] - cur[k] + SignedSquare(es[k].votes + d)
        >= Sum(others) - Sum(Squares(es[k := Voted(es[k], d)]))
  {
    var cur := Clamped(VoteTotalReal(es, others));
    var sq2 := Squares(es[k := Voted(es[k], d)]);
    var t := others[k] + SignedSquare(es[k].votes + d);
    SumUpdate(cur, k, t);
    var low := seq(|es|, j requires 0 <= j < |es| => others[j] - sq2[j]);
    SumPointwiseSub(others, sq2, low);
    forall j | 0 <= j < |es| ensures low[j] <= cur[k := t][j] {
      DenominatorTermBound(es, others, k, d, j);
    }
    SumMonotone(low, cur[k := t]);
  }
}
