/** The `app-home` component's state: the preset chosen at load time, the
    entry list that `vote` and `flag` rebuild, and the fields the change
    handler on `entries` recomputes. The buttons' `disabled` predicates
    gate the two operations. */
module Home {
  import opened Sums
  import opened Entries
  import opened Ledger
  import opened Allocation

  const CreditsTotal: int := 100
  const Price: real := 0.08

  function Prize(isSeedFund: bool): int
  {
    if isSeedFund then 5000000 else 500000
  }

  function FlagDivisor(isSeedFund: bool): int
  {
    if isSeedFund then 2 else 5
  }

  /** `Math.floor(creditsTotal / (divisor + 1))`; both operands are
      positive, so Dafny's division agrees with the floor. */
  function FlagPrice(isSeedFund: bool): int
  {
    CreditsTotal / (FlagDivisor(isSeedFund) + 1)
  }

  /** `voteOthersReal`: the other voters' totals, one per sorted position. */
  function Baseline(isSeedFund: bool): seq<int>
  {
    if isSeedFund then [300, 250, 200, 150, 100, 3]
    else [160, 150, 140, 130, 120, 110, 100, 90, 80, 70, 60, 50]
  }

  /** The entries as generated: one per title, no votes, no flag. */
  function Unvoted(titles: seq<string>): (r: seq<Entry>)
    ensures |r| == |titles|
    ensures DistinctStrings(titles) ==> DistinctTitles(r)
    ensures forall i :: 0 <= i < |r| ==> r[i].title == titles[i] && r[i].votes == 0 && !r[i].flag
  {
    seq(|titles|, i requires 0 <= i < |titles| => Entry(titles[i], 0, false))
  }

  lemma PresetFigures(isSeedFund: bool)
    ensures FlagPrice(isSeedFund) == if isSeedFund then 33 else 16
    ensures |Baseline(isSeedFund)| == if isSeedFund then 6 else 12
    ensures Sum(Baseline(isSeedFund)) == if isSeedFund then 1003 else 1260
    ensures forall j :: 0 <= j < |Baseline(isSeedFund)| ==> Baseline(isSeedFund)[j] > 0
  {
    if isSeedFund {
      SeedFundPreset();
    } else {
      StandardPreset();
    }
  }

  lemma SeedFundPreset()
    ensures FlagPrice(true) == 33 && |Baseline(true)| == 6 && Sum(Baseline(true)) == 1003
    ensures forall j :: 0 <= j < |Baseline(true)| ==> Baseline(true)[j] > 0
  {
    SeedFundBaselineSum();
    BaselinePositive(true);
  }

  lemma StandardPreset()
    ensures FlagPrice(false) == 16 && |Baseline(false)| == 12 && Sum(Baseline(false)) == 1260
    ensures forall j :: 0 <= j < |Baseline(false)| ==> Baseline(false)[j] > 0
  {
    StandardBaselineSum();
    BaselinePositive(false);
  }

  lemma BaselinePositive(isSeedFund: bool)
    ensures forall j :: 0 <= j < |Baseline(isSeedFund)| ==> Baseline(isSeedFund)[j] > 0
  {
    var b := Baseline(isSeedFund);
    forall j | 0 <= j < |b| ensures b[j] > 0 {
      if isSeedFund {
        assert b == [300, 250, 200, 150, 100, 3];
      } else {
        assert b == [160, 150, 140, 130, 120, 110, 100, 90, 80, 70, 60, 50];
      }
    }
  }

  lemma SeedFundBaselineSum()
    ensures Sum([300, 250, 200, 150, 100, 3]) == 1003
  {
    assert Sum([3]) == 3;
    assert Sum([100, 3]) == 103;
    assert Sum([150, 100, 3]) == 253;
    assert Sum([200, 150, 100, 3]) == 453;
    assert Sum([250, 200, 150, 100, 3]) == 703;
  }

  lemma StandardBaselineSum()
    ensures Sum([160, 150, 140, 130, 120, 110, 100, 90, 80, 70, 60, 50]) == 1260
  {
    assert Sum([50]) == 50;
    assert Sum([60, 50]) == 110;
    assert Sum([70, 60, 50]) == 180;
    assert Sum([80, 70, 60, 50]) == 260;
    assert Sum([90, 80, 70, 60, 50]) == 350;
    assert Sum([100, 90, 80, 70, 60, 50]) == 450;
    assert Sum([110, 100, 90, 80, 70, 60, 50]) == 560;
    assert Sum([120, 110, 100, 90, 80, 70, 60, 50]) == 680;
    assert Sum([130, 120, 110, 100, 90, 80, 70, 60, 50]) == 810;
    assert Sum([140, 130, 120, 110, 100, 90, 80, 70, 60, 50]) == 950;
    assert Sum([150, 140, 130, 120, 110, 100, 90, 80, 70, 60, 50]) == 1100;
  }

  /** A vote count whose square fits the budget is at most 10 in magnitude. */
  lemma VotesWithinTen(v: int)
    requires v * v <= CreditsTotal
    ensures -10 <= v <= 10
  {
  }

  /** Moving a vote count of magnitude at most 10 by one adds at most 21
      to a sum of squares. */
  lemma OneVoteCost(squares: int, v: int, d: int)
    requires -10 <= v <= 10 && (d == 1 || d == -1)
    ensures squares - v * v + (v + d) * (v + d) <= squares + 21
  {
    if d == 1 {
      assert (v + 1) * (v + 1) == v * v + 2 * v + 1;
    } else {
      assert (v - 1) * (v - 1) == v * v - 2 * v + 1;
    }
  }

  /** Within a budget of 100 credits the squares cost at most 100, and
      after a one-vote change at most 121. */
  lemma SquaresWithinBudget(es: seq<Entry>, flagPrice: int, k: nat, d: int)
    requires k < |es| && (d == 1 || d == -1)
    requires flagPrice >= 0 && CreditsUsed(es, flagPrice) <= CreditsTotal
    ensures Sum(Squares(es)) <= 100
    ensures Sum(Squares(es[k := Voted(es[k], d)])) <= 121
  {
    CreditsCoverSquares(es, flagPrice);
    var v := es[k].votes;
    VotesWithinTen(v);
    SquaresUpdate(es, k, Voted(es[k], d));
    SumUpdate(Squares(es), k, (v + d) * (v + d));
    OneVoteCost(Sum(Squares(es)), v, d);
  }

  /** Within a budget of 100 credits, a one-vote change costs at most 21
      more, so a baseline of non-negative weights above 121 keeps every
      total, before and after the change, positive. */
  lemma WithinBudgetWellDefined(es: seq<Entry>, others: seq<int>, flagPrice: int, k: nat, d: int,
                                prize: int, price: real)
    requires |es| == |others| && k < |es| && (d == 1 || d == -1)
    requires forall j :: 0 <= j < |others| ==> others[j] >= 0
    requires Sum(others) > 121
    requires flagPrice >= 0 && CreditsUsed(es, flagPrice) <= CreditsTotal
    ensures var cur := Clamped(VoteTotalReal(es, others));
      var hyp := Clamped(VoteTotalReal(es[k := Voted(es[k], d)], others));
      && Sum(Clamped(others)) > 0 && Sum(cur) > 0 && Sum(hyp) > 0
      && PreviewChange(cur, others, k, es[k].votes + d, prize, price).Some?
  {
    assert Clamped(others) == others;
    SquaresWithinBudget(es, flagPrice, k, d);
    AbsSumLowerBound(es, others);
    AbsSumLowerBound(es[k := Voted(es[k], d)], others);
    PreviewDenominatorLowerBound(es, others, k, d);
  }

  /** In every state of either preset that is within budget, no share, and
      no share after a one-vote change, divides by zero, and both button
      previews are defined. */
  lemma BudgetStatesWellDefined(isSeedFund: bool, es: seq<Entry>, k: nat, d: int)
    requires |es| == |Baseline(isSeedFund)| && k < |es| && (d == 1 || d == -1)
    requires CreditsUsed(es, FlagPrice(isSeedFund)) <= CreditsTotal
    ensures var others := Baseline(isSeedFund);
      var cur := Clamped(VoteTotalReal(es, others));
      var hyp := Clamped(VoteTotalReal(es[k := Voted(es[k], d)], others));
      && Sum(Clamped(others)) > 0 && Sum(cur) > 0 && Sum(hyp) > 0
      && PreviewChange(cur, others, k, es[k].votes + d, Prize(isSeedFund), Price).Some?
  {
    PresetFigures(isSeedFund);
    WithinBudgetWellDefined(es, Baseline(isSeedFund), FlagPrice(isSeedFund), k, d, Prize(isSeedFund), Price);
  }

  /** In every state of either preset that is within budget, the figure
      on the up or down button is exactly how far the vote moves the
      entry's share of the prize, in dollars. */
  lemma BudgetStatesPreviewExact(isSeedFund: bool, es: seq<Entry>, k: nat, d: int)
    requires |es| == |Baseline(isSeedFund)| && k < |es| && (d == 1 || d == -1)
    requires CreditsUsed(es, FlagPrice(isSeedFund)) <= CreditsTotal
    ensures var others := Baseline(isSeedFund);
      var cur := Clamped(VoteTotalReal(es, others));
      var hyp := Clamped(VoteTotalReal(es[k := Voted(es[k], d)], others));
      PreviewIsShareChange(cur, hyp, others, k, es[k].votes + d, Prize(isSeedFund), Price)
  {
    BudgetStatesWellDefined(isSeedFund, es, k, d);
    PreviewPredictsVote(es, Baseline(isSeedFund), k, d, Prize(isSeedFund), Price);
  }

  class AppHome {
    // Set once by `componentWillLoad` and never reassigned.
    const isSeedFund: bool
    const prize: int
    const price: real
    const flagPrice: int
    const creditsTotal: int
    const voteOthersReal: seq<int>
    // Rebuilt by `vote` and `flag`, and recomputed by the change handler.
    var entries: seq<Entry>
    var creditsUsed: int
    var voteOthersAbsolute: seq<int>
    var voteTotalReal: seq<int>
    var voteTotalAbsolute: seq<int>

    /** The constants of the preset chosen at load time. */
    ghost predicate Configured()
    {
      && creditsTotal == CreditsTotal
      && price == Price
      && prize == Prize(isSeedFund)
      && flagPrice == FlagPrice(isSeedFund)
      && voteOthersReal == Baseline(isSeedFund)
    }

    /** The fields the change handler maintains agree with the entries. */
    ghost predicate Derived()
      reads this
    {
      && |entries| == |voteOthersReal|
      && creditsUsed == CreditsUsed(entries, flagPrice)
      && voteTotalReal == VoteTotalReal(entries, voteOthersReal)
      && voteTotalAbsolute == Clamped(voteTotalReal)
      && voteOthersAbsolute == Clamped(voteOthersReal)
    }

    /** The structure every reachable state has, budget aside: the entries
        stay sorted by distinct titles, so position i stays aligned with
        voteOthersReal[i]. */
    ghost predicate Consistent()
      reads this
    {
      Configured() && Descending(entries) && Derived()
    }

    /** The invariant of every state the page can reach by its buttons. */
    ghost predicate Valid()
      reads this
    {
      Consistent() && FlagsHaveVotes(entries) && creditsUsed <= creditsTotal
    }

    /** `componentWillLoad` for the given mode and generated titles; the
        assignment to `entries` runs the change handler. */
    constructor (isSeedFund: bool, titles: seq<string>)
      requires |titles| == |Baseline(isSeedFund)| && DistinctStrings(titles)
      ensures Valid()
      ensures this.isSeedFund == isSeedFund
      ensures prize == (if isSeedFund then 5000000 else 500000)
      ensures flagPrice == (if isSeedFund then 33 else 16)
      ensures creditsUsed == 0
      ensures |entries| == |titles| == |voteOthersReal| && Descending(entries)
      ensures multiset(entries) == multiset(Unvoted(titles))
      ensures forall i :: 0 <= i < |entries| ==> entries[i].votes == 0 && !entries[i].flag
    {
      this.isSeedFund := isSeedFund;
      price := 0.08;
      creditsTotal := 100;
      creditsUsed := 0;
      if isSeedFund {
        prize := 5000000;
        flagPrice := CreditsTotal / (2 + 1);
        voteOthersReal := [300, 250, 200, 150, 100, 3];
      } else {
        prize := 500000;
        flagPrice := CreditsTotal / (5 + 1);
        voteOthersReal := [160, 150, 140, 130, 120, 110, 100, 90, 80, 70, 60, 50];
      }
      entries := OrderByTitleDesc(Unvoted(titles));
      new;
      EntriesWatchHandler();
      forall i | 0 <= i < |entries| ensures entries[i].votes == 0 && !entries[i].flag {
        assert entries[i] in multiset(Unvoted(titles));
      }
      CreditsUsedUnvoted(entries, flagPrice);
    }

    /** `entriesWatchHandler`: recompute the ledger and the totals. */
    method EntriesWatchHandler()
      requires |entries| == |voteOthersReal|
      modifies this`creditsUsed, this`voteTotalReal, this`voteTotalAbsolute, this`voteOthersAbsolute
      ensures Derived()
    {
      creditsUsed := Sum(Squares(entries) + FlagCharges(entries, flagPrice));
      voteTotalReal := VoteTotalReal(entries, voteOthersReal);
      voteTotalAbsolute := Clamped(voteTotalReal);
      voteOthersAbsolute := Clamped(voteOthersReal);
    }

    /** `vote(entry, d)` on the entry at position k: the flag is cleared
        when the votes reach 0, the entry's copy replaces it, and nothing
        else changes. No budget check happens here. */
    method Vote(k: nat, d: int)
      requires Consistent() && k < |entries|
      modifies this`entries, this`creditsUsed, this`voteTotalReal, this`voteTotalAbsolute, this`voteOthersAbsolute
      ensures Consistent()
      ensures entries == old(entries)[k := Voted(old(entries)[k], d)]
      ensures creditsUsed == old(creditsUsed) - EntryCost(old(entries)[k], flagPrice) + EntryCost(entries[k], flagPrice)
      ensures old(FlagsHaveVotes(entries)) ==> FlagsHaveVotes(entries)
    {
      var entry := entries[k];
      if entry.votes + d == 0 {
        entry := entry.(flag := false);
      }
      var copy := entry.(votes := entry.votes + d);
      assert copy == Voted(entries[k], d);
      ReplaceInPlace(entries, k, copy);
      DescendingUpdate(entries, k, copy);
      entries := Replace(entries, copy);
      EntriesWatchHandler();
      CreditsUsedUpdate(old(entries), flagPrice, k, copy);
      if old(FlagsHaveVotes(entries)) {
        VotedKeepsFlagsHaveVotes(old(entries), k, d);
      }
    }

    /** `flag(entry)` on the entry at position k: only its flag is negated.
        No budget check happens here. */
    method Flag(k: nat)
      requires Consistent() && k < |entries|
      modifies this`entries, this`creditsUsed, this`voteTotalReal, this`voteTotalAbsolute, this`voteOthersAbsolute
      ensures Consistent()
      ensures entries == old(entries)[k := Flipped(old(entries)[k])]
      ensures creditsUsed == old(creditsUsed) - EntryCost(old(entries)[k], flagPrice) + EntryCost(entries[k], flagPrice)
    {
      var copy := entries[k].(flag := !entries[k].flag);
      ReplaceInPlace(entries, k, copy);
      DescendingUpdate(entries, k, copy);
      entries := Replace(entries, copy);
      EntriesWatchHandler();
      CreditsUsedUpdate(old(entries), flagPrice, k, copy);
    }

    /** A click on the up (d = 1) or down (d = -1) button of position k:
        it votes unless the button is disabled, which happens exactly when
        the vote would overspend; a disabled click changes nothing. After
        a vote, the entry's share has moved by the figure the button
        showed. */
    method ClickVote(k: nat, d: int) returns (accepted: bool)
      requires Valid() && k < |entries| && (d == 1 || d == -1)
      modifies this`entries, this`creditsUsed, this`voteTotalReal, this`voteTotalAbsolute, this`voteOthersAbsolute
      ensures Valid()
      ensures accepted == !VoteDisabled(old(creditsUsed), old(entries[k].votes), d, creditsTotal)
      ensures accepted <==> CreditsUsed(old(entries)[k := Voted(old(entries[k]), d)], flagPrice) <= creditsTotal
      ensures entries == if accepted then old(entries)[k := Voted(old(entries[k]), d)] else old(entries)
      ensures creditsUsed == if accepted
        then old(creditsUsed) - EntryCost(old(entries[k]), flagPrice) + EntryCost(entries[k], flagPrice)
        else old(creditsUsed)
      ensures accepted ==>
        PreviewIsShareChange(old(voteTotalAbsolute), voteTotalAbsolute, voteOthersReal, k,
                             old(entries[k].votes) + d, prize, price)
    {
      ghost var hyp := Clamped(VoteTotalReal(entries[k := Voted(entries[k], d)], voteOthersReal));
      PresetFigures(isSeedFund);
      VoteGuardExact(entries, flagPrice, creditsTotal, k, d);
      BudgetStatesPreviewExact(isSeedFund, entries, k, d);
      accepted := !VoteDisabled(creditsUsed, entries[k].votes, d, creditsTotal);
      if accepted {
        Vote(k, d);
        assert voteTotalAbsolute == hyp;
      }
    }

    /** A click on the flag button of position k: it toggles the flag
        unless the button is disabled, which happens exactly when the entry
        has no votes or flagging would overspend; unflagging is always
        allowed, and a disabled click changes nothing. */
    method ClickFlag(k: nat) returns (accepted: bool)
      requires Valid() && k < |entries|
      modifies this`entries, this`creditsUsed, this`voteTotalReal, this`voteTotalAbsolute, this`voteOthersAbsolute
      ensures Valid()
      ensures accepted == !FlagDisabled(old(creditsUsed), old(entries[k]), flagPrice, creditsTotal)
      ensures accepted <==> (old(entries[k].votes) != 0
        && CreditsUsed(old(entries)[k := Flipped(old(entries[k]))], flagPrice) <= creditsTotal)
      ensures old(entries[k].flag) ==> accepted
      ensures entries == if accepted then old(entries)[k := Flipped(old(entries[k]))] else old(entries)
      ensures creditsUsed == if accepted
        then old(creditsUsed) - EntryCost(old(entries[k]), flagPrice) + EntryCost(entries[k], flagPrice)
        else old(creditsUsed)
    {
      PresetFigures(isSeedFund);
      FlagGuardExact(entries, flagPrice, creditsTotal, k);
      accepted := !FlagDisabled(creditsUsed, entries[k], flagPrice, creditsTotal);
      if accepted {
        FlippedKeepsFlagsHaveVotes(entries, k, flagPrice, creditsUsed, creditsTotal);
        Flag(k);
      }
    }
  }

  /** Standard mode: ten up-votes on one entry spend exactly the 100
      credits, and the eleventh up button is disabled, since 121 > 100. */
  method StandardModeTenUpVotes(titles: seq<string>) returns (used: int, eleventhAccepted: bool)
    requires |titles| == 12 && DistinctStrings(titles)
    ensures used == 100 && !eleventhAccepted
  {
    var app := new AppHome(false, titles);
    var ok := app.ClickVote(0, 1); assert ok && app.creditsUsed == 1;
    ok := app.ClickVote(0, 1); assert ok && app.creditsUsed == 4;
    ok := app.ClickVote(0, 1); assert ok && app.creditsUsed == 9;
    ok := app.ClickVote(0, 1); assert ok && app.creditsUsed == 16;
    ok := app.ClickVote(0, 1); assert ok && app.creditsUsed == 25;
    ok := app.ClickVote(0, 1); assert ok && app.creditsUsed == 36;
    ok := app.ClickVote(0, 1); assert ok && app.creditsUsed == 49;
    ok := app.ClickVote(0, 1); assert ok && app.creditsUsed == 64;
    ok := app.ClickVote(0, 1); assert ok && app.creditsUsed == 81;
    ok := app.ClickVote(0, 1); assert ok;
    used := app.creditsUsed;
    eleventhAccepted := app.ClickVote(0, 1);
  }

  /** Seed-fund mode: flagging an entry with 2 votes costs 4 + 33 = 37
      credits, and unflagging it brings the ledger back to 4. */
  method SeedFundFlagging(titles: seq<string>) returns (flaggedUsed: int, unflaggedUsed: int)
    requires |titles| == 6 && DistinctStrings(titles)
    ensures flaggedUsed == 37 && unflaggedUsed == 4
  {
    var app := new AppHome(true, titles);
    var ok := app.ClickVote(0, 1); assert ok;
    ok := app.ClickVote(0, 1); assert ok && app.creditsUsed == 4;
    ok := app.ClickFlag(0); assert ok;
    flaggedUsed := app.creditsUsed;
    ok := app.ClickFlag(0); assert ok;
    unflaggedUsed := app.creditsUsed;
  }
}
