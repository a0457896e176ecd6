/** The credit ledger: what `entriesWatchHandler` charges for a list of
    entries, what `vote` and `flag` do to the entry they act on, and the
    `disabled` predicates of the three buttons that are the only budget
    check the page has. */
module Ledger {
  import opened Sums
  import opened Entries

  /** Quadratic cost of each entry's votes. */
  function Squares(es: seq<Entry>): seq<int>
  {
    seq(|es|, i requires 0 <= i < |es| => es[i].votes * es[i].votes)
  }

  /** The flag surcharge of each entry: charged only while it has votes. */
  function FlagCharges(es: seq<Entry>, flagPrice: int): seq<int>
  {
    seq(|es|, i requires 0 <= i < |es| => if es[i].flag && es[i].votes != 0 then flagPrice else 0)
  }

  /** `creditsUsed`: the sum of the squares followed by the surcharges. */
  function CreditsUsed(es: seq<Entry>, flagPrice: int): int
  {
    Sum(Squares(es) + FlagCharges(es, flagPrice))
  }

  /** What one entry contributes to `creditsUsed`. */
  function EntryCost(e: Entry, flagPrice: int): int
  {
    e.votes * e.votes + (if e.flag && e.votes != 0 then flagPrice else 0)
  }

  function EntryCosts(es: seq<Entry>, flagPrice: int): seq<int>
  {
    seq(|es|, i requires 0 <= i < |es| => EntryCost(es[i], flagPrice))
  }

  /** The ledger is the sum of the per-entry costs. */
  lemma CreditsUsedByEntry(es: seq<Entry>, flagPrice: int)
    ensures CreditsUsed(es, flagPrice) == Sum(EntryCosts(es, flagPrice))
  {
    SumAppend(Squares(es), FlagCharges(es, flagPrice));
    SumPointwiseAdd(Squares(es), FlagCharges(es, flagPrice), EntryCosts(es, flagPrice));
  }

  /** Changing one entry changes the ledger by that entry's cost difference. */
  lemma CreditsUsedUpdate(es: seq<Entry>, flagPrice: int, k: nat, e: Entry)
    requires k < |es|
    ensures CreditsUsed(es[k := e], flagPrice)
         == CreditsUsed(es, flagPrice) - EntryCost(es[k], flagPrice) + EntryCost(e, flagPrice)
  {
    CreditsUsedByEntry(es, flagPrice);
    CreditsUsedByEntry(es[k := e], flagPrice);
    assert EntryCosts(es[k := e], flagPrice) == EntryCosts(es, flagPrice)[k := EntryCost(e, flagPrice)];
    SumUpdate(EntryCosts(es, flagPrice), k, EntryCost(e, flagPrice));
  }

  /** Changing one entry changes only its square. */
  lemma SquaresUpdate(es: seq<Entry>, k: nat, e: Entry)
    requires k < |es|
    ensures Squares(es[k := e]) == Squares(es)[k := e.votes * e.votes]
  {
  }

  /** With a non-negative flag price, the ledger covers the squares and each
      entry's own cost. */
  lemma CreditsCoverSquares(es: seq<Entry>, flagPrice: int)
    requires flagPrice >= 0
    ensures Sum(Squares(es)) <= CreditsUsed(es, flagPrice)
    ensures forall k :: 0 <= k < |es| ==> es[k].votes * es[k].votes <= CreditsUsed(es, flagPrice)
  {
    SumAppend(Squares(es), FlagCharges(es, flagPrice));
    SumNonnegative(FlagCharges(es, flagPrice));
    forall k | 0 <= k < |es| ensures es[k].votes * es[k].votes <= Sum(Squares(es)) {
      assert Squares(es)[k] == es[k].votes * es[k].votes;
      SumBoundsTerm(Squares(es), k);
    }
  }

  /** A list nobody has voted on costs nothing. */
  lemma {:induction false} CreditsUsedUnvoted(es: seq<Entry>, flagPrice: int)
    requires forall i :: 0 <= i < |es| ==> es[i].votes == 0
    ensures CreditsUsed(es, flagPrice) == 0
  {
    CreditsUsedByEntry(es, flagPrice);
    var zeros := seq(|es|, i => 0);
    SumPointwiseSub(zeros, zeros, EntryCosts(es, flagPrice));
  }

  /** What `vote(entry, d)` makes of the entry: the flag is cleared in place
      when the votes reach 0, then the copy gets the new vote count. */
  function Voted(e: Entry, d: int): (r: Entry)
    ensures r.title == e.title && r.votes == e.votes + d
    ensures r.flag <==> e.flag && e.votes + d != 0
  {
    var cleared := if e.votes + d == 0 then e.(flag := false) else e;
    cleared.(votes := e.votes + d)
  }

  /** What `flag(entry)` makes of the entry. */
  function Flipped(e: Entry): (r: Entry)
    ensures r.title == e.title && r.votes == e.votes && r.flag == !e.flag
  {
    e.(flag := !e.flag)
  }

  /** Voting up then down (or down then up) restores the entry, except that
      a flag cleared when the votes passed through 0 stays cleared. */
  lemma VoteUndo(e: Entry, d: int)
    requires e.flag ==> e.votes != 0
    ensures Voted(Voted(e, d), -d) == if e.flag && e.votes + d == 0 then e.(flag := false) else e
  {
  }

  /** No entry is flagged while it has no votes. */
  predicate FlagsHaveVotes(es: seq<Entry>)
  {
    forall i :: 0 <= i < |es| ==> es[i].flag ==> es[i].votes != 0
  }

  /** `disabled` of the up (d = 1) and down (d = -1) buttons. */
  function VoteDisabled(creditsUsed: int, votes: int, d: int, creditsTotal: int): bool
  {
    (creditsUsed - votes * votes) + (votes + d) * (votes + d) > creditsTotal
  }

  /** `disabled` of the flag button. */
  function FlagDisabled(creditsUsed: int, e: Entry, flagPrice: int, creditsTotal: int): bool
  {
    e.votes == 0 || (!e.flag && creditsUsed + flagPrice > creditsTotal)
  }

  /** `vote` never leaves a flag on an entry without votes. */
  lemma VotedKeepsFlagsHaveVotes(es: seq<Entry>, k: nat, d: int)
    requires k < |es| && FlagsHaveVotes(es)
    ensures FlagsHaveVotes(es[k := Voted(es[k], d)])
  {
  }

  /** Within budget, the up or down button is disabled exactly when the vote
      would take the ledger over the budget. */
  lemma VoteGuardExact(es: seq<Entry>, flagPrice: int, creditsTotal: int, k: nat, d: int)
    requires k < |es| && (d == 1 || d == -1)
    requires FlagsHaveVotes(es) && flagPrice >= 0
    requires CreditsUsed(es, flagPrice) <= creditsTotal
    ensures VoteDisabled(CreditsUsed(es, flagPrice), es[k].votes, d, creditsTotal)
        <==> CreditsUsed(es[k := Voted(es[k], d)], flagPrice) > creditsTotal
  {
    CreditsUsedUpdate(es, flagPrice, k, Voted(es[k], d));
    var v := es[k].votes;
    if v + d == 0 {
      assert (v + d) * (v + d) == 0;
      assert v * v >= 0;
    }
  }

  /** Within budget, the flag button is disabled exactly when the entry has
      no votes or the toggle would take the ledger over the budget. */
  lemma FlagGuardExact(es: seq<Entry>, flagPrice: int, creditsTotal: int, k: nat)
    requires k < |es| && flagPrice >= 0
    requires CreditsUsed(es, flagPrice) <= creditsTotal
    ensures FlagDisabled(CreditsUsed(es, flagPrice), es[k], flagPrice, creditsTotal)
        <==> es[k].votes == 0 || CreditsUsed(es[k := Flipped(es[k])], flagPrice) > creditsTotal
  {
    CreditsUsedUpdate(es, flagPrice, k, Flipped(es[k]));
  }

  /** An enabled flag toggle keeps every flagged entry voted. */
  lemma FlippedKeepsFlagsHaveVotes(es: seq<Entry>, k: nat, flagPrice: int, creditsUsed: int, creditsTotal: int)
    requires k < |es| && FlagsHaveVotes(es)
    requires !FlagDisabled(creditsUsed, es[k], flagPrice, creditsTotal)
    ensures FlagsHaveVotes(es[k := Flipped(es[k])])
  {
  }
}
