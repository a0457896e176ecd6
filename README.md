# Flaggable quadratic voting: the `app-home` credit ledger and prize allocation

This project models the core of the `app-home` component of fqv, a demo of
flaggable quadratic voting. A single participant spends a budget of 100
credits on a fixed list of entries:

- `v` votes on an entry cost `v²` credits, whether the votes are up or down;
- flagging an entry that has votes costs an extra `flagPrice`.

Each entry's signed weight `v·|v|` is added to a baseline of "other voters'"
totals. The clamped totals then split a prize, and the page shows:

- each entry's dollar amount;
- its change against the baseline;
- a positive / neutral / negative classification;
- on the up and down buttons, the change one more vote would make.

The model has five modules:

- `Sums` (sums.dfy): lodash `sum` and `BigNumber.sum`, both exact. Also
  pointwise differences and scalings of sequences of reals, with the sum
  lemmas for them.
- `Entries` (entries.dfy): the entry record and JavaScript's string order.
  `UniqByTitle` models lodash `uniqBy(_, 'title')` and `OrderByTitleDesc`
  models the stable `orderBy(_, 'title', 'desc')`. The central lemma is
  that for a sorted list with distinct titles, the `uniqBy`+`orderBy`
  rebuild that `vote` and `flag` perform is a point update at the entry's
  own position.
- `Ledger` (ledger.dfy):
  - the `creditsUsed` formula of `entriesWatchHandler`;
  - what `vote` and `flag` do to one entry;
  - the `disabled` predicates of the up, down and flag buttons, proved
    exact in every state within budget (for the up and down buttons, also
    with no flagged entry at zero votes): an up or down button is disabled
    precisely when its vote would overspend, and the flag button precisely
    when the entry has no votes or the toggle would overspend.
- `Allocation` (allocation.dfy): the arithmetic inside `render`, all in
  exact `real`. This covers real and clamped totals, shares, the amount and
  delta figures, the classification with BigNumber's `dp(2)` in its default
  ROUND_HALF_UP mode, and the one-vote previews.
- `Home` (home.dfy):
  - the two presets of `componentWillLoad`;
  - the class `AppHome`, whose fields are the component's state;
  - methods for `componentWillLoad` (the constructor), `entriesWatchHandler`,
    `vote` and `flag`;
  - `ClickVote` and `ClickFlag`, which are the buttons: the raw operation
    guarded by its `disabled` predicate.
  `Valid()` is the invariant of every reachable state: the entries stay
  sorted by distinct titles, the derived fields agree with the entries, no
  flagged entry has zero votes, and `creditsUsed <= creditsTotal`.

Stencil's `@Watch('entries')` runs the change handler after every
assignment to `entries`. The model calls `EntriesWatchHandler` explicitly
at the same points.

Four behaviours of the code are worth stating plainly:

- Voting +1 then −1 (or −1 then +1) does not always restore the entry: `vote`
  clears the flag whenever the votes reach 0, so a flagged entry at −1 that
  is voted up and then down comes back unflagged (`Ledger.VoteUndo`).
- When the clamped totals sum to 0, the shares are NaN (0/0 in BigNumber).
  - The share functions require a nonzero sum.
  - The preview returns `None` for a zero denominator.
  - `Home.BudgetStatesWellDefined` proves that no state of either preset
    within budget reaches a zero denominator.
- `vote` and `flag` do no budget check; only the buttons' `disabled`
  predicates do. The model keeps both layers: `Vote`/`Flag` are unguarded
  and `ClickVote`/`ClickFlag` are guarded.
- The classification rounds the share difference times the prize
  (app-home.tsx:147), without the price.

The preview's denominator uses the entry's unclamped new total, unlike its
numerator. `PreviewPredictsVote` shows that this never makes the figure
differ from the true share change where it is defined, and
`BudgetStatesWellDefined` shows that it is always defined in both presets
within budget.

## Model

| member | source | states |
|---|---|---|
| Entries.Below | src/components/app-home/app-home.tsx:84 | JavaScript's `<` on strings, the order `orderBy` sorts titles by; `BelowIrreflexive`, `BelowTransitive` and `BelowTotal` prove it a strict total order |
| Entries.UniqByTitle | src/components/app-home/app-home.tsx:78-84 | every kept entry comes from the input and the kept titles are distinct |
| Entries.UniqByTitleKeepsFirsts | src/components/app-home/app-home.tsx:78-84 | every title of the input is kept, and the entry kept for a title is the first entry of the input with that title |
| Entries.UniqPrepend | src/components/app-home/app-home.tsx:78-84 | putting an updated copy in front of a list with distinct titles and deduplicating by title keeps the copy and drops exactly the old entry of that title |
| Entries.OrderByTitleDesc | src/components/app-home/app-home.tsx:84 | the sort is a permutation of its input, and with distinct titles the result is strictly descending by title |
| Entries.DescendingUnique | src/components/app-home/app-home.tsx:84 | two strictly descending lists with the same elements are equal, so sorting distinct titles leaves no freedom |
| Entries.Replace | src/components/app-home/app-home.tsx:78-94 | the list `vote` and `flag` assign: the copy put in front of the entries, deduplicated by title, sorted by title descending; `ReplaceInPlace` proves it a point update |
| Entries.ReplaceInPlace | src/components/app-home/app-home.tsx:78-94 | on a sorted list with distinct titles, the `uniqBy`+`orderBy` rebuild with an updated copy is the point update at the entry's own position, so length, titles, order and every other entry are unchanged |
| Ledger.CreditsUsed | src/components/app-home/app-home.tsx:36-39 | `creditsUsed`: the sum of every entry's votes² followed by flagPrice for every flagged entry with nonzero votes; `CreditsUsedByEntry` and `CreditsUsedUpdate` state it per entry |
| Ledger.CreditsUsedByEntry | src/components/app-home/app-home.tsx:36-39 | the sum of squares followed by the flag charges equals the sum over entries of votes² plus flagPrice when flagged with nonzero votes |
| Ledger.CreditsUsedUpdate | src/components/app-home/app-home.tsx:36-39 | changing one entry changes the ledger by exactly that entry's cost difference |
| Ledger.CreditsUsedUnvoted | src/components/app-home/app-home.tsx:36-39 | a list with no votes costs nothing, whatever its flags |
| Ledger.CreditsCoverSquares | src/components/app-home/app-home.tsx:36-39 | with a non-negative flag price the ledger is at least the sum of squares and at least each entry's own square |
| Ledger.Voted | src/components/app-home/app-home.tsx:74-85 | the copy keeps the title, has votes + d, and is flagged exactly when the entry was flagged and votes + d is nonzero |
| Ledger.Flipped | src/components/app-home/app-home.tsx:87-95 | the copy keeps the title and votes and has the negated flag |
| Ledger.VoteUndo | src/components/app-home/app-home.tsx:74-85 | voting d then −d restores the entry, except that a flag cleared by passing through 0 votes stays cleared |
| Ledger.VotedKeepsFlagsHaveVotes | src/components/app-home/app-home.tsx:75-76 | a vote never leaves a flag on an entry without votes |
| Ledger.VoteDisabled | src/components/app-home/app-home.tsx:199-237 | the up (d = 1) and down (d = −1) buttons' `disabled`: the ledger minus the entry's square plus the square after the vote exceeds the total; `VoteGuardExact` proves it equivalent to overspending |
| Ledger.FlagDisabled | src/components/app-home/app-home.tsx:122-128 | the flag button's `disabled`: no votes, or not flagged and the ledger plus flagPrice exceeds the total; `FlagGuardExact` proves it equivalent to "no votes or overspending" |
| Ledger.VoteGuardExact | src/components/app-home/app-home.tsx:199-237 | within budget, an up or down button is disabled if and only if its vote would take the ledger over the total |
| Ledger.FlagGuardExact | src/components/app-home/app-home.tsx:122-128 | within budget, the flag button is disabled if and only if the entry has no votes or toggling its flag would take the ledger over the total |
| Ledger.FlippedKeepsFlagsHaveVotes | src/components/app-home/app-home.tsx:122-123 | an enabled flag toggle keeps every flagged entry voted |
| Allocation.SignedSquare | src/components/app-home/app-home.tsx:40 | the signed square v·abs(v) is positive, negative or zero with v, and is ±v² |
| Allocation.SignedSquareMonotone | src/components/app-home/app-home.tsx:40 | the signed square v·abs(v) is monotone in v |
| Allocation.VoteTotalReal | src/components/app-home/app-home.tsx:40 | `voteTotalReal`: one total per entry, its signed square on top of its baseline, as long as the entries; `VoteTotalRealSign` gives its sign |
| Allocation.VoteTotalRealSign | src/components/app-home/app-home.tsx:40 | a real total is above, equal to or below its baseline exactly when the entry's votes are positive, zero or negative |
| Allocation.Clamped | src/components/app-home/app-home.tsx:41-42 | `voteTotalAbsolute` and `voteOthersAbsolute`: each total clamped at 0, as long as its input; `ClampedBounds` bounds it |
| Allocation.ClampedBounds | src/components/app-home/app-home.tsx:41-42 | each clamped total is non-negative, at least its input, and either its input or 0 |
| Allocation.Share | src/components/app-home/app-home.tsx:141-193 | an entry's clamped total over the sum of the clamped totals, the quotient every figure starts from; `SharesSumToOne` and `ShareBounds` state its properties |
| Allocation.Amount | src/components/app-home/app-home.tsx:186-193 | the bold figure: the share times the prize times the price; `AmountsSumToPool` sums it |
| Allocation.Gain | src/components/app-home/app-home.tsx:141-157 | the share minus the baseline share, times the prize, which the classification rounds and tests for sign; `ClassifyAtOrAboveZero` uses it |
| Allocation.Delta | src/components/app-home/app-home.tsx:171-184 | the arrow figure: the gain times the price; `DeltasSumToZero` sums it |
| Allocation.BaselineFigure | src/components/app-home/app-home.tsx:162-170 | the line under each title: the other voters' credits when their total is negative, otherwise their share in dollars; `UnvotedFigureIsAmount` ties it to the bold figure |
| Allocation.SharesSumToOne | src/components/app-home/app-home.tsx:186-193 | with a nonzero total the shares sum to 1 |
| Allocation.ShareBounds | src/components/app-home/app-home.tsx:186-193 | with non-negative weights and a nonzero total each share lies in [0, 1] |
| Allocation.AmountAt | src/components/app-home/app-home.tsx:186-193 | the i-th of the amounts (shares times prize, times price) is entry i's share times prize times price |
| Allocation.AmountsSumToPool | src/components/app-home/app-home.tsx:186-193 | the bold amounts of all entries add up to exactly prize × price |
| Allocation.GainAt | src/components/app-home/app-home.tsx:141-147 | the i-th of the gains (share differences times the prize) is entry i's share minus its baseline share, times the prize |
| Allocation.DeltaAt | src/components/app-home/app-home.tsx:171-184 | the i-th of the dollar changes is entry i's gain times the price |
| Allocation.DeltasSumToZero | src/components/app-home/app-home.tsx:171-184 | the dollar changes against the baseline cancel out over all entries |
| Allocation.Dp2 | src/components/app-home/app-home.tsx:148 | BigNumber `dp(2)` in its default ROUND_HALF_UP mode: to the nearest hundredth, ties away from zero; `Dp2IsZero` says when it is zero |
| Allocation.Dp2IsZero | src/components/app-home/app-home.tsx:147-149 | `dp(2)` with half-up rounding gives zero exactly for values strictly between −0.005 and 0.005 |
| Allocation.Classify | src/components/app-home/app-home.tsx:134-161 | the colour class of an entry: for a negative real total, neutral when it equals the other voters' total and else by the sign of their difference; otherwise neutral when the gain rounds to zero at two decimals and else by the gain's sign; the next two lemmas characterise it |
| Allocation.ClassifyBelowZero | src/components/app-home/app-home.tsx:134-140 | an entry whose real total is negative is positive, neutral or negative as its own votes are positive, zero or negative |
| Allocation.ClassifyAtOrAboveZero | src/components/app-home/app-home.tsx:141-160 | otherwise an entry is neutral if and only if its gain in prize units lies strictly within half a cent of zero, positive if and only if the gain is at least 0.005, negative if and only if it is at most −0.005 |
| Allocation.UnvotedIsBaseline | src/components/app-home/app-home.tsx:134-184 | with no votes the real totals are the baseline and every entry keeps its baseline share, has a zero dollar change and is neutral |
| Allocation.UnvotedFigureIsAmount | src/components/app-home/app-home.tsx:162-193 | with no votes, the baseline line under a title with a non-negative baseline shows the same dollars as the bold amount |
| Allocation.PreviewChange | src/components/app-home/app-home.tsx:209-262 | the button figure for moving the votes to u: the clamped new total over the current sum with the entry's unclamped new total in place, minus the current share, in dollars; `None` for a zero denominator; `PreviewPredictsVote` and `PreviewSigns` state its meaning |
| Allocation.UpPreview | src/components/app-home/app-home.tsx:209-227 | the up button's '+$' figure, the change for votes + 1; `PreviewSigns` proves it never negative |
| Allocation.DownPreview | src/components/app-home/app-home.tsx:243-262 | the down button's '-$' figure, the magnitude of the change for votes − 1; `PreviewSigns` proves it the negation of that change |
| Allocation.PreviewPredictsVote | src/components/app-home/app-home.tsx:209-227 | a button's figure is the entry's share after the vote minus its current share, in dollars; it is defined whenever the entry's new unclamped total is not negative |
| Allocation.PreviewSigns | src/components/app-home/app-home.tsx:209-262 | with a non-negative prize and price, the up figure is never negative, the down button's signed change is never positive, and the down button shows its magnitude |
| Allocation.PreviewDenominatorLowerBound | src/components/app-home/app-home.tsx:214-219 | the preview's denominator is at least the baseline sum minus the squares after the vote |
| Home.Prize | src/components/app-home/app-home.tsx:50-60 | the prize of each preset: 5 000 000 in seed-fund mode, 500 000 otherwise |
| Home.FlagPrice | src/components/app-home/app-home.tsx:50-60 | the flag price of each preset: the floor of the credit total over the preset's divisor (2 or 5) plus one; `PresetFigures` evaluates it to 33 and 16 |
| Home.Baseline | src/components/app-home/app-home.tsx:50-60 | `voteOthersReal` of each preset, the six or twelve totals of the other voters; `PresetFigures` states their count, sum and positivity |
| Home.PresetFigures | src/components/app-home/app-home.tsx:50-60 | the seed-fund preset has flag price 33 and 6 baseline totals summing to 1003; the standard preset has flag price 16 and 12 totals summing to 1260; all baseline totals are positive |
| Home.WithinBudgetWellDefined | src/components/app-home/app-home.tsx:141-145 | within 100 credits, a non-negative baseline summing to more than 121 keeps both share sums, the sum after a one-vote change and the preview's denominator away from zero |
| Home.BudgetStatesWellDefined | src/components/app-home/app-home.tsx:141-145 | in every state of either preset within budget, no share divides by zero, before or after a one-vote change, and both previews are defined |
| Home.BudgetStatesPreviewExact | src/components/app-home/app-home.tsx:209-262 | in every state of either preset within budget, the figure on an up or down button equals the dollar change the vote makes to the entry's share |
| Home.Unvoted | src/components/app-home/app-home.tsx:64-71 | one entry per generated title, with no votes and no flag; distinct titles give distinct entries |
| Home.AppHome.constructor | src/components/app-home/app-home.tsx:45-72 | loading chooses the preset's prize, flag price and baseline, sorts the unvoted entries by title descending, and reaches a valid state with 0 credits used |
| Home.AppHome.EntriesWatchHandler | src/components/app-home/app-home.tsx:35-43 | the ledger, the real totals and both clamped total lists are recomputed from the entries |
| Home.AppHome.Vote | src/components/app-home/app-home.tsx:74-85 | only the entry at position k changes, to its voted copy; the ledger moves by that entry's cost difference; sortedness and the flag invariant are kept |
| Home.AppHome.Flag | src/components/app-home/app-home.tsx:87-95 | only the entry at position k changes, to its flag-toggled copy; the ledger moves by that entry's cost difference |
| Home.AppHome.ClickVote | src/components/app-home/app-home.tsx:199-237 | the vote happens exactly when the button is enabled, which is exactly when it stays within budget; a disabled click changes nothing; the state stays valid, and the entry's share moves by the figure the button showed |
| Home.AppHome.ClickFlag | src/components/app-home/app-home.tsx:122-128 | the toggle happens exactly when the entry has votes and the toggle stays within budget; unflagging is always allowed; a disabled click changes nothing; the state stays valid |
| Home.StandardModeTenUpVotes | src/components/app-home/app-home.tsx:199-204 | in standard mode ten up-votes on one entry spend exactly 100 credits and the eleventh up button is disabled |
| Home.SeedFundFlagging | src/components/app-home/app-home.tsx:122-128 | in seed-fund mode flagging an entry with 2 votes brings the ledger to 37 and unflagging it back to 4 |

## Left out

- Rendering is not modelled: JSX, CSS classes as strings, the emoji labels, the "Credits Left" cell and `toFormat(2)` formatting with thousands separators are presentation only. Classification is the `Tone` datatype and figures are `real`.
- Title generation with `faker` is left out; the titles are a parameter, with distinctness as a precondition of the constructor.
- Parsing `isSeedFund` from `location.search` with `query-string` is browser input; `isSeedFund` is a constructor parameter.
- Stencil's `@State`/`@Watch` reactivity is replaced by an explicit call of `EntriesWatchHandler` after every assignment to `entries`.
- BigNumber's rounding of quotients to 20 decimal places (ROUND_HALF_UP, its defaults) is not modelled; all arithmetic is exact `real`. NaN on division by zero is modelled as a precondition on the share functions and as `None` from the preview.
- The unused `image` field of an entry and the extra `0` argument to `map` in `entriesWatchHandler` are dropped; neither affects behaviour. Initial entries have no `flag` key in the source; the model starts them at `false`, which every use treats alike.
- `vote` and `flag` take the entry object; the model takes its position k. `render` passes the entry it renders at that position.
- Each click is modelled against the current state: `ClickVote` and `ClickFlag` read `entries[k]` and `creditsUsed` as they are now. In the page, `onClick` uses the `entry` object and the `disabled` value of the last render, so two clicks before a re-render could both pass their checks against the same stale state and overspend together; this event timing is not modelled.
- `vote` clears `flag` on the entry object it was passed. That object is afterwards replaced in the list by its copy, so only the copy's flag is modelled.
- Entries.UniqByTitle: the order of the kept entries is not stated, because `orderBy` re-sorts them at once; `ReplaceInPlace` states the combined result exactly.
- `Entries.Below` compares strings by `char`; JavaScript compares UTF-16 code units. They agree on the generated product names.
- The `abs()` applied to the delta line and to the down button's figure is modelled only for the down button (`DownPreview`); the delta line's sign is given by `Delta` itself.
