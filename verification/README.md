# Proofs about the evidence algorithms and the read-back verifier

REMORA's claims rest on a handful of small algorithms under `experiments/` and on a
hash-linked log in its quickstart. This project models them in Dafny and proves what
they are used for. Numbers that the source keeps as floats are exact reals here;
HMAC, SHA-256, square root and the models' replies are parameters.

| file | what it models |
|---|---|
| `Pav.dfy` | isotonic calibration by pool-adjacent-violators: loops, fitted step function, optimality, uniqueness |
| `Utf8.dfy`, `Json.dfy` | strict UTF-8; the restricted JSON domain: printer and duplicate-rejecting parser |
| `JsonGrammar.dfy`, `JsonObjects.dfy`, `JsonReading.dfy` | JSON texts as trees, with no parser involved, and the parser shown to read exactly those |
| `JsonText.dfy`, `JsonRoundTrip.dfy` | canonical text character by character; which bytes the decoder accepts; the round trip |
| `Readback.dfy`, `ReadbackTheorems.dfy` | the bounded read-back verifier and what each of its verdicts means |
| `Ranks.dfy`, `AurocPairs.dfy`, `Midranks.dfy`, `Spearman.dfy`, `SpearmanTies.dfy` | tie-group rank loops, two forms of AUROC, two formulas for Spearman's coefficient and when they agree |
| `Binomial.dfy`, `McNemar.dfy`, `Aurc.dfy`, `Wilson.dfy` | exact tails, exact test, risk-coverage area, score interval |
| `Routing.dfy`, `Gainability.dfy` | full-coverage ceiling, best route by phase, and the normaliser that has to agree with it |
| `DecisionCache.dfy`, `CacheRuns.dfy` | the live/replay decision cache, and any sequence of runs over it, aborted and resumed ones included |
| `Apportionment.dfy` | sharing out synthetic items over domains |
| `HashChain.dfy` | the audit chain |
| `Sums.dfy`, `Orders.dfy`, `RealFacts.dfy`, `Wrappers.dfy` | sums over sequences, sorting of finite sets, facts about reals, optional values |

The form follows the source: a loop there is a method here with its invariants, proved
equal to a function; the cache is a class whose methods state its whole new value; the
theorems are lemmas about those functions.

What is said about the code, and what is true of it:

- The comment at experiments/full_coverage_bound.py:71 speaks of items where all other
  conditions are wrong; the code counts those where some other condition is wrong. The
  code's count is the right one: it is exactly what the worst policy loses
  (`Routing.RangeAttained`).
- The comment at experiments/selective_n1000.py:217 says that the counts are trimmed or
  padded to exactly the number asked for. The one call that the size assertion guards,
  456 items from a base of 544, does meet it (`Apportionment.EnoughAsked`), so that
  assertion always holds. For general arguments the number can be missed, because the
  correction can push a count below zero, which generates no item: `Apportionment.ExactlyTarget` gives the exact condition and
  `Apportionment.TooManyItems` a base and a target that miss it.
- The normaliser labels an item from the majority's own record, the routing bound from
  the last record with that id. On a layout that answers an id twice they can disagree
  (`Gainability.RepeatedIdsDisagree`); `Gainability.ItemLabelExact` says exactly when they
  agree, item by item, and for distinct ids they always do (`Gainability.LabelsAgree`).
- The two formulas for Spearman's coefficient are used as one statistic. They are the same
  number on data without ties (`SpearmanTies.FormulasAgree`) and can differ on data with
  them (`SpearmanTies.TiesSeparate`), though not always: on lists in the same order both
  are 1, ties or no ties (`SpearmanTies.SameOrderAgrees`).
  `SpearmanTies.FormulasAgreeExactly` gives the exact condition for all data, and
  `SpearmanTies.EqualSpreadsAgree` its form for lists of equal rank spread.

A fixed-length hash cannot be injective on all strings, so no theorem assumes that it
is: `ReadbackTheorems.MacBindsStatement` and `HashChain.HeadBindsHistory` conclude that
the histories are equal or that two particular texts collide.

## Model

| member | source | states |
|---|---|---|
| Pav.PavFit | experiments/sap_v3_round.py:76-107 | the two loops compute `Calibrate` for all inputs, and refuse exactly the bad ones; every merge removes one block, so merges plus final blocks equal the number of distinct x |
| Pav.AggregateTies | experiments/sap_v3_round.py:91-94 | the dictionary's keys are the distinct x and each holds the sum and number of its y values |
| Pav.PushBlock | experiments/sap_v3_round.py:99-104 | the stack after one push and its merges represents the pooled partition into runs, and loses one block for each merge |
| Pav.PoolBlocks | experiments/sap_v3_round.py:96-104 | the final stack represents the partition of all distinct x into runs |
| Pav.PoolSound | experiments/sap_v3_round.py:100-104 | pooling keeps the points in order, keeps run means strictly increasing and keeps every prefix mean of a run at or above the run's mean |
| Pav.MergedHeavy | experiments/sap_v3_round.py:100-104 | joining two runs whose means do not increase keeps every prefix at or above the new mean |
| Pav.SegmentsSound | experiments/sap_v3_round.py:97-104 | the runs partition the points and are never more than the points |
| Pav.GridIncreasing | experiments/sap_v3_round.py:105-107 | grid and values of a fit are strictly increasing |
| Pav.Conservation | experiments/sap_v3_round.py:91-104 | block sums add up to the sum of all y, block counts to the number of pairs |
| Pav.FitOptimal | experiments/sap_v3_round.py:76-107 | any function that is non-decreasing on the observed x has a squared error of at least the fit's plus its squared distance from the fit |
| Pav.FitUnique | experiments/sap_v3_round.py:76-107 | a non-decreasing function that does as well as the fit equals it at every observed x |
| Pav.CalibrateOptimal | experiments/sap_v3_round.py:76-120 | in terms of the two lists: the fitted steps never fall, and no function that does not fall on the given x has a smaller total of squared errors, nor the same total unless it agrees at every given x |
| Pav.CalibrateExact | experiments/sap_v3_round.py:88-107 | only empty lists and lists of different lengths are refused; otherwise grid and values have one positive length, both increase, and every grid point is one of the given x |
| Pav.Abel | experiments/sap_v3_round.py:97-106 | summation by parts on a run whose prefixes all lie above a level, against any non-decreasing weights |
| Pav.CalibrateOrderFree | experiments/sap_v3_round.py:79-84 | the result depends only on the multiset of pairs |
| Pav.FitMonotone | experiments/sap_v3_round.py:110-120 | fit followed by prediction is non-decreasing over all reals |
| Pav.PredictInRun | experiments/sap_v3_round.py:113-120 | the prediction at any x of a run, its upper bound included, is that run's mean |
| Pav.PredictExact | experiments/sap_v3_round.py:110-120 | an x above one grid point and not above the next gets the next one's value, one above them all the last value |
| Pav.FitAtTraining | experiments/sap_v3_round.py:110-120 | every training x is in some block and is predicted as that block's mean |
| Pav.FitRange | experiments/sap_v3_round.py:110-120 | predictions at any x stay within any bounds on the observed y |
| Pav.BisectLeft | experiments/sap_v3_round.py:117 | everything before the index is smaller than x and the entry at the index is not |
| Utf8.DecodeEncode | experiments/bounded_readback.py:63-66 | every text survives encoding and decoding |
| Utf8.EncodeDecode | experiments/bounded_readback.py:81 | every accepted byte string is the encoding of its text, so no text has two encodings |
| Utf8.EncodeShape | experiments/bounded_readback.py:63-66 | the bytes of each character are those that RFC 3629 lays down for its code point |
| JsonReading.ReadTree | experiments/bounded_readback.py:78-83 | whatever the grammar writes for a value, with white space at every permitted place, any escape and keys in any order, is read as that value, and rejected when an object in it repeats a key |
| JsonReading.TreeRead | experiments/bounded_readback.py:78-83 | conversely, whatever is read is the text of a tree of the grammar with that meaning, so nothing else is accepted |
| JsonRoundTrip.ParseTextExact | experiments/bounded_readback.py:81 | a text is parsed to a value if and only if the grammar spells the value that way |
| JsonRoundTrip.DecodeExact | experiments/bounded_readback.py:78-83 | bytes decode to a value if and only if there are at most 65536 of them, the value is in the domain and they are the UTF-8 form of a text that spells it |
| JsonRoundTrip.RepeatedKeysRejected | experiments/bounded_readback.py:69-75 | a text in which some object, however deep, repeats a key is rejected |
| JsonRoundTrip.FloatsRejected | experiments/bounded_readback.py:42-57 | a text with a fraction, an exponent, NaN or an infinity anywhere in it is rejected |
| JsonRoundTrip.DomainExact | experiments/bounded_readback.py:42-57 | the recursive check accepts exactly the values without floats that are nested at most sixteen deep |
| JsonText.StringLeExact | experiments/bounded_readback.py:63-66 | the key order is by code points: a proper prefix first, otherwise the first difference decides |
| JsonText.PrintedObject | experiments/bounded_readback.py:63-66 | an object is written as its members in that order, commas between them and no space |
| JsonText.PrintedList | experiments/bounded_readback.py:63-66 | a list is written as its elements in order, commas between them and no space |
| JsonText.EscapeExact | experiments/bounded_readback.py:63-66 | exactly the quote, the backslash and code points below 0x20 are escaped, and which short escapes are used |
| JsonText.ControlEscape | experiments/bounded_readback.py:63-66 | the remaining control characters are written with four lower-case hexadecimal digits |
| JsonText.EscapeAppend | experiments/bounded_readback.py:63-66 | a string is escaped character by character |
| JsonText.QuoteExact | experiments/bounded_readback.py:63-66 | and written between quotes |
| JsonText.PrintedInt | experiments/bounded_readback.py:63-66 | integers have a minus sign exactly when negative, and no leading zero |
| JsonRoundTrip.PrintSpells | experiments/bounded_readback.py:60-66 | canonical text is one of the texts that spell the value |
| JsonRoundTrip.ParsePrint | experiments/bounded_readback.py:60-83 | parsing the printed form of any value without floats gives the value back and stops where it ends |
| JsonRoundTrip.DecodeCanonical | experiments/bounded_readback.py:60-83 | decoding canonical bytes gives back the value exactly when they fit the size limit |
| JsonRoundTrip.CanonicalInjective | experiments/bounded_readback.py:60-66 | two accepted values have the same canonical bytes if and only if they are the same value |
| JsonObjects.UniqueObjectExact | experiments/bounded_readback.py:69-75 | a dictionary is built exactly when the keys are distinct, and it then holds exactly the given pairs |
| JsonObjects.BuildObject | experiments/bounded_readback.py:69-75 | the loop that fills the dictionary or fails on the first repeated key |
| Json.Decode | experiments/bounded_readback.py:78-83 | whatever is decoded is in the restricted domain: no float, at most 16 levels deep |
| Readback.Contract.Expected | experiments/bounded_readback.py:132-135 | every declared value is in the restricted domain |
| ReadbackTheorems.IdentifierExact | experiments/bounded_readback.py:86-88 | a name is accepted exactly when some character of it is not white space |
| ReadbackTheorems.BlankExact | experiments/bounded_readback.py:87 | the twenty-nine characters that are white space |
| ReadbackTheorems.MakeSourceExact | experiments/bounded_readback.py:103-107 | a source policy is accepted exactly with two names and a key of at least 32 bytes, and keeps them |
| ReadbackTheorems.MakeContractExact | experiments/bounded_readback.py:129-141 | a contract is accepted exactly with five names, a text that spells a nonempty object of the domain within the size limit, and a nonempty window |
| ReadbackTheorems.ValidIsMade | experiments/bounded_readback.py:129-141 | the contracts that the theorems call valid are exactly those the constructor returns |
| ReadbackTheorems.HexMacExact | experiments/bounded_readback.py:184-185 | a signature field is well-formed exactly when it is the lower-case hexadecimal form of 32 bytes |
| ReadbackTheorems.PayloadShapeExact | experiments/bounded_readback.py:175-193 | a payload is well-formed exactly with its ten fields: the schema's name, a time, a state and seven names |
| ReadbackTheorems.ParseEnvelopeExact | experiments/bounded_readback.py:175-193 | the guarded block accepts the bytes with this payload and MAC exactly when they decode to that envelope and every field has its shape |
| ReadbackTheorems.JudgeEnvelopeExact | experiments/bounded_readback.py:195-201 | the order of rejections: untrusted source, then signature, then scope |
| ReadbackTheorems.TimeProblemExact | experiments/bounded_readback.py:211-219 | no time problem if and only if settlement, observation, now and the earlier deadline are in this order |
| ReadbackTheorems.TimeReasons | experiments/bounded_readback.py:211-219 | each of the four time reasons, with the evidence it asks for, if and only if its own condition holds and no earlier one |
| ReadbackTheorems.MissingListed | experiments/bounded_readback.py:221-240 | the missing fields listed are exactly the declared ones not observed, each once and in code-point order |
| ReadbackTheorems.ComparisonExact | experiments/bounded_readback.py:222-229 | comparing canonical bytes is comparing values, and never fails on validated ones |
| ReadbackTheorems.AcceptedUnique | experiments/bounded_readback.py:175-201 | one piece of evidence is bound by at most one envelope |
| ReadbackTheorems.EstablishedIff | experiments/bounded_readback.py:154-240 | ESTABLISHED if and only if a well-formed, trusted, authentic envelope in scope is in the time window and every declared field has its declared value |
| ReadbackTheorems.ViolatedIff | experiments/bounded_readback.py:154-240 | VIOLATED if and only if the same guard holds and some declared field is observed with another value |
| ReadbackTheorems.AcceptedVerdict | experiments/bounded_readback.py:203-240 | for an accepted envelope a verdict is always given, and both conclusive ones are characterised |
| ReadbackTheorems.OutcomeTable | experiments/bounded_readback.py:154-240 | the whole result for every input at a valid clock: processing, verdict, reason, digest and missing evidence, each with its condition |
| ReadbackTheorems.VerifyTotal | experiments/bounded_readback.py:154-240 | with a valid contract the verifier returns exactly when the clock is valid; a verdict exactly when completed; missing evidence exactly when not established |
| ReadbackTheorems.DecidingTimesFormInterval | experiments/bounded_readback.py:211-240 | for fixed evidence the deciding times are one interval with known ends, and the decision is the same throughout |
| ReadbackTheorems.UndeclaredFieldsIrrelevant | experiments/bounded_readback.py:221-240 | observing further undeclared fields leaves the verdict as it was |
| ReadbackTheorems.VerdictsMonotone | experiments/bounded_readback.py:224-240 | a conclusive verdict survives every consistent extension of the observed state |
| ReadbackTheorems.SignedIsAccepted | experiments/bounded_readback.py:175-201 | a scoped statement, signed and printed canonically, is accepted if and only if it fits the size limit |
| ReadbackTheorems.DeclaredDelta | experiments/bounded_readback.py:132-136 | a contract whose expected text is the canonical form of a delta declares exactly that delta, if and only if the text fits the size limit |
| ReadbackTheorems.SmallContractValid | experiments/bounded_readback.py:129-141 | contracts that pass the constructor exist |
| ReadbackTheorems.HonestVerdict | experiments/bounded_readback.py:154-240 | a scoped statement that the key holder signs and prints canonically gets the verdict its times and fields call for |
| ReadbackTheorems.MacBindsStatement | experiments/bounded_readback.py:197-199 | two accepted statements with one MAC have the same payload, or their canonical bytes are a collision of the MAC |
| ReadbackTheorems.ReadOnceClock | experiments/bounded_readback.py:243-263 | a single acquisition establishes the delta if and only if the time that the clock shows after the read is in the window, for an accepted envelope that agrees |
| ReadbackTheorems.ReadOnceStates | experiments/bounded_readback.py:243-263 | which of the four processing states results, exactly, and a verdict only when completed |
| Ranks.Auroc | experiments/chi_iteration_utility.py:42-59 | the double loop computes wins plus half ties over all pairs, one half when a class is empty |
| AurocPairs.AurocExact | experiments/chi_iteration_utility.py:42-59 | by index on the labels: 1/2 when no label is 1 or none is 0; otherwise the value times the pairs is the sum over all i labelled 1 and j labelled 0 of 1, 1/2 or 0 as score i is above, equal to or below score j |
| AurocPairs.PerfectAuroc | experiments/chi_iteration_utility.py:42-59 | with both labels present, 1 if and only if every score labelled 1 is above every score labelled 0 |
| Ranks.AurocByRanks | experiments/chi_iteration_utility.py:194-206 | U is the sum of the positives' zero-based midranks less n_pos (n_pos - 1) / 2, with any ties |
| Ranks.AurocComplement | experiments/chi_iteration_utility.py:42-59 | swapping the classes gives the complement to 1, and the value lies in [0, 1] |
| Ranks.ComprehensionAgrees | experiments/jev_injection_holdout.py:134-139 | the comprehension gives the same value as the double loop, and none when a class is empty |
| Ranks.PairPoints | experiments/chi_iteration_utility.py:52-58 | every pair shares out exactly one point between the classes |
| Midranks.RankLoop | experiments/empirical_susceptibility.py:146-158 | the one-based tie-group loop gives every index the rank #less + (#equal + 1) / 2 |
| Midranks.ZeroRankLoop | experiments/chi_iteration_utility.py:194-206 | the zero-based loop gives every index one less than that |
| Midranks.SortedIndicesSort | experiments/phase_stability.py:42 | the stable arg-sort orders the values and loses none |
| Midranks.GroupRank | experiments/phase_stability.py:45-51 | the mean position of a tie group is the midrank of its value |
| Midranks.RankTotal | experiments/phase_stability.py:41-53 | midranks add up to n (n + 1) / 2, whatever the ties |
| Midranks.RankMonotone | experiments/phase_stability.py:41-53 | a smaller value has a strictly smaller rank |
| Spearman.CauchySchwarz | experiments/phase_stability.py:58-61 | the squared covariance is at most the product of the spreads, for any two functions on any list |
| Spearman.PearsonRange | experiments/phase_stability.py:36-62 | the coefficient lies in [-1, 1] and is missing exactly when one list is constant |
| Spearman.ShortLists | experiments/phase_stability.py:36-62 | fewer than three points have no coefficient |
| Spearman.SpreadBound | experiments/phase_stability.py:59-60 | the spread of n ranks is at most n (n^2 - 1) / 12 and equals it if and only if nothing ties |
| SpearmanTies.DSquaredLaw | experiments/empirical_susceptibility.py:160-166 | with any ties the d-squared formula is 1 less a multiple of the two rank spreads less twice their covariance |
| SpearmanTies.DSquaredRange | experiments/empirical_susceptibility.py:160-166 | the d-squared formula stays within [-1, 1] on all data |
| SpearmanTies.FormulasAgreeExactly | experiments/empirical_susceptibility.py:160-166 | for all data of at least three points the d-squared and Pearson formulas agree if and only if neither list is constant and the spreads, their root and the covariance satisfy one equation |
| SpearmanTies.EqualSpreadsAgree | experiments/empirical_susceptibility.py:160-166 | for lists of equal rank spread they agree if and only if neither is constant and either nothing ties or the lists are in the same order |
| SpearmanTies.FormulasAgree | experiments/empirical_susceptibility.py:160-166 | without ties both have a value and it is the same |
| SpearmanTies.SameOrderAgrees | experiments/empirical_susceptibility.py:160-166 | on lists in the same order, whatever their ties, both are 1 unless a list is constant |
| SpearmanTies.NoGaps | experiments/empirical_susceptibility.py:162 | the squared rank gaps vanish if and only if the lists are in the same order |
| SpearmanTies.TiesSeparate | experiments/empirical_susceptibility.py:160-166 | three tied points on which the two formulas give 1/2 and 5/8 |
| Binomial.BinomTailGeq | experiments/selective_trust_curve.py:52-57 | the loop adds up the masses from k to n |
| Binomial.CombFactorial | experiments/selective_trust_curve.py:56 | Pascal's rule computes n! / (k! (n - k)!) |
| Binomial.TailPascal | experiments/selective_trust_curve.py:52-57 | the tail of n + 1 trials conditioned on the last one |
| Binomial.TailAll | experiments/selective_trust_curve.py:52-57 | P(X >= 0) is 1 for every p |
| Binomial.TailBeyond | experiments/selective_trust_curve.py:52-57 | P(X >= k) is 0 for k beyond the number of trials |
| Binomial.TailAntitone | experiments/sap_v3_round.py:424-428 | the tail is a probability and does not increase with the threshold |
| Binomial.TailMonotone | experiments/sap_v3_round.py:424-428 | the tail does not decrease with the null rate |
| McNemar.ClampExactlyAtTies | experiments/selection_signal_shootout_2026_07.py:119-124 | the clamp to 1 changes the value if and only if the discordant counts are equal |
| McNemar.PValueLaws | experiments/selection_signal_shootout_2026_07.py:112-125 | the p-value lies in (0, 1] and swapping the methods only swaps the counts |
| McNemar.CountsExact | experiments/selection_signal_shootout_2026_07.py:112-118 | the two counts are the numbers of positions where only the first, or only the second, method is right |
| McNemar.PValueExact | experiments/selection_signal_shootout_2026_07.py:119-125 | the p-value is the chance, with fair coins, of at least the larger count plus that of at most the smaller one, clamped to 1 |
| McNemar.LowReflect | experiments/selection_signal_shootout_2026_07.py:120 | the two ends of a row of binomial coefficients make up 2^n |
| McNemar.HalfRow | experiments/selection_signal_shootout_2026_07.py:119-120 | the tail up to the smaller count is more than half the row exactly at a tie |
| Aurc.ComputeAurc | experiments/selection_signal_shootout_2026_07.py:128-136 | the loop computes the mean error rate over all coverages; an empty ranking divides by zero |
| Aurc.AurcRange | experiments/selection_signal_shootout_2026_07.py:128-136 | the area lies in [0, 1] |
| Aurc.AurcExact | experiments/selection_signal_shootout_2026_07.py:128-136 | n times the area is the sum over the wrong positions j of 1/j + ... + 1/n |
| Aurc.AurcEnds | experiments/selection_signal_shootout_2026_07.py:128-136 | an all-right ranking has area 0, an all-wrong one area 1 |
| Aurc.AdjacentExchange | experiments/selection_signal_shootout_2026_07.py:132-136 | moving a right answer ahead of the wrong one before it, at position i, lowers the area by exactly 1 / (i n) |
| Aurc.ExtremeOrderings | experiments/selection_signal_shootout_2026_07.py:128-136 | with the number of errors fixed, right-first is the only minimum and wrong-first the only maximum |
| Wilson.EndsSolveScore | experiments/selective_n500.py:25-33 | both ends solve the score equation and lie in [0, 1], so the clamps change nothing |
| Wilson.EndsExact | experiments/selective_n500.py:25-33 | in terms of k and n: with the source's square root, both returned ends e lie in [0, 1] and satisfy (k - n e)^2 = z^2 n e (1 - e) |
| Wilson.CoversEstimate | experiments/selective_n500.py:25-33 | the interval contains k / n if and only if z is not negative |
| Wilson.CoversExact | experiments/selective_n500.py:25-33 | in terms of k and n: lo n <= k <= hi n if and only if z is not negative |
| Wilson.Mirror | experiments/selective_n500.py:25-33 | counting failures instead of successes reflects the interval about one half |
| Wilson.NoTrials | experiments/selective_n500.py:27-28 | without trials the interval is all of [0, 1] |
| Routing.OracleAccounting | experiments/full_coverage_bound.py:55-82 | oracle = majority + gainable, items = oracle + all-wrong, and oracle equals majority if and only if nothing is gainable |
| Routing.CountsExact | experiments/full_coverage_bound.py:55-82 | majority's, the oracle's and the all-wrong counts are the numbers of positions whose ids the table marks accordingly |
| Routing.SwingsExact | experiments/full_coverage_bound.py:66-77 | so are the gainable and loseable counts; the redundant third test of the source changes nothing |
| Routing.PolicyRange | experiments/full_coverage_bound.py:3-12 | every assignment of items to conditions is right at most as often as the oracle and at least as often as majority less the loseable items |
| Routing.RangeAttained | experiments/full_coverage_bound.py:58-77 | both ends of that range are reached |
| Routing.TallyPhases | experiments/phase_aware_routing.py:86-95 | the counters hold, for each phase and condition, the items seen and those right |
| Routing.ArgMaxMaximal | experiments/phase_aware_routing.py:196 | the chosen condition is right at least as often as any other |
| Routing.ArgMaxFirst | experiments/phase_aware_routing.py:196 | of equally accurate conditions the one listed first is taken |
| Routing.OraclePhaseRoute | experiments/phase_aware_routing.py:191-204 | E4 picks for each phase the first of its best conditions and counts the answers it routes to |
| Routing.PhaseCountsExact | experiments/phase_aware_routing.py:86-95 | the counters are the numbers of positions in the phase, and of those that the table marks right |
| Routing.RoutedExact | experiments/phase_aware_routing.py:191-204 | the routed score is the number of positions that the table marks right for the condition chosen for their phase |
| Routing.PhaseRouteOptimal | experiments/phase_aware_routing.py:191-204 | no route that depends on the phase alone is right more often than E4 |
| Routing.MajorityPhaseOracle | experiments/phase_aware_routing.py:107 | majority is right at most as often as E4, and E4 at most as often as the item-level oracle |
| Gainability.BuildIndex | experiments/gainability_routing.py:114-118 | the index holds the last record of each id and skips records without one |
| Gainability.IndexExact | experiments/gainability_routing.py:114-118 | an id is indexed if and only if some record has it, and then with the last such record |
| Gainability.NormaliseLayout | experiments/gainability_routing.py:100-161 | the loops flatten every majority record with an id, with the branches that have a record of it |
| Gainability.BranchesExact | experiments/gainability_routing.py:132-139 | some branch is right if and only if some other condition's indexed record is |
| Gainability.BranchesListed | experiments/gainability_routing.py:132-139 | the branches are exactly the other conditions with a record of the id, in layout order, each with its indexed answer |
| Gainability.MissingExactly | experiments/gainability_routing.py:103-107 | the layout is refused exactly when no condition in it is the majority |
| Gainability.ItemLabelExact | experiments/gainability_routing.py:44-52 | item by item and for any ids: the label is the routing bound's if and only if the item's own record answers as the last record with its id, or no other condition is right |
| Gainability.RepeatedIdsDisagree | experiments/gainability_routing.py:113-131 | a layout with one id answered twice whose first item the label and the routing bound judge differently |
| Gainability.LabelsAgree | experiments/gainability_routing.py:100-161 | when no two majority records share an id the labels mark exactly the gainable items, and as many |
| Gainability.LabelsMatchBound | experiments/full_coverage_bound.py:52-69 | when the first condition also has the majority's ids, the labels number what the routing bound counts over the first condition's ids |
| DecisionCache.Cache.constructor | experiments/evaluate_toolcall_benchmark_v2_live.py:151-154 | a cache starts empty |
| DecisionCache.Cache.Insert | experiments/evaluate_toolcall_benchmark_v2_live.py:166-172 | only the entry of this key and task changes; the decision's own fields override the source tag |
| DecisionCache.Cache.DecideSingleModel | experiments/evaluate_toolcall_benchmark_v2_live.py:189-219 | cached entries are served without a call; replay stores its seed; live stores the reply, and a failed call stores nothing |
| DecisionCache.Cache.Run | experiments/evaluate_toolcall_benchmark_v2_live.py:264-302 | a run is its requests in order up to the first failed call, and keeps what was stored before it |
| DecisionCache.RunStops | experiments/evaluate_toolcall_benchmark_v2_live.py:264-302 | a run stops at the first request left without a decision, and only there |
| DecisionCache.RepeatsAreFree | experiments/evaluate_toolcall_benchmark_v2_live.py:189-219 | after any interleaving of runs a repeated request gets the identical decision and asks no model |
| DecisionCache.AtMostOneCall | experiments/evaluate_toolcall_benchmark_v2_live.py:189-219 | a model is successfully asked at most once for each key and task |
| DecisionCache.KeysSeparate | experiments/evaluate_toolcall_benchmark_v2_live.py:184-186 | requests share a key only when they agree on baseline, mode and model |
| DecisionCache.KeyExact | experiments/evaluate_toolcall_benchmark_v2_live.py:184-186 | the key is the baseline, or the baseline, an '@' and the model |
| DecisionCache.LiveKeyUnique | experiments/evaluate_toolcall_benchmark_v2_live.py:184-186 | a live key determines its baseline and its model, even if the model's name contains the separator |
| DecisionCache.AnswersHonest | experiments/evaluate_toolcall_benchmark_v2_live.py:162-219 | from an empty cache a replay answer is always a seed and a live answer always the requested model's |
| DecisionCache.AnswerExact | experiments/evaluate_toolcall_benchmark_v2_live.py:189-219 | every answer is, without a call, that of the first answered event with its key and task, or is fresh when no earlier one was answered |
| DecisionCache.AnswerCarries | experiments/evaluate_toolcall_benchmark_v2_live.py:162-219 | every answer has the action, confidence and reasons of that reply or seed, all its raw fields with their values, and beyond them only a source tag where it had none |
| DecisionCache.SourceLabelExact | experiments/evaluate_toolcall_benchmark_v2_live.py:222-238 | the label of a decision: the seed label exactly for decisions tagged as seeds, otherwise live and the model, or live and unknown |
| DecisionCache.SourceOfExact | experiments/evaluate_toolcall_benchmark_v2_live.py:222-238 | a label is reported exactly when all decisions carry it and there is one; otherwise "mixed" |
| DecisionCache.LabelCountsExact | experiments/evaluate_toolcall_benchmark_v2_live.py:222-238 | each label is counted as often as decisions carry it, and no other label is listed |
| DecisionCache.TableRequestAt | experiments/evaluate_toolcall_benchmark_v2_live.py:264-302 | the requests of a table, by position: task by task, the three baselines in order |
| DecisionCache.SourcesNeverMixed | experiments/evaluate_toolcall_benchmark_v2_live.py:222-238 | a completed run that asked a baseline in one mode reports that mode for it, and counts all its decisions under it |
| DecisionCache.RunIsEvents | experiments/evaluate_toolcall_benchmark_v2_live.py:264-302 | a run, aborted or not, leaves the cache as the requests it answered leave it, and gives their answers |
| CacheRuns.CacheOfTrace | experiments/evaluate_toolcall_benchmark_v2_live.py:264-302 | any sequence of runs from an empty cache leaves it as the list of everything they got to |
| CacheRuns.RepeatsFreeAcrossRuns | experiments/evaluate_toolcall_benchmark_v2_live.py:189-219 | once any run has answered a request, every later one like it, in that run or a resumed one, gets the identical decision and asks no model |
| CacheRuns.OneCallAcrossRuns | experiments/evaluate_toolcall_benchmark_v2_live.py:189-219 | over any sequence of runs a model completes at most one call for each key and task |
| CacheRuns.HonestAcrossRuns | experiments/evaluate_toolcall_benchmark_v2_live.py:162-219 | every answer of every run, aborted ones included, is a seed or the requested model's reply, as its mode says |
| CacheRuns.DecisionsCarriedAcrossRuns | experiments/evaluate_toolcall_benchmark_v2_live.py:162-219 | every answer of every run carries the decision first given, in whatever run, to a request like it |
| CacheRuns.NeverMixedAcrossRuns | experiments/evaluate_toolcall_benchmark_v2_live.py:222-238 | whatever runs came before, a completed run that asked a baseline in one mode reports that one source and counts all its decisions under it |
| CacheRuns.TableAfterRuns | experiments/evaluate_toolcall_benchmark_v2_live.py:264-302 | whatever runs came before, a completed table over at least one task names one source for each baseline, never "mixed" |
| Apportionment.Round | experiments/selective_n1000.py:215 | the nearest integer, and at a tie the even one |
| Apportionment.RoundShares | experiments/selective_n1000.py:211-215 | the loop gives each domain its rounded share |
| Apportionment.DomainsInOrder | experiments/selective_n1000.py:209-215 | domains are taken in the order in which they first appear |
| Apportionment.Correct | experiments/selective_n1000.py:218-223 | the loop moves each of the first domains by one unit and no domain twice |
| Apportionment.FewCorrections | experiments/selective_n1000.py:220-223 | at most half the domains are corrected |
| Apportionment.MakeItems | experiments/selective_n1000.py:225-228 | each domain gets the items numbered from 0 up to its count, and none when the count is negative; they stand in order of domain and number |
| Apportionment.GenerateItems | experiments/selective_n1000.py:202-254 | the whole generator, and its division by zero on an empty base |
| Apportionment.SharesExact | experiments/selective_n1000.py:211-223 | the counts add up to the target; each is within one of its rounded share and within 3/2 of its exact share; the corrected domains come first and are all corrected the same way |
| Apportionment.ExactlyTarget | experiments/selective_n1000.py:315-318 | exactly the target number of items is generated if and only if the target is not negative and no domain that loses an item had rounded to zero |
| Apportionment.EnoughAsked | experiments/selective_n1000.py:315-318 | a target of more than half the base is always met exactly |
| Apportionment.TooManyItems | experiments/selective_n1000.py:220-228 | a base of seven items for which two were asked and three are generated |
| HashChain.BuildChain | examples/quickstart.py:212-236 | the loop's hashes, entry by entry: each is that of the previous one, a colon, the question, a colon and the action, and sixty-four zeros stand before the first |
| HashChain.RawInjective | examples/quickstart.py:234 | the text hashed determines previous hash, question and action when the action has no colon, whatever the question holds |
| HashChain.ColonsInActionsAmbiguous | examples/quickstart.py:234 | with colons in actions one text has two readings |
| HashChain.HeadBindsHistory | examples/quickstart.py:234-236 | chains of one length with one head hold the same entries, or a pair of hashed texts collides |
| HashChain.TamperingShows | examples/quickstart.py:319 | chains that first differ at an entry differ in every later hash, or collide at or after it |

## Left out

- Rounding of floats: all arithmetic is exact, over integers and reals.
- Ranks.ComprehensionAgrees: speaks of the value before it is rounded to 4 places.
- McNemar.PValueLaws: speaks of the value before it is rounded to 6 places, after which it may be 0.
- HMAC, SHA-256, square root and model replies: parameters; nothing is assumed of the first two but, in the chain, the length of the output.
- ReadbackTheorems.ReadOnceClock: reader and clock are functions of the state of the world; that the reader has its own timeout is not modelled.
- JsonRoundTrip.DecodeCanonical: the model has no limit on the digits of an integer, where Python stops at 4300, and none on recursion; the source rejects what exceeds either.
- JSON texts with lone surrogates: the source decodes them and then fails to encode them, the model rejects them while parsing; both reject.
- JSON strings hold Unicode scalar values; neither case folding nor normalisation exists in the source.
- Spearman.PearsonRange: covers the form with at least three points; the variants at experiments/selective_trust_curve.py:60-83 and experiments/chi_iteration_utility.py:188-216 differ in the smallest length and in returning 0 where this one has no value.
- SpearmanTies.FormulasAgreeExactly: lists of unequal length are not modelled; all callers pass equal ones.
- Wilson.EndsSolveScore: the variant at experiments/selective_trust_curve.py:41-49 rounds instead of clamping and is not modelled separately.
- Routing.OracleAccounting: a table that lacks an item counts it as wrong, where the source fails on the missing key.
- Abstention policies E1 to E3 of the phase router, decile bins, selective curves, threshold selection, confusion and net-lift counters: counting with no further structure.
- DecisionCache.Cache.Run: the cache file is not modelled; a failed call keeps the store, which is what the source saves and the next run loads.
- The heuristic that makes replay seeds: a seed is an input of which only the empty raw part is used.
- Apportionment.GenerateItems: only the domain and number of a synthetic item are modelled, not its random fields and identifier.
- Gainability.NormaliseLayout: the observables and the phase that each flat item also carries are not modelled; no label reads them.
- The enforcement kernel, leases, outbox, live clients, bootstrap, expectation maximisation and all console output.
