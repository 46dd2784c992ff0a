/** Routing bounds over one correctness table: the full-coverage ceiling and the best route by phase. */
module Routing {
  import opened Orders
  import opened RealFacts
  import opened Sums

  /** condition -> item id -> correct */
  type Table = map<string, map<string, bool>>

  const MAJORITY := "B_majority"

  predicate Right(table: Table, c: string, id: string) {
    c in table && id in table[c] && table[c][id]
  }

  predicate SomeRight(table: Table, conditions: seq<string>, id: string) {
    exists c | c in conditions :: Right(table, c, id)
  }

  predicate AllRight(table: Table, conditions: seq<string>, id: string) {
    forall c | c in conditions :: Right(table, c, id)
  }

  // ---------------------------------------------------- full-coverage bound

  function ByCondition(table: Table, c: string): string -> bool { (id: string) => Right(table, c, id) }
  function ByOracle(table: Table, conditions: seq<string>): string -> bool {
    (id: string) => SomeRight(table, conditions, id)
  }

  /** Majority wrong, some condition right: the items routing can win. */
  function IsGainable(table: Table, conditions: seq<string>): string -> bool {
    (id: string) => !Right(table, MAJORITY, id) && SomeRight(table, conditions, id)
  }

  /** Majority right, some other condition wrong, in the source's redundant spelling. */
  function IsLoseable(table: Table, conditions: seq<string>): string -> bool {
    (id: string) =>
      && Right(table, MAJORITY, id)
      && !AllRight(table, conditions, id)
      && exists c | c in conditions && c != MAJORITY :: !Right(table, c, id)
  }

  function IsAllWrong(table: Table, conditions: seq<string>): string -> bool {
    (id: string) => !SomeRight(table, conditions, id)
  }

  function BaselineCount(table: Table, ids: seq<string>): nat { CountOf(ids, ByCondition(table, MAJORITY)) }
  function OracleCount(table: Table, conditions: seq<string>, ids: seq<string>): nat {
    CountOf(ids, ByOracle(table, conditions))
  }
  function GainableCount(table: Table, conditions: seq<string>, ids: seq<string>): nat {
    CountOf(ids, IsGainable(table, conditions))
  }
  function LoseableCount(table: Table, conditions: seq<string>, ids: seq<string>): nat {
    CountOf(ids, IsLoseable(table, conditions))
  }
  function AllWrongCount(table: Table, conditions: seq<string>, ids: seq<string>): nat {
    CountOf(ids, IsAllWrong(table, conditions))
  }

  /** Counts add over a partition of the property counted. */
  lemma {:induction false} CountPartition<T>(s: seq<T>, p: T -> bool, q: T -> bool, r: T -> bool)
    requires forall t | t in s :: (p(t) <==> q(t) || r(t)) && !(q(t) && r(t))
    ensures CountOf(s, p) == CountOf(s, q) + CountOf(s, r)
  {
    if |s| > 0 {
      assert s[|s| - 1] in s;
      CountPartition(s[..|s| - 1], p, q, r);
    }
  }

  function Always<T>(): T -> bool { (t: T) => true }

  /** Every item is either out of reach or within the oracle's reach, and that is majority plus the gainable. */
  lemma OracleAccounting(table: Table, conditions: seq<string>, ids: seq<string>)
    requires MAJORITY in conditions
    ensures OracleCount(table, conditions, ids) == BaselineCount(table, ids) + GainableCount(table, conditions, ids)
    ensures |ids| == OracleCount(table, conditions, ids) + AllWrongCount(table, conditions, ids)
    ensures OracleCount(table, conditions, ids) == BaselineCount(table, ids)
            <==> forall id | id in ids :: !IsGainable(table, conditions)(id)
  {
    CountPartition(ids, ByOracle(table, conditions), ByCondition(table, MAJORITY), IsGainable(table, conditions));
    CountPartition(ids, Always(), ByOracle(table, conditions), IsAllWrong(table, conditions));
    CountOfBound(ids, Always());
    CountOfBound(ids, IsGainable(table, conditions));
  }

  /** The table says that condition c answers item id correctly. */
  ghost predicate Marked(table: Table, c: string, id: string) {
    c in table && (id, true) in table[c].Items
  }

  lemma MarkedRight(table: Table, c: string, id: string)
    ensures Right(table, c, id) <==> Marked(table, c, id)
  {}

  ghost predicate SomeMarked(table: Table, conditions: seq<string>, id: string) {
    exists c | c in conditions :: Marked(table, c, id)
  }

  ghost predicate SomeUnmarked(table: Table, conditions: seq<string>, id: string) {
    exists c | c in conditions :: !Marked(table, c, id)
  }

  lemma CountAs<T>(s: seq<T>, p: T -> bool, positions: set<int>)
    requires forall i :: i in positions <==> 0 <= i < |s| && p(s[i])
    ensures CountOf(s, p) == |positions|
  {
    hide CountOf;
    CountOfPositions(s, p);
    assert (set i | 0 <= i < |s| && p(s[i])) == positions;
  }

  lemma MarkedAll(table: Table, conditions: seq<string>, id: string)
    ensures Right(table, MAJORITY, id) <==> Marked(table, "B_majority", id)
    ensures SomeRight(table, conditions, id) <==> SomeMarked(table, conditions, id)
    ensures AllRight(table, conditions, id) <==> !SomeUnmarked(table, conditions, id)
  {
    forall c ensures Right(table, c, id) <==> Marked(table, c, id) {
      MarkedRight(table, c, id);
    }
    hide Right, Marked;
  }

  /** Majority's score, the oracle's and the count of hopeless items, as numbers of positions in the list of ids. */
  lemma CountsExact(table: Table, conditions: seq<string>, ids: seq<string>)
    ensures BaselineCount(table, ids) == |set i | 0 <= i < |ids| && Marked(table, "B_majority", ids[i])|
    ensures OracleCount(table, conditions, ids) == |set i | 0 <= i < |ids| && SomeMarked(table, conditions, ids[i])|
    ensures AllWrongCount(table, conditions, ids) == |set i | 0 <= i < |ids| && !SomeMarked(table, conditions, ids[i])|
  {
    hide CountOf, Right, Marked, SomeRight, AllRight, SomeMarked, SomeUnmarked;
    var n := |ids|;
    forall id
      ensures ByCondition(table, MAJORITY)(id) == Marked(table, "B_majority", id)
      ensures ByOracle(table, conditions)(id) == !IsAllWrong(table, conditions)(id) == SomeMarked(table, conditions, id)
    {
      MarkedAll(table, conditions, id);
    }
    CountAs(ids, ByCondition(table, MAJORITY), set i | 0 <= i < n && Marked(table, "B_majority", ids[i]));
    CountAs(ids, ByOracle(table, conditions), set i | 0 <= i < n && SomeMarked(table, conditions, ids[i]));
    CountAs(ids, IsAllWrong(table, conditions), set i | 0 <= i < n && !SomeMarked(table, conditions, ids[i]));
  }

  /** What routing can win and lose against majority, in the same terms. */
  lemma SwingsExact(table: Table, conditions: seq<string>, ids: seq<string>)
    ensures GainableCount(table, conditions, ids)
            == |set i | 0 <= i < |ids| && !Marked(table, "B_majority", ids[i])
                        && SomeMarked(table, conditions, ids[i])|
    ensures LoseableCount(table, conditions, ids)
            == |set i | 0 <= i < |ids| && Marked(table, "B_majority", ids[i])
                        && SomeUnmarked(table, conditions, ids[i])|
  {
    hide CountOf, Right, Marked, SomeRight, AllRight, SomeMarked, SomeUnmarked;
    var n := |ids|;
    forall id
      ensures IsGainable(table, conditions)(id)
              == (!Marked(table, "B_majority", id) && SomeMarked(table, conditions, id))
      ensures IsLoseable(table, conditions)(id)
              == (Marked(table, "B_majority", id) && SomeUnmarked(table, conditions, id))
    {
      MarkedAll(table, conditions, id);
      LoseableMeans(table, conditions, id);
    }
    CountAs(ids, IsGainable(table, conditions),
            set i | 0 <= i < n && !Marked(table, "B_majority", ids[i]) && SomeMarked(table, conditions, ids[i]));
    CountAs(ids, IsLoseable(table, conditions),
            set i | 0 <= i < n && Marked(table, "B_majority", ids[i]) && SomeUnmarked(table, conditions, ids[i]));
  }

  /** The third conjunct of the source's test follows from the other two. */
  lemma LoseableMeans(table: Table, conditions: seq<string>, id: string)
    ensures IsLoseable(table, conditions)(id) <==> Right(table, MAJORITY, id) && !AllRight(table, conditions, id)
  {
    hide Right;
  }

  /** A full-coverage policy: one condition for each item. */
  type Policy = string -> string

  function ByPolicy(table: Table, policy: Policy): string -> bool { (id: string) => Right(table, policy(id), id) }

  function PolicyCount(table: Table, ids: seq<string>, policy: Policy): nat { CountOf(ids, ByPolicy(table, policy)) }

  function ByAll(table: Table, conditions: seq<string>): string -> bool {
    (id: string) => AllRight(table, conditions, id)
  }

  /**
   The theorem: no policy gets more items right than the oracle, nor fewer than
   majority less the loseable items.
   */
  lemma PolicyRange(table: Table, conditions: seq<string>, ids: seq<string>, policy: Policy)
    requires MAJORITY in conditions && forall id | id in ids :: policy(id) in conditions
    ensures BaselineCount(table, ids) - LoseableCount(table, conditions, ids)
            <= PolicyCount(table, ids, policy)
            <= OracleCount(table, conditions, ids)
  {
    CountOfMono(ids, ByPolicy(table, policy), ByOracle(table, conditions));
    LoseableSplit(table, conditions, ids);
    CountOfMono(ids, ByAll(table, conditions), ByPolicy(table, policy));
  }

  /** The first condition that gets the item right (or, for worst, wrong), else majority. */
  function FirstWith(table: Table, conditions: seq<string>, id: string, right: bool): (c: string)
    ensures c == MAJORITY || c in conditions
    ensures (exists d | d in conditions :: Right(table, d, id) == right) ==> Right(table, c, id) == right
  {
    if |conditions| == 0 then MAJORITY
    else if Right(table, conditions[0], id) == right then conditions[0]
    else
      assert conditions == [conditions[0]] + conditions[1..];
      FirstWith(table, conditions[1..], id, right)
  }

  function OraclePolicy(table: Table, conditions: seq<string>): Policy {
    (id: string) => FirstWith(table, conditions, id, true)
  }

  function WorstPolicy(table: Table, conditions: seq<string>): Policy {
    (id: string) => FirstWith(table, conditions, id, false)
  }

  lemma OracleReached(table: Table, conditions: seq<string>, ids: seq<string>)
    requires MAJORITY in conditions
    ensures PolicyCount(table, ids, OraclePolicy(table, conditions)) >= OracleCount(table, conditions, ids)
  {
    hide CountOf, FirstWith, Right;
    var best := OraclePolicy(table, conditions);
    forall id | id in ids && ByOracle(table, conditions)(id) ensures ByPolicy(table, best)(id) {
      assert exists d | d in conditions :: Right(table, d, id) == true;
    }
    CountOfMono(ids, ByOracle(table, conditions), ByPolicy(table, best));
  }

  lemma WorstReached(table: Table, conditions: seq<string>, ids: seq<string>)
    requires MAJORITY in conditions
    ensures PolicyCount(table, ids, WorstPolicy(table, conditions)) <= CountOf(ids, ByAll(table, conditions))
  {
    hide CountOf, FirstWith, Right;
    var worst := WorstPolicy(table, conditions);
    forall id | id in ids && ByPolicy(table, worst)(id) ensures ByAll(table, conditions)(id) {
      assert !exists d | d in conditions :: Right(table, d, id) == false;
    }
    CountOfMono(ids, ByPolicy(table, worst), ByAll(table, conditions));
  }

  lemma LoseableSplit(table: Table, conditions: seq<string>, ids: seq<string>)
    requires MAJORITY in conditions
    ensures BaselineCount(table, ids) == LoseableCount(table, conditions, ids) + CountOf(ids, ByAll(table, conditions))
  {
    CountPartition(ids, ByCondition(table, MAJORITY), IsLoseable(table, conditions), ByAll(table, conditions));
  }

  /** Both ends of the range are reached. */
  lemma RangeAttained(table: Table, conditions: seq<string>, ids: seq<string>)
    requires MAJORITY in conditions
    ensures PolicyCount(table, ids, OraclePolicy(table, conditions)) == OracleCount(table, conditions, ids)
    ensures PolicyCount(table, ids, WorstPolicy(table, conditions))
            == BaselineCount(table, ids) - LoseableCount(table, conditions, ids)
  {
    hide CountOf, Right, PolicyCount, OracleCount, BaselineCount, LoseableCount;
    PolicyRange(table, conditions, ids, OraclePolicy(table, conditions));
    PolicyRange(table, conditions, ids, WorstPolicy(table, conditions));
    OracleReached(table, conditions, ids);
    WorstReached(table, conditions, ids);
    LoseableSplit(table, conditions, ids);
  }

  // ----------------------------------------------------------- phase routing

  datatype Item = Item(id: string, phase: string)
  datatype Stat = Stat(n: nat, correct: nat)
  type Row = map<string, Stat>

  function InPhase(phase: string): Item -> bool { (it: Item) => it.phase == phase }
  function RightInPhase(table: Table, c: string, phase: string): Item -> bool {
    (it: Item) => it.phase == phase && Right(table, c, it.id)
  }

  ghost predicate Tallied(stats: map<string, Row>, items: seq<Item>, conditions: seq<string>, table: Table) {
    && stats.Keys == (set it | it in items :: it.phase)
    && forall ph | ph in stats :: RowTallied(stats[ph], items, conditions, table, ph)
  }

  ghost predicate RowTallied(row: Row, items: seq<Item>, conditions: seq<string>, table: Table, phase: string) {
    && row.Keys == (set c | c in conditions)
    && forall c | c in conditions ::
         row[c] == Stat(CountOf(items, InPhase(phase)), CountOf(items, RightInPhase(table, c, phase)))
  }

  ghost predicate ItemsKnown(table: Table, conditions: seq<string>, items: seq<Item>) {
    forall c, it | c in conditions && it in items :: c in table && it.id in table[c]
  }

  lemma TallyStep(items: seq<Item>, i: nat, table: Table, c: string, phase: string)
    requires i < |items|
    ensures CountOf(items[..i + 1], InPhase(phase))
            == CountOf(items[..i], InPhase(phase)) + if items[i].phase == phase then 1 else 0
    ensures CountOf(items[..i + 1], RightInPhase(table, c, phase))
            == CountOf(items[..i], RightInPhase(table, c, phase))
               + if items[i].phase == phase && Right(table, c, items[i].id) then 1 else 0
  {
    CountOfPrefix(items, i, InPhase(phase));
    CountOfPrefix(items, i, RightInPhase(table, c, phase));
  }

  lemma NothingTallied(items: seq<Item>, conditions: seq<string>, table: Table)
    ensures Tallied(map[], items[..0], conditions, table)
  {}

  lemma RowKeys(row: Row, items: seq<Item>, conditions: seq<string>, table: Table, phase: string)
    requires RowTallied(row, items, conditions, table, phase)
    ensures row.Keys == (set c | c in conditions)
  {}

  /** The first loop of the experiment: counters per phase and condition. */
  method TallyPhases(items: seq<Item>, conditions: seq<string>, table: Table) returns (stats: map<string, Row>)
    requires ItemsKnown(table, conditions, items) && Distinct(conditions)
    ensures Tallied(stats, items, conditions, table)
  {
    hide Tallied, RowTallied, CountOf;
    stats := map[];
    NothingTallied(items, conditions, table);
    for i := 0 to |items|
      invariant Tallied(stats, items[..i], conditions, table)
    {
      var it := items[i];
      ghost var before := stats;
      var row := if it.phase in stats then stats[it.phase] else map c | c in conditions :: Stat(0, 0);
      FreshRow(items, i, conditions, table, it.phase, row, stats);
      ghost var start := row;
      RowKeys(row, items[..i], conditions, table, it.phase);
      for j := 0 to |conditions|
        invariant row.Keys == start.Keys
        invariant forall k | 0 <= k < |conditions| ::
                    row[conditions[k]]
                    == if k < j then Bump(start[conditions[k]], Right(table, conditions[k], it.id))
                       else start[conditions[k]]
      {
        var c := conditions[j];
        assert c in conditions && it in items;
        row := row[c := Stat(row[c].n + 1, row[c].correct + if table[c][it.id] then 1 else 0)];
      }
      stats := stats[it.phase := row];
      TallyRow(items, i, conditions, table, before, start, row);
    }
    assert items[..|items|] == items;
  }

  ghost function Bump(s: Stat, right: bool): Stat { Stat(s.n + 1, s.correct + if right then 1 else 0) }

  lemma FreshRow(items: seq<Item>, i: nat, conditions: seq<string>, table: Table, phase: string, row: Row,
                 stats: map<string, Row>)
    requires i < |items| && Tallied(stats, items[..i], conditions, table)
    requires row == if phase in stats then stats[phase] else map c | c in conditions :: Stat(0, 0)
    ensures RowTallied(row, items[..i], conditions, table, phase)
  {
    if phase !in stats {
      forall it | it in items[..i] ensures it.phase != phase {
        assert it.phase in stats.Keys;
      }
      CountOfBound(items[..i], InPhase(phase));
      forall c | c in conditions ensures CountOf(items[..i], RightInPhase(table, c, phase)) == 0 {
        CountOfBound(items[..i], RightInPhase(table, c, phase));
      }
    }
  }

  lemma TallyRow(items: seq<Item>, i: nat, conditions: seq<string>, table: Table,
                 before: map<string, Row>, start: Row, row: Row)
    requires i < |items| && Tallied(before, items[..i], conditions, table)
    requires RowTallied(start, items[..i], conditions, table, items[i].phase) && row.Keys == start.Keys
    requires forall k | 0 <= k < |conditions| ::
               row[conditions[k]] == Bump(start[conditions[k]], Right(table, conditions[k], items[i].id))
    ensures Tallied(before[items[i].phase := row], items[..i + 1], conditions, table)
  {
    hide CountOf, RowTallied;
    var it := items[i];
    assert items[..i + 1] == items[..i] + [it];
    BumpedRow(items, i, conditions, table, start, row);
    forall ph | ph in before && ph != it.phase ensures RowTallied(before[ph], items[..i + 1], conditions, table, ph) {
      KeptRow(items, i, conditions, table, before[ph], ph);
    }
  }

  lemma KeptRow(items: seq<Item>, i: nat, conditions: seq<string>, table: Table, row: Row, ph: string)
    requires i < |items| && ph != items[i].phase && RowTallied(row, items[..i], conditions, table, ph)
    ensures RowTallied(row, items[..i + 1], conditions, table, ph)
  {
    hide CountOf;
    forall c | c in conditions
      ensures row[c] == Stat(CountOf(items[..i + 1], InPhase(ph)), CountOf(items[..i + 1], RightInPhase(table, c, ph)))
    {
      TallyStep(items, i, table, c, ph);
    }
  }

  lemma BumpedRow(items: seq<Item>, i: nat, conditions: seq<string>, table: Table, start: Row, row: Row)
    requires i < |items|
    requires RowTallied(start, items[..i], conditions, table, items[i].phase) && row.Keys == start.Keys
    requires forall k | 0 <= k < |conditions| ::
               row[conditions[k]] == Bump(start[conditions[k]], Right(table, conditions[k], items[i].id))
    ensures RowTallied(row, items[..i + 1], conditions, table, items[i].phase)
  {
    hide CountOf;
    var ph := items[i].phase;
    forall c | c in conditions
      ensures row[c] == Stat(CountOf(items[..i + 1], InPhase(ph)), CountOf(items[..i + 1], RightInPhase(table, c, ph)))
    {
      TallyStep(items, i, table, c, ph);
      var k :| 0 <= k < |conditions| && conditions[k] == c;
    }
  }

  function Accuracy(s: Stat): real
    requires s.n > 0
  {
    s.correct as real / s.n as real
  }

  /** Python's `max` over the first i conditions: the first one of highest accuracy. */
  function ArgMax(row: Row, conditions: seq<string>, i: nat): (c: string)
    requires 0 < i <= |conditions| && Rated(row, conditions)
    ensures c in conditions
  {
    if i == 1 then conditions[0]
    else
      var c := ArgMax(row, conditions, i - 1);
      if Accuracy(row[conditions[i - 1]]) > Accuracy(row[c]) then conditions[i - 1] else c
  }

  lemma AccuracyOrder(a: Stat, b: Stat)
    requires a.n == b.n > 0
    ensures Accuracy(a) <= Accuracy(b) <==> a.correct <= b.correct
  {
    QuotientOrder(a.correct as real, b.correct as real, a.n as real);
  }

  lemma {:induction false} ArgMaxMaximal(row: Row, conditions: seq<string>, i: nat, n: nat)
    requires 0 < i <= |conditions| && n > 0 && forall d | d in conditions :: d in row && row[d].n == n
    ensures forall j | 0 <= j < i :: row[conditions[j]].correct <= row[ArgMax(row, conditions, i)].correct
  {
    hide Accuracy;
    if i > 1 {
      ArgMaxMaximal(row, conditions, i - 1, n);
      AccuracyOrder(row[conditions[i - 1]], row[ArgMax(row, conditions, i - 1)]);
    }
  }

  /** Of equally accurate conditions the one listed first is taken. */
  lemma {:induction false} ArgMaxFirst(row: Row, conditions: seq<string>, i: nat, n: nat) returns (k: nat)
    requires 0 < i <= |conditions| && n > 0 && forall d | d in conditions :: d in row && row[d].n == n
    ensures k < i && conditions[k] == ArgMax(row, conditions, i)
    ensures forall j | 0 <= j < k :: row[conditions[j]].correct < row[conditions[k]].correct
  {
    hide Accuracy;
    k := 0;
    if i > 1 {
      k := ArgMaxFirst(row, conditions, i - 1, n);
      AccuracyOrder(row[conditions[i - 1]], row[conditions[k]]);
      if ArgMax(row, conditions, i) != ArgMax(row, conditions, i - 1) {
        ArgMaxMaximal(row, conditions, i - 1, n);
        k := i - 1;
      }
    }
  }

  function PhaseSet(items: seq<Item>): set<string> { set it | it in items :: it.phase }

  /** No condition does better on the phase than b, and none listed before it does as well. */
  ghost predicate BestIn(items: seq<Item>, conditions: seq<string>, table: Table, phase: string, b: string) {
    && b in conditions
    && (forall c | c in conditions ::
          CountOf(items, RightInPhase(table, c, phase)) <= CountOf(items, RightInPhase(table, b, phase)))
    && exists k | 0 <= k < |conditions| ::
         conditions[k] == b && NoneAsGoodBefore(items, conditions, table, phase, k)
  }

  ghost predicate NoneAsGoodBefore(items: seq<Item>, conditions: seq<string>, table: Table, phase: string, k: nat)
    requires k < |conditions|
  {
    forall j | 0 <= j < k ::
      CountOf(items, RightInPhase(table, conditions[j], phase))
      < CountOf(items, RightInPhase(table, conditions[k], phase))
  }

  ghost predicate BestByPhase(best: map<string, string>, items: seq<Item>, conditions: seq<string>, table: Table) {
    && best.Keys == PhaseSet(items)
    && forall ph | ph in best :: BestIn(items, conditions, table, ph, best[ph])
  }

  predicate Rated(row: Row, conditions: seq<string>) {
    forall d | d in conditions :: d in row && row[d].n > 0
  }

  function Choose(stats: map<string, Row>, conditions: seq<string>): map<string, string>
    requires |conditions| > 0 && forall ph | ph in stats :: Rated(stats[ph], conditions)
  {
    map ph | ph in stats :: ArgMax(stats[ph], conditions, |conditions|)
  }

  function ByRoute(table: Table, route: string -> string): Item -> bool {
    (it: Item) => Right(table, route(it.phase), it.id)
  }

  function Lookup(best: map<string, string>): string -> string {
    (ph: string) => if ph in best then best[ph] else MAJORITY
  }

  lemma PhasePopulated(items: seq<Item>, phase: string)
    requires phase in PhaseSet(items)
    ensures CountOf(items, InPhase(phase)) > 0
  {
    CountOfBound(items, InPhase(phase));
  }

  lemma BestOfRow(row: Row, items: seq<Item>, conditions: seq<string>, table: Table, phase: string)
    requires RowTallied(row, items, conditions, table, phase) && phase in PhaseSet(items) && |conditions| > 0
    ensures Rated(row, conditions) && BestIn(items, conditions, table, phase, ArgMax(row, conditions, |conditions|))
  {
    hide CountOf, ArgMax;
    PhasePopulated(items, phase);
    ArgMaxMaximal(row, conditions, |conditions|, CountOf(items, InPhase(phase)));
    var b := ArgMax(row, conditions, |conditions|);
    forall c | c in conditions
      ensures CountOf(items, RightInPhase(table, c, phase)) <= CountOf(items, RightInPhase(table, b, phase))
    {
      var j :| 0 <= j < |conditions| && conditions[j] == c;
      assert row[conditions[j]].correct <= row[b].correct;
    }
    var k := ArgMaxFirst(row, conditions, |conditions|, CountOf(items, InPhase(phase)));
    assert NoneAsGoodBefore(items, conditions, table, phase, k);
  }

  /** Policy E4: tally, choose per phase, and count the routed answers. */
  method OraclePhaseRoute(items: seq<Item>, conditions: seq<string>, table: Table)
    returns (best: map<string, string>, correct: nat)
    requires ItemsKnown(table, conditions, items) && Distinct(conditions) && |conditions| > 0
    ensures BestByPhase(best, items, conditions, table)
    ensures correct == CountOf(items, ByRoute(table, Lookup(best)))
  {
    hide CountOf, Tallied, ArgMax, Right, BestByPhase, ByRoute;
    var stats := TallyPhases(items, conditions, table);
    BestOfRows(stats, items, conditions, table);
    best := Choose(stats, conditions);
    BestKnown(best, items, conditions, table);
    NoItems(items, ByRoute(table, Lookup(best)));
    correct := 0;
    for i := 0 to |items|
      invariant correct == CountOf(items[..i], ByRoute(table, Lookup(best)))
    {
      var it := items[i];
      assert it in items;
      CountOfPrefix(items, i, ByRoute(table, Lookup(best)));
      RoutedKnown(table, conditions, items, best, it);
      correct := correct + if table[best[it.phase]][it.id] then 1 else 0;
    }
    assert items[..|items|] == items;
  }

  lemma NoItems(items: seq<Item>, p: Item -> bool)
    ensures CountOf(items[..0], p) == 0
  {}

  lemma RoutedKnown(table: Table, conditions: seq<string>, items: seq<Item>, best: map<string, string>, it: Item)
    requires ItemsKnown(table, conditions, items) && it in items && it.phase in best && best[it.phase] in conditions
    ensures best[it.phase] in table && it.id in table[best[it.phase]]
    ensures ByRoute(table, Lookup(best))(it) == table[best[it.phase]][it.id]
  {}

  lemma BestKnown(best: map<string, string>, items: seq<Item>, conditions: seq<string>, table: Table)
    requires BestByPhase(best, items, conditions, table)
    ensures forall it | it in items :: it.phase in best && best[it.phase] in conditions
  {
    hide CountOf;
    forall it | it in items ensures it.phase in best {
      assert it.phase in PhaseSet(items);
    }
  }

  lemma BestOfRows(stats: map<string, Row>, items: seq<Item>, conditions: seq<string>, table: Table)
    requires Tallied(stats, items, conditions, table) && |conditions| > 0
    ensures forall ph | ph in stats :: Rated(stats[ph], conditions)
    ensures BestByPhase(Choose(stats, conditions), items, conditions, table)
  {
    hide CountOf, RowTallied, ArgMax, BestIn, Rated;
    forall ph | ph in stats
      ensures Rated(stats[ph], conditions)
      ensures BestIn(items, conditions, table, ph, ArgMax(stats[ph], conditions, |conditions|))
    {
      assert ph in PhaseSet(items);
      BestOfRow(stats[ph], items, conditions, table, ph);
    }
  }

  /** The counters behind the choice, as numbers of positions in the list of items. */
  lemma PhaseCountsExact(items: seq<Item>, table: Table, c: string, phase: string)
    ensures CountOf(items, InPhase(phase)) == |set i | 0 <= i < |items| && items[i].phase == phase|
    ensures CountOf(items, RightInPhase(table, c, phase))
            == |set i | 0 <= i < |items| && items[i].phase == phase && Marked(table, c, items[i].id)|
  {
    var n := |items|;
    CountAs(items, InPhase(phase), set i | 0 <= i < n && items[i].phase == phase);
    forall i | 0 <= i < n ensures Right(table, c, items[i].id) <==> Marked(table, c, items[i].id) {
      MarkedRight(table, c, items[i].id);
    }
    hide CountOf, Right, Marked;
    CountAs(items, RightInPhase(table, c, phase),
            set i | 0 <= i < n && items[i].phase == phase && Marked(table, c, items[i].id));
  }

  /** The routed score counts the positions whose chosen condition is marked right. */
  lemma RoutedExact(items: seq<Item>, table: Table, best: map<string, string>)
    requires forall i | 0 <= i < |items| :: items[i].phase in best
    ensures CountOf(items, ByRoute(table, Lookup(best)))
            == |set i | 0 <= i < |items| && Marked(table, best[items[i].phase], items[i].id)|
  {
    var n := |items|;
    forall i | 0 <= i < n
      ensures ByRoute(table, Lookup(best))(items[i]) <==> Marked(table, best[items[i].phase], items[i].id)
    {
      MarkedRight(table, best[items[i].phase], items[i].id);
    }
    hide CountOf, Marked, ByRoute;
    CountAs(items, ByRoute(table, Lookup(best)),
            set i | 0 <= i < n && Marked(table, best[items[i].phase], items[i].id));
  }

  function PhaseOf(): Item -> string { (it: Item) => it.phase }

  /** The routed count of one phase. */
  lemma RouteOnPhase(items: seq<Item>, table: Table, route: string -> string, ph: string)
    ensures PerKey(items, PhaseOf(), Indicator(ByRoute(table, route)))(ph)
            == CountOf(items, RightInPhase(table, route(ph), ph)) as real
  {
    CountOfSum(items, RightInPhase(table, route(ph), ph));
    hide SumOf, CountOf, Right;
    forall it | it in items
      ensures AtKey(PhaseOf(), Indicator(ByRoute(table, route)), ph)(it)
              == Indicator(RightInPhase(table, route(ph), ph))(it) {}
    SumOfCong(items, AtKey(PhaseOf(), Indicator(ByRoute(table, route)), ph),
              Indicator(RightInPhase(table, route(ph), ph)));
  }

  lemma Listing<T>(s: set<T>) returns (ks: seq<T>)
    ensures Distinct(ks) && forall k :: k in ks <==> k in s
    decreases |s|
  {
    if s == {} {
      ks := [];
    } else {
      var k := Pick(s);
      var rest := Listing(s - {k});
      ks := [k] + rest;
    }
  }

  /** Policy E4 is the upper bound of every phase-aware route. */
  lemma PhaseRouteOptimal(items: seq<Item>, conditions: seq<string>, table: Table, best: map<string, string>,
                          route: string -> string)
    requires BestByPhase(best, items, conditions, table)
    requires forall ph | ph in PhaseSet(items) :: route(ph) in conditions
    ensures CountOf(items, ByRoute(table, route)) <= CountOf(items, ByRoute(table, Lookup(best)))
  {
    var phases := Listing(PhaseSet(items));
    CountOfSum(items, ByRoute(table, route));
    CountOfSum(items, ByRoute(table, Lookup(best)));
    hide SumOf, CountOf, Right, ByRoute;
    forall it | it in items ensures PhaseOf()(it) in phases {
      assert it.phase in PhaseSet(items);
    }
    GroupSum(items, phases, PhaseOf(), Indicator(ByRoute(table, route)));
    GroupSum(items, phases, PhaseOf(), Indicator(ByRoute(table, Lookup(best))));
    forall ph | ph in phases
      ensures PerKey(items, PhaseOf(), Indicator(ByRoute(table, route)))(ph)
              <= PerKey(items, PhaseOf(), Indicator(ByRoute(table, Lookup(best))))(ph)
    {
      RouteOnPhase(items, table, route, ph);
      RouteOnPhase(items, table, Lookup(best), ph);
      assert ph in PhaseSet(items) && route(ph) in conditions && Lookup(best)(ph) == best[ph];
    }
    SumOfMono(phases, PerKey(items, PhaseOf(), Indicator(ByRoute(table, route))),
              PerKey(items, PhaseOf(), Indicator(ByRoute(table, Lookup(best)))));
  }

  function Ids(items: seq<Item>): seq<string> { seq(|items|, i requires 0 <= i < |items| => items[i].id) }

  function ToMajority(): string -> string { (ph: string) => MAJORITY }
  function OracleItem(table: Table, conditions: seq<string>): Item -> bool {
    (it: Item) => SomeRight(table, conditions, it.id)
  }

  /** Majority, the best route by phase, and the item-level oracle, in this order. */
  lemma MajorityPhaseOracle(items: seq<Item>, conditions: seq<string>, table: Table, best: map<string, string>)
    requires MAJORITY in conditions && BestByPhase(best, items, conditions, table)
    ensures BaselineCount(table, Ids(items))
            <= CountOf(items, ByRoute(table, Lookup(best)))
            <= OracleCount(table, conditions, Ids(items))
  {
    hide CountOf, Right;
    PhaseRouteOptimal(items, conditions, table, best, ToMajority());
    CountImage(items, Ids(items), ByRoute(table, ToMajority()), ByCondition(table, MAJORITY));
    CountImage(items, Ids(items), OracleItem(table, conditions), ByOracle(table, conditions));
    forall it | it in items && ByRoute(table, Lookup(best))(it) ensures OracleItem(table, conditions)(it) {
      assert it.phase in PhaseSet(items);
      assert best[it.phase] in conditions;
    }
    CountOfMono(items, ByRoute(table, Lookup(best)), OracleItem(table, conditions));
  }
}
