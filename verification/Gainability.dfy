/**
 The normaliser that flattens a conditions-keyed layout into labelled items, and
 its agreement with the gainable items of the routing bound.
 */
module Gainability {
  import opened Sums
  import opened Routing
  import opened Wrappers

  /** One record of a condition; either field may be absent. */
  datatype Rec = Rec(itemId: Option<string>, correct: Option<bool>) {
    function IsCorrect(): bool { correct == Some(true) }
  }

  datatype Flat = Flat(itemId: string, majorityCorrect: bool, branches: seq<(string, bool)>)
  datatype Normalised = Flattened(items: seq<Flat>) | MissingMajority

  /** A dictionary of conditions in insertion order. */
  type Layout = seq<(string, seq<Rec>)>

  ghost predicate DistinctNames(layout: Layout) {
    forall i, j | 0 <= i < j < |layout| :: layout[i].0 != layout[j].0
  }

  /** Records by id; a later record replaces an earlier one, a record without id is skipped. */
  function IndexUpTo(recs: seq<Rec>, n: nat): map<string, Rec>
    requires n <= |recs|
  {
    if n == 0 then map[]
    else match recs[n - 1].itemId
      case None => IndexUpTo(recs, n - 1)
      case Some(id) => IndexUpTo(recs, n - 1)[id := recs[n - 1]]
  }

  function Index(recs: seq<Rec>): map<string, Rec> { IndexUpTo(recs, |recs|) }

  function Names(layout: Layout): seq<string> {
    seq(|layout|, i requires 0 <= i < |layout| => layout[i].0)
  }

  predicate HasMajority(layout: Layout) { exists i :: 0 <= i < |layout| && layout[i].0 == MAJORITY }

  function RecordsOf(layout: Layout, name: string): seq<Rec> {
    if |layout| == 0 then []
    else if layout[0].0 == name then layout[0].1
    else RecordsOf(layout[1..], name)
  }

  /** The alternative branches of an item: every other condition that has a record of it. */
  function Branches(layout: Layout, n: nat, id: string): seq<(string, bool)>
    requires n <= |layout|
  {
    if n == 0 then []
    else
      var (name, recs) := layout[n - 1];
      Branches(layout, n - 1, id)
      + if name != MAJORITY && id in Index(recs) then [(name, Index(recs)[id].IsCorrect())] else []
  }

  function FlatOf(layout: Layout, id: string, majorityCorrect: bool): Flat {
    Flat(id, majorityCorrect, Branches(layout, |layout|, id))
  }

  function FlattenUpTo(layout: Layout, recs: seq<Rec>, n: nat): seq<Flat>
    requires n <= |recs|
  {
    if n == 0 then []
    else
      FlattenUpTo(layout, recs, n - 1)
      + match recs[n - 1].itemId
        case None => []
        case Some(id) => [FlatOf(layout, id, recs[n - 1].IsCorrect())]
  }

  function Normalise(layout: Layout): Normalised {
    if !HasMajority(layout) then MissingMajority
    else
      var recs := RecordsOf(layout, MAJORITY);
      Flattened(FlattenUpTo(layout, recs, |recs|))
  }

  /** Majority not right, and some branch right. */
  function LabelGainable(item: Flat): bool {
    !item.majorityCorrect && exists b | b in item.branches :: b.1
  }

  // -------------------------------------------------------------- the loops

  /** The inner loop that fills one index dictionary. */
  method BuildIndex(recs: seq<Rec>) returns (index: map<string, Rec>)
    ensures index == Index(recs)
  {
    index := map[];
    for i := 0 to |recs|
      invariant index == IndexUpTo(recs, i)
    {
      if recs[i].itemId.Some? {
        index := index[recs[i].itemId.value := recs[i]];
      }
    }
  }

  /** The source's normaliser: index every condition, then flatten the majority's records. */
  method NormaliseLayout(layout: Layout) returns (r: Normalised)
    ensures r == Normalise(layout)
  {
    if !exists i :: 0 <= i < |layout| && layout[i].0 == MAJORITY {
      return MissingMajority;
    }
    var indexed: seq<map<string, Rec>> := [];
    for i := 0 to |layout|
      invariant |indexed| == i && forall j | 0 <= j < i :: indexed[j] == Index(layout[j].1)
    {
      var index := BuildIndex(layout[i].1);
      indexed := indexed + [index];
    }
    var recs := RecordsOf(layout, MAJORITY);
    var flat: seq<Flat> := [];
    for i := 0 to |recs|
      invariant flat == FlattenUpTo(layout, recs, i)
    {
      if recs[i].itemId.Some? {
        var id := recs[i].itemId.value;
        var branches: seq<(string, bool)> := [];
        for j := 0 to |layout|
          invariant branches == Branches(layout, j, id)
        {
          if layout[j].0 != MAJORITY && id in indexed[j] {
            branches := branches + [(layout[j].0, indexed[j][id].IsCorrect())];
          }
        }
        flat := flat + [Flat(id, recs[i].IsCorrect(), branches)];
      }
    }
    return Flattened(flat);
  }

  // ----------------------------------------------------------- the agreement

  function Correctness(index: map<string, Rec>): map<string, bool> { map id | id in index :: index[id].IsCorrect() }

  /** The table that the routing bound builds from the same layout. */
  function TableOf(layout: Layout): Table {
    if |layout| == 0 then map[]
    else TableOf(layout[..|layout| - 1])[layout[|layout| - 1].0 := Correctness(Index(layout[|layout| - 1].1))]
  }

  lemma {:induction false} TableAt(layout: Layout, i: nat)
    requires DistinctNames(layout) && i < |layout|
    ensures layout[i].0 in TableOf(layout)
    ensures TableOf(layout)[layout[i].0] == Correctness(Index(layout[i].1))
  {
    if i < |layout| - 1 {
      TableAt(layout[..|layout| - 1], i);
    }
  }

  lemma RightAt(layout: Layout, i: nat, id: string)
    requires DistinctNames(layout) && i < |layout|
    ensures Right(TableOf(layout), layout[i].0, id) <==> HasRight(layout, i, id)
  {
    hide Index;
    TableAt(layout, i);
  }

  /** Condition i has a record of the item and that record is right. */
  ghost predicate HasRight(layout: Layout, i: nat, id: string)
    requires i < |layout|
  {
    id in Index(layout[i].1) && Index(layout[i].1)[id].IsCorrect()
  }

  /** Some condition other than the majority gets the item right. */
  ghost predicate OtherRight(layout: Layout, n: nat, id: string)
    requires n <= |layout|
  {
    exists i :: 0 <= i < n && layout[i].0 != MAJORITY && HasRight(layout, i, id)
  }

  lemma {:induction false} BranchesExact(layout: Layout, n: nat, id: string)
    requires n <= |layout|
    ensures (exists b :: b in Branches(layout, n, id) && b.1) <==> OtherRight(layout, n, id)
  {
    hide Index;
    if n > 0 {
      var front := Branches(layout, n - 1, id);
      var (name, recs) := layout[n - 1];
      BranchesExact(layout, n - 1, id);
      assert OtherRight(layout, n, id)
        <==> OtherRight(layout, n - 1, id) || (name != MAJORITY && HasRight(layout, n - 1, id)) by {
        if OtherRight(layout, n - 1, id) {
          var i :| 0 <= i < n - 1 && layout[i].0 != MAJORITY && HasRight(layout, i, id);
          assert OtherRight(layout, n, id);
        }
      }
      if name != MAJORITY && id in Index(recs) {
        var last := (name, Index(recs)[id].IsCorrect());
        assert Branches(layout, n, id) == front + [last];
        assert forall b :: b in front + [last] <==> b in front || b == last;
      } else {
        assert Branches(layout, n, id) == front + [];
      }
    }
  }

  /**
   When a flattened record's label is the routing bound's: exactly when the
   record carries the majority's indexed answer, or nothing else is right anyway.
   */
  lemma LabelExact(layout: Layout, id: string, recordCorrect: bool)
    requires DistinctNames(layout) && HasMajority(layout)
    ensures LabelGainable(FlatOf(layout, id, recordCorrect)) == IsGainable(TableOf(layout), Names(layout))(id)
            <==> recordCorrect == Right(TableOf(layout), MAJORITY, id) || !OtherRight(layout, |layout|, id)
  {
    hide Index, Branches, TableOf;
    BranchesExact(layout, |layout|, id);
    SomeRightExact(layout, id);
  }

  lemma SomeRightExact(layout: Layout, id: string)
    requires DistinctNames(layout) && HasMajority(layout)
    ensures SomeRight(TableOf(layout), Names(layout), id)
            <==> Right(TableOf(layout), MAJORITY, id) || OtherRight(layout, |layout|, id)
  {
    hide Index, TableOf, Right, HasRight;
    var table := TableOf(layout);
    forall i | 0 <= i < |layout| ensures Right(table, layout[i].0, id) <==> HasRight(layout, i, id) {
      RightAt(layout, i, id);
    }
    var m :| 0 <= m < |layout| && layout[m].0 == MAJORITY;
    if SomeRight(table, Names(layout), id) {
      var c :| c in Names(layout) && Right(table, c, id);
      var i :| 0 <= i < |layout| && Names(layout)[i] == c;
      assert c == MAJORITY || OtherRight(layout, |layout|, id);
    }
    if OtherRight(layout, |layout|, id) {
      var i :| 0 <= i < |layout| && layout[i].0 != MAJORITY && HasRight(layout, i, id);
      assert Names(layout)[i] in Names(layout) && Right(table, Names(layout)[i], id);
    }
    assert Names(layout)[m] in Names(layout);
  }

  lemma {:induction false} MajorityRecords(layout: Layout, m: nat)
    requires DistinctNames(layout) && m < |layout| && layout[m].0 == MAJORITY
    ensures RecordsOf(layout, MAJORITY) == layout[m].1
  {
    if m > 0 {
      assert layout[0].0 != layout[m].0;
      MajorityRecords(layout[1..], m - 1);
    }
  }

  /** Record i is the last of the first n that has the id. */
  ghost predicate LastWith(recs: seq<Rec>, n: nat, i: nat, id: string) {
    i < n <= |recs| && recs[i].itemId == Some(id) && forall j | i < j < n :: recs[j].itemId != Some(id)
  }

  /** An id is indexed exactly when some record has it, and then with the last of those records. */
  lemma {:induction false} IndexExact(recs: seq<Rec>, n: nat, id: string)
    requires n <= |recs|
    ensures id !in IndexUpTo(recs, n) <==> forall i | 0 <= i < n :: recs[i].itemId != Some(id)
    ensures id in IndexUpTo(recs, n) ==> exists i: nat :: LastWith(recs, n, i, id) && IndexUpTo(recs, n)[id] == recs[i]
  {
    if n > 0 {
      IndexExact(recs, n - 1, id);
      if recs[n - 1].itemId == Some(id) {
        assert LastWith(recs, n, n - 1, id) && IndexUpTo(recs, n)[id] == recs[n - 1];
      } else if id in IndexUpTo(recs, n - 1) {
        var i: nat :| LastWith(recs, n - 1, i, id) && IndexUpTo(recs, n - 1)[id] == recs[i];
        assert LastWith(recs, n, i, id) && IndexUpTo(recs, n)[id] == recs[i];
      }
    }
  }

  /** The condition at i is another one than the majority and has a record of the item. */
  ghost predicate HasBranch(layout: Layout, i: nat, id: string)
    requires i < |layout|
  {
    layout[i].0 != MAJORITY && id in Index(layout[i].1)
  }

  function BranchAt(layout: Layout, i: nat, id: string): (string, bool)
    requires i < |layout| && id in Index(layout[i].1)
  {
    (layout[i].0, Index(layout[i].1)[id].correct == Some(true))
  }

  /** The branches bs are those at the increasing positions `at`, which are all the positions below n that have one. */
  ghost predicate Lists(at: seq<nat>, bs: seq<(string, bool)>, layout: Layout, n: nat, id: string)
    requires n <= |layout|
  {
    && |at| == |bs|
    && (forall p | 0 <= p < |at| ::
          at[p] < n && HasBranch(layout, at[p], id) && bs[p] == BranchAt(layout, at[p], id))
    && (forall p, q | 0 <= p < q < |at| :: at[p] < at[q])
    && (forall i: nat | i < n && HasBranch(layout, i, id) :: i in at)
  }

  lemma BranchesStep(layout: Layout, n: nat, id: string)
    requires n < |layout|
    ensures HasBranch(layout, n, id) ==>
              Branches(layout, n + 1, id) == Branches(layout, n, id) + [BranchAt(layout, n, id)]
    ensures !HasBranch(layout, n, id) ==> Branches(layout, n + 1, id) == Branches(layout, n, id)
  {
    hide Index;
  }

  lemma NothingListed(layout: Layout, id: string)
    ensures Lists([], Branches(layout, 0, id), layout, 0, id)
  {}

  /**
   The branches are the other conditions with a record of the item, each once and
   in their order, and each with its last record's answer; no answer is a wrong one.
   */
  lemma {:induction false} BranchesListed(layout: Layout, n: nat, id: string) returns (at: seq<nat>)
    requires n <= |layout|
    ensures Lists(at, Branches(layout, n, id), layout, n, id)
  {
    hide Index, Branches, Lists, HasBranch;
    if n == 0 {
      at := [];
      NothingListed(layout, id);
    } else {
      at := BranchesListed(layout, n - 1, id);
      BranchesStep(layout, n - 1, id);
      if HasBranch(layout, n - 1, id) {
        ListsMore(at, Branches(layout, n - 1, id), layout, n - 1, id);
        at := at + [n - 1];
      } else {
        ListsSame(at, Branches(layout, n - 1, id), layout, n - 1, id);
      }
    }
  }

  lemma ListsMore(at: seq<nat>, bs: seq<(string, bool)>, layout: Layout, n: nat, id: string)
    requires n < |layout| && Lists(at, bs, layout, n, id) && HasBranch(layout, n, id)
    ensures Lists(at + [n], bs + [BranchAt(layout, n, id)], layout, n + 1, id)
  {
    hide Index, BranchAt;
    var longer := at + [n];
    assert longer[|at|] == n;
    forall i: nat | i < n + 1 && HasBranch(layout, i, id) ensures i in longer {
      assert i < n ==> i in at;
    }
  }

  lemma ListsSame(at: seq<nat>, bs: seq<(string, bool)>, layout: Layout, n: nat, id: string)
    requires n < |layout| && Lists(at, bs, layout, n, id) && !HasBranch(layout, n, id)
    ensures Lists(at, bs, layout, n + 1, id)
  {
    hide Index, BranchAt;
  }

  /** There is nothing to flatten exactly when no condition is the majority. */
  lemma MissingExactly(layout: Layout)
    ensures Normalise(layout).MissingMajority? <==> forall i | 0 <= i < |layout| :: layout[i].0 != "B_majority"
  {
    hide FlattenUpTo;
  }

  // ---------------------------------------------------- records and their items

  /** The records that carry an id, in order: the normaliser skips the others. */
  function Identified(recs: seq<Rec>, n: nat): (r: seq<Rec>)
    requires n <= |recs|
    ensures forall rec | rec in r :: rec.itemId.Some? && rec in recs
  {
    if n == 0 then []
    else if recs[n - 1].itemId.Some? then Identified(recs, n - 1) + [recs[n - 1]]
    else Identified(recs, n - 1)
  }

  function MajorityOf(layout: Layout): seq<Rec> {
    var recs := RecordsOf(layout, MAJORITY);
    Identified(recs, |recs|)
  }

  /** One item for each record with an id, carrying that record's own answer. */
  lemma {:induction false} FlattenAll(layout: Layout, recs: seq<Rec>, n: nat)
    requires n <= |recs|
    ensures |FlattenUpTo(layout, recs, n)| == |Identified(recs, n)|
    ensures forall i | 0 <= i < |Identified(recs, n)| ::
              var rec := Identified(recs, n)[i];
              FlattenUpTo(layout, recs, n)[i] == FlatOf(layout, rec.itemId.value, rec.IsCorrect())
  {
    hide FlatOf;
    if n > 0 {
      FlattenAll(layout, recs, n - 1);
    }
  }

  lemma {:induction false} IndexSkips(recs: seq<Rec>, n: nat)
    requires n <= |recs|
    ensures IndexUpTo(recs, n) == Index(Identified(recs, n))
  {
    if n > 0 {
      IndexSkips(recs, n - 1);
      var front := Identified(recs, n - 1);
      if recs[n - 1].itemId.Some? {
        IndexSnoc(front, recs[n - 1]);
      }
    }
  }

  lemma IndexSnoc(front: seq<Rec>, rec: Rec)
    requires rec.itemId.Some?
    ensures Index(front + [rec]) == Index(front)[rec.itemId.value := rec]
  {
    IndexPrefix(front + [rec], front, |front|);
  }

  lemma {:induction false} IndexPrefix(recs: seq<Rec>, front: seq<Rec>, n: nat)
    requires n <= |front| <= |recs| && recs[..|front|] == front
    ensures IndexUpTo(recs, n) == IndexUpTo(front, n)
  {
    if n > 0 {
      assert recs[n - 1] == recs[..|front|][n - 1];
      IndexPrefix(recs, front, n - 1);
    }
  }

  /** The index has exactly the ids of the records, and answers with one of them. */
  lemma {:induction false} IndexedIds(recs: seq<Rec>, n: nat)
    requires n <= |recs| && forall rec | rec in recs :: rec.itemId.Some?
    ensures forall id :: id in IndexUpTo(recs, n) <==> exists i | 0 <= i < n :: recs[i].itemId.value == id
  {
    if n > 0 {
      IndexedIds(recs, n - 1);
      assert recs[n - 1] in recs;
    }
  }

  lemma MajorityIndexed(layout: Layout, id: string)
    requires DistinctNames(layout) && HasMajority(layout)
    ensures Right(TableOf(layout), MAJORITY, id)
            <==> id in Index(MajorityOf(layout)) && Index(MajorityOf(layout))[id].IsCorrect()
  {
    hide TableOf, Right, Index;
    var m :| 0 <= m < |layout| && layout[m].0 == MAJORITY;
    MajorityRecords(layout, m);
    RightAt(layout, m, id);
    IndexWhole(layout[m].1);
  }

  lemma IndexWhole(recs: seq<Rec>)
    ensures Index(recs) == Index(Identified(recs, |recs|))
  {
    IndexSkips(recs, |recs|);
  }

  /**
   Item by item, for any ids: the label is the routing bound's exactly when the
   item's own record answers as the last record with its id does, or when no
   other condition is right.
   */
  lemma ItemLabelExact(layout: Layout, k: nat)
    requires DistinctNames(layout) && HasMajority(layout) && k < |MajorityOf(layout)|
    ensures Normalise(layout).Flattened? && |Normalise(layout).items| == |MajorityOf(layout)|
    ensures var rec, item := MajorityOf(layout)[k], Normalise(layout).items[k];
            var id := rec.itemId.value;
            && item.itemId == id && item.majorityCorrect == rec.IsCorrect() && id in Index(MajorityOf(layout))
            && (LabelGainable(item) == IsGainable(TableOf(layout), Names(layout))(id) <==>
                  || rec.IsCorrect() == Index(MajorityOf(layout))[id].IsCorrect()
                  || !OtherRight(layout, |layout|, id))
  {
    var recs := RecordsOf(layout, MAJORITY);
    FlattenAll(layout, recs, |recs|);
    var rec := MajorityOf(layout)[k];
    IndexedIds(MajorityOf(layout), |MajorityOf(layout)|);
    hide TableOf, Branches, IsGainable, LabelGainable, OtherRight, Right, IndexUpTo, FlattenUpTo, Identified;
    assert rec in MajorityOf(layout);
    LabelExact(layout, rec.itemId.value, rec.IsCorrect());
    MajorityIndexed(layout, rec.itemId.value);
  }

  /** A majority that answers the same id twice, first right and then wrong, and another condition that is right. */
  function TwiceAnswered(id: string, other: string): Layout {
    [(MAJORITY, [Rec(Some(id), Some(true)), Rec(Some(id), Some(false))]), (other, [Rec(Some(id), Some(true))])]
  }

  /** The first of the two items is gainable for the routing bound and not for the label. */
  lemma RepeatedIdsDisagree(id: string, other: string)
    requires other != MAJORITY
    ensures var layout := TwiceAnswered(id, other);
            && Normalise(layout).Flattened? && |Normalise(layout).items| == 2
            && Normalise(layout).items[0].itemId == id && !LabelGainable(Normalise(layout).items[0])
            && IsGainable(TableOf(layout), Names(layout))(id)
  {
    var layout := TwiceAnswered(id, other);
    var recs, rest := layout[0].1, layout[1].1;
    MajorityRecords(layout, 0);
    assert Identified(recs, 0) == [] && Identified(recs, 1) == recs[..1] && Identified(recs, 2) == recs;
    assert MajorityOf(layout) == recs;
    assert IndexUpTo(recs, 1) == map[id := recs[0]] && IndexUpTo(recs, 2) == map[id := recs[1]];
    assert IndexUpTo(rest, 1) == map[id := rest[0]];
    assert HasRight(layout, 1, id) && OtherRight(layout, 2, id);
    hide TableOf, Normalise, Branches, IsGainable, OtherRight, Right, IndexUpTo, Identified, MajorityOf;
    ItemLabelExact(layout, 0);
    assert !LabelGainable(Normalise(layout).items[0]);
  }

  // --------------------------------------------------------------- distinct ids

  ghost predicate DistinctIds(recs: seq<Rec>) {
    && (forall rec | rec in recs :: rec.itemId.Some?)
    && (forall i, j | 0 <= i < j < |recs| :: recs[i].itemId != recs[j].itemId)
  }

  lemma {:induction false} IndexHolds(recs: seq<Rec>, n: nat, i: nat)
    requires DistinctIds(recs) && i < n <= |recs|
    ensures recs[i].itemId.value in IndexUpTo(recs, n) && IndexUpTo(recs, n)[recs[i].itemId.value] == recs[i]
    decreases n
  {
    assert recs[i] in recs && recs[n - 1] in recs;
    if i < n - 1 {
      IndexHolds(recs, n - 1, i);
      assert recs[i].itemId != recs[n - 1].itemId;
    }
  }

  function ItemIds(items: seq<Flat>): seq<string> {
    seq(|items|, i requires 0 <= i < |items| => items[i].itemId)
  }

  function Label(): Flat -> bool { (item: Flat) => LabelGainable(item) }

  /**
   When no two majority records share an id, the normaliser's labels mark exactly
   the items that the routing bound calls gainable, and there are as many of them.
   */
  lemma LabelsAgree(layout: Layout)
    requires DistinctNames(layout) && HasMajority(layout) && DistinctIds(MajorityOf(layout))
    ensures Normalise(layout).Flattened?
    ensures var items, table, names := Normalise(layout).items, TableOf(layout), Names(layout);
            && |items| == |MajorityOf(layout)|
            && (forall i | 0 <= i < |items| :: LabelGainable(items[i]) == IsGainable(table, names)(items[i].itemId))
            && CountOf(items, Label()) == GainableCount(table, names, ItemIds(items))
  {
    hide CountOf, TableOf, FlatOf, IsGainable, LabelGainable, Right, OtherRight, MajorityOf, FlattenUpTo, IndexUpTo;
    var recs, items := MajorityOf(layout), Normalise(layout).items;
    ItemsOf(layout);
    forall i | 0 <= i < |items|
      ensures LabelGainable(items[i]) == IsGainable(TableOf(layout), Names(layout))(items[i].itemId)
    {
      ItemLabelExact(layout, i);
      IndexHolds(recs, |recs|, i);
    }
    CountImage(items, ItemIds(items), Label(), IsGainable(TableOf(layout), Names(layout)));
  }

  lemma ItemsOf(layout: Layout)
    requires HasMajority(layout)
    ensures Normalise(layout).Flattened? && |Normalise(layout).items| == |MajorityOf(layout)|
    ensures forall i | 0 <= i < |MajorityOf(layout)| ::
              MajorityOf(layout)[i].itemId.Some?
              && Normalise(layout).items[i].itemId == MajorityOf(layout)[i].itemId.value
  {
    var recs := RecordsOf(layout, MAJORITY);
    FlattenAll(layout, recs, |recs|);
  }

  /** The ids of a dictionary built from the records, in the order of their first appearance. */
  function Keys(recs: seq<Rec>, n: nat): (ks: seq<string>)
    requires n <= |recs|
    ensures Distinct(ks) && forall k :: k in ks <==> k in IndexUpTo(recs, n)
  {
    if n == 0 then []
    else match recs[n - 1].itemId
      case None => Keys(recs, n - 1)
      case Some(id) => if id in Keys(recs, n - 1) then Keys(recs, n - 1) else Keys(recs, n - 1) + [id]
  }

  /** The routing bound lists the ids of the first condition. */
  function BoundIds(layout: Layout): seq<string>
    requires |layout| > 0
  {
    Keys(layout[0].1, |layout[0].1|)
  }

  /**
   When the first condition has the majority's ids, and those are distinct, the
   normaliser labels as many items gainable as the routing bound counts.
   */
  lemma LabelsMatchBound(layout: Layout)
    requires DistinctNames(layout) && HasMajority(layout) && DistinctIds(MajorityOf(layout))
    requires Index(layout[0].1).Keys == Index(MajorityOf(layout)).Keys
    ensures Normalise(layout).Flattened?
    ensures CountOf(Normalise(layout).items, Label())
            == GainableCount(TableOf(layout), Names(layout), BoundIds(layout))
  {
    var items, recs, ids := Normalise(layout).items, MajorityOf(layout), BoundIds(layout);
    LabelsAgree(layout);
    ItemsOf(layout);
    assert forall id :: id in ids <==> id in Index(recs) by {
      assert forall id :: id in ids <==> id in Index(layout[0].1).Keys;
    }
    hide CountOf, TableOf, IsGainable, LabelGainable, MajorityOf, Normalise, Names, IndexUpTo, Keys, BoundIds;
    OwnIds(recs, ItemIds(items));
    SameMembersSameCount(ItemIds(items), ids, IsGainable(TableOf(layout), Names(layout)));
  }

  lemma OwnIds(recs: seq<Rec>, own: seq<string>)
    requires DistinctIds(recs) && |own| == |recs|
    requires forall i | 0 <= i < |recs| :: recs[i].itemId.Some? && own[i] == recs[i].itemId.value
    ensures Distinct(own) && forall id :: id in own <==> id in Index(recs)
  {
    IndexedIds(recs, |recs|);
    hide IndexUpTo;
    forall id ensures id in own <==> id in Index(recs) {
      if id in own {
        var i :| 0 <= i < |own| && own[i] == id;
        assert recs[i].itemId.value == id;
      }
      if id in Index(recs) {
        var i :| 0 <= i < |recs| && recs[i].itemId.value == id;
        assert own[i] == id;
      }
    }
  }
}
