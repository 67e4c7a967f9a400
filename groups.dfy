/** Records, the table accessor, the log, and the order-free description of
    what a duplicate search computes. */
module Groups {
  /** One table row: attribute name to (string) value. */
  datatype Item = Item(attributes: map<string, string>)

  /** The storage behind the finder. `rows` is what a scan of the table yields
      (one entry per row); `query(column, v)` is what the index lookup for
      value `v` yields, in the accessor's own order. The query is arbitrary:
      it need not agree with `rows` (see `Consistent`). */
  datatype Accessor = Accessor(rows: seq<Item>, query: (string, string) -> seq<Item>)

  /** The lines written to the log by a search. */
  datatype LogEntry = Started | Record(item: Item) | Finished | Summary(duplicatedItems: nat, total: nat)

  /** `getString`: the string value of one attribute. */
  function ValueOf(item: Item, column: string): (r: string)
    requires column in item.attributes
    ensures (column, r) in item.attributes.Items
  {
    item.attributes[column]
  }

  predicate CarriesAttribute(rows: seq<Item>, column: string) {
    forall i :: 0 <= i < |rows| ==> column in rows[i].attributes
  }

  predicate Distinct(s: seq<string>) {
    forall i, j :: 0 <= i < j < |s| ==> s[i] != s[j]
  }

  // ---------------------------------------------------------------------------
  // Step 1: the distinct index values

  /** The set of index values found in `rows`. */
  function IndexValues(rows: seq<Item>, column: string): set<string>
    requires CarriesAttribute(rows, column)
  {
    if rows == [] then {}
    else IndexValues(rows[..|rows| - 1], column) + {ValueOf(rows[|rows| - 1], column)}
  }

  /** Every scanned value is in the set, and nothing else is. */
  lemma {:induction false} IndexValuesExactly(rows: seq<Item>, column: string)
    requires CarriesAttribute(rows, column)
    ensures forall i :: 0 <= i < |rows| ==> ValueOf(rows[i], column) in IndexValues(rows, column)
    ensures forall v :: v in IndexValues(rows, column) ==>
      exists i :: 0 <= i < |rows| && ValueOf(rows[i], column) == v
  {
    if rows != [] {
      var prefix := rows[..|rows| - 1];
      IndexValuesExactly(prefix, column);
      forall v | v in IndexValues(rows, column)
        ensures exists i :: 0 <= i < |rows| && ValueOf(rows[i], column) == v
      {
        if v in IndexValues(prefix, column) {
          var i :| 0 <= i < |prefix| && ValueOf(prefix[i], column) == v;
          assert rows[i] == prefix[i];
        } else {
          assert ValueOf(rows[|rows| - 1], column) == v;
        }
      }
    }
  }

  /** The set is never larger than the scan. */
  lemma {:induction false} IndexValuesBounded(rows: seq<Item>, column: string)
    requires CarriesAttribute(rows, column)
    ensures |IndexValues(rows, column)| <= |rows|
  {
    if rows != [] {
      IndexValuesBounded(rows[..|rows| - 1], column);
    }
  }

  /** Two rows with the same value collapse to one entry, so the set is
      strictly smaller than the scan. */
  lemma {:induction false} RepeatedValueCollapses(rows: seq<Item>, column: string, i: nat, j: nat)
    requires CarriesAttribute(rows, column)
    requires i < j < |rows| && ValueOf(rows[i], column) == ValueOf(rows[j], column)
    ensures |IndexValues(rows, column)| < |rows|
  {
    var prefix := rows[..|rows| - 1];
    if j == |rows| - 1 {
      IndexValuesExactly(prefix, column);
      assert prefix[i] == rows[i];
      assert IndexValues(rows, column) == IndexValues(prefix, column);
      IndexValuesBounded(prefix, column);
    } else {
      assert prefix[i] == rows[i] && prefix[j] == rows[j];
      RepeatedValueCollapses(prefix, column, i, j);
    }
  }

  // ---------------------------------------------------------------------------
  // Step 2: one group

  /** A group counts as duplicated when it has at least two items. */
  predicate IsDuplicateGroup(group: seq<Item>) {
    |group| >= 2
  }

  /** What one group adds to `duplicatedItems`. */
  function GroupDuplicated(group: seq<Item>): nat {
    if IsDuplicateGroup(group) then 1 else 0
  }

  /** What one group adds to `total`. */
  function GroupTotal(group: seq<Item>): nat {
    if IsDuplicateGroup(group) then |group| else 0
  }

  /** One log record per item, in order. */
  function RecordAll(items: seq<Item>): seq<LogEntry> {
    if items == [] then []
    else RecordAll(items[..|items| - 1]) + [Record(items[|items| - 1])]
  }

  /** What one group adds to the log. */
  function GroupLog(group: seq<Item>): seq<LogEntry> {
    if IsDuplicateGroup(group) then RecordAll(group) else []
  }

  /** The records are exactly the items, each once, in iterator order. */
  lemma {:induction false} RecordAllExactly(items: seq<Item>)
    ensures |RecordAll(items)| == |items|
    ensures forall k :: 0 <= k < |items| ==> RecordAll(items)[k] == Record(items[k])
  {
    if items != [] {
      RecordAllExactly(items[..|items| - 1]);
    }
  }

  // ---------------------------------------------------------------------------
  // Step 2 over all values: in a given order, and independently of order

  /** `duplicatedItems` accumulated by visiting the values in `order`. */
  function OrderDuplicated(order: seq<string>, a: Accessor, column: string): nat {
    if order == [] then 0
    else OrderDuplicated(order[..|order| - 1], a, column) + GroupDuplicated(a.query(column, order[|order| - 1]))
  }

  /** `total` accumulated by visiting the values in `order`. */
  function OrderTotal(order: seq<string>, a: Accessor, column: string): nat {
    if order == [] then 0
    else OrderTotal(order[..|order| - 1], a, column) + GroupTotal(a.query(column, order[|order| - 1]))
  }

  /** The log records written by visiting the values in `order`. */
  function OrderLog(order: seq<string>, a: Accessor, column: string): seq<LogEntry> {
    if order == [] then []
    else OrderLog(order[..|order| - 1], a, column) + GroupLog(a.query(column, order[|order| - 1]))
  }

  /** Visiting one more value adds that value's group, and keeps the order
      free of repetitions when the value is new. */
  lemma VisitOneMore(order: seq<string>, v: string, a: Accessor, column: string)
    ensures OrderDuplicated(order + [v], a, column) == OrderDuplicated(order, a, column) + GroupDuplicated(a.query(column, v))
    ensures OrderTotal(order + [v], a, column) == OrderTotal(order, a, column) + GroupTotal(a.query(column, v))
    ensures OrderLog(order + [v], a, column) == OrderLog(order, a, column) + GroupLog(a.query(column, v))
    ensures Distinct(order) && v !in order ==> Distinct(order + [v])
  {
  }

  /** Every item counted in `total` is logged exactly once: the log of a
      visit holds one record per counted item and nothing else. */
  lemma {:induction false} OrderLogRecordsTotal(order: seq<string>, a: Accessor, column: string)
    ensures |OrderLog(order, a, column)| == OrderTotal(order, a, column)
    ensures forall k :: 0 <= k < |OrderLog(order, a, column)| ==> OrderLog(order, a, column)[k].Record?
  {
    if order != [] {
      var group := a.query(column, order[|order| - 1]);
      OrderLogRecordsTotal(order[..|order| - 1], a, column);
      RecordAllExactly(group);
    }
  }

  /** Some value of a non-empty set, with no particular order in mind. */
  ghost function Pick(values: set<string>): (v: string)
    requires values != {}
    ensures v in values
  {
    var v :| v in values; v
  }

  /** `duplicatedItems` accumulated over a set of values, whatever the visiting order. */
  ghost function SetDuplicated(values: set<string>, a: Accessor, column: string): nat
    decreases values
  {
    if values == {} then 0
    else
      var v := Pick(values);
      SetDuplicated(values - {v}, a, column) + GroupDuplicated(a.query(column, v))
  }

  /** `total` accumulated over a set of values, whatever the visiting order. */
  ghost function SetTotal(values: set<string>, a: Accessor, column: string): nat
    decreases values
  {
    if values == {} then 0
    else
      var v := Pick(values);
      SetTotal(values - {v}, a, column) + GroupTotal(a.query(column, v))
  }

  /** Any value can be taken out of the set first. */
  lemma {:induction false} SetTallyRemove(values: set<string>, a: Accessor, column: string, v: string)
    requires v in values
    ensures SetDuplicated(values, a, column) == SetDuplicated(values - {v}, a, column) + GroupDuplicated(a.query(column, v))
    ensures SetTotal(values, a, column) == SetTotal(values - {v}, a, column) + GroupTotal(a.query(column, v))
    decreases values
  {
    var w := Pick(values);
    if w != v {
      SetTallyRemove(values - {w}, a, column, v);
      SetTallyRemove(values - {v}, a, column, w);
      assert values - {w} - {v} == values - {v} - {w};
    }
  }

  /** Visiting the values of a set in any order without repetition gives
      the order-free counts. */
  lemma {:induction false} OrderTallyIsSetTally(order: seq<string>, a: Accessor, column: string)
    requires Distinct(order)
    ensures OrderDuplicated(order, a, column) == SetDuplicated((set v | v in order), a, column)
    ensures OrderTotal(order, a, column) == SetTotal((set v | v in order), a, column)
  {
    if order != [] {
      var prefix, last := order[..|order| - 1], order[|order| - 1];
      var values, rest := (set v | v in order), (set v | v in prefix);
      assert values - {last} == rest by {
        assert order == prefix + [last];
      }
      OrderTallyIsSetTally(prefix, a, column);
      SetTallyRemove(values, a, column, last);
    }
  }

  /** The counts do not depend on the order in which the set is visited. */
  lemma OrderIndependent(order1: seq<string>, order2: seq<string>, a: Accessor, column: string)
    requires Distinct(order1) && Distinct(order2)
    requires forall v :: v in order1 <==> v in order2
    ensures OrderDuplicated(order1, a, column) == OrderDuplicated(order2, a, column)
    ensures OrderTotal(order1, a, column) == OrderTotal(order2, a, column)
  {
    OrderTallyIsSetTally(order1, a, column);
    OrderTallyIsSetTally(order2, a, column);
    assert (set v | v in order1) == (set v | v in order2);
  }

  /** The values whose group has at least two items. */
  ghost function DuplicateValues(values: set<string>, a: Accessor, column: string): set<string> {
    set v | v in values && IsDuplicateGroup(a.query(column, v))
  }

  /** `duplicatedItems` is the number of values whose group has two or more items. */
  lemma {:induction false} DuplicatedItemsCountsGroups(values: set<string>, a: Accessor, column: string)
    ensures SetDuplicated(values, a, column) == |DuplicateValues(values, a, column)|
    decreases values
  {
    if values != {} {
      var v := Pick(values);
      DuplicatedItemsCountsGroups(values - {v}, a, column);
      if IsDuplicateGroup(a.query(column, v)) {
        assert DuplicateValues(values, a, column) == DuplicateValues(values - {v}, a, column) + {v};
      } else {
        assert DuplicateValues(values, a, column) == DuplicateValues(values - {v}, a, column);
      }
    }
  }

  /** `total` counts at least two items for every duplicate group. */
  lemma {:induction false} TotalAtLeastTwiceGroups(values: set<string>, a: Accessor, column: string)
    ensures SetTotal(values, a, column) >= 2 * SetDuplicated(values, a, column)
    decreases values
  {
    if values != {} {
      var v := Pick(values);
      TotalAtLeastTwiceGroups(values - {v}, a, column);
    }
  }

  /** Groups of at most one item never change the counts. */
  lemma {:induction false} SingletonGroupsCountNothing(values: set<string>, a: Accessor, column: string)
    requires forall v :: v in values ==> |a.query(column, v)| <= 1
    ensures SetDuplicated(values, a, column) == 0 && SetTotal(values, a, column) == 0
    decreases values
  {
    if values != {} {
      var v := Pick(values);
      SingletonGroupsCountNothing(values - {v}, a, column);
    }
  }

  // ---------------------------------------------------------------------------
  // An accessor whose index lookup agrees with the scan

  /** The rows whose `column` attribute equals `v`, in table order. */
  function Matching(rows: seq<Item>, column: string, v: string): seq<Item> {
    if rows == [] then []
    else
      var last := rows[|rows| - 1];
      Matching(rows[..|rows| - 1], column, v) + (if column in last.attributes && last.attributes[column] == v then [last] else [])
  }

  /** The lookup for every value returns one item per row carrying that value.
      The items themselves may differ from the scanned rows: the scan keeps
      only the index attribute, while the lookup returns the index's own
      projection of each row. */
  ghost predicate Consistent(a: Accessor, column: string) {
    forall v :: |a.query(column, v)| == |Matching(a.rows, column, v)|
  }

  /** With pairwise different index values, each value matches at most one row. */
  lemma {:induction false} DistinctRowsMatchOnce(rows: seq<Item>, column: string, v: string)
    requires CarriesAttribute(rows, column)
    requires forall i, j :: 0 <= i < j < |rows| ==> ValueOf(rows[i], column) != ValueOf(rows[j], column)
    ensures |Matching(rows, column, v)| <= 1
  {
    if rows != [] {
      var prefix := rows[..|rows| - 1];
      DistinctRowsMatchOnce(prefix, column, v);
      if ValueOf(rows[|rows| - 1], column) == v && |Matching(prefix, column, v)| == 1 {
        var i := MatchingWitness(prefix, column, v);
        assert false;
      }
    }
  }

  /** A non-empty match is witnessed by a row carrying the value. */
  lemma {:induction false} MatchingWitness(rows: seq<Item>, column: string, v: string) returns (i: nat)
    requires CarriesAttribute(rows, column)
    requires Matching(rows, column, v) != []
    ensures i < |rows| && ValueOf(rows[i], column) == v
  {
    var prefix := rows[..|rows| - 1];
    if ValueOf(rows[|rows| - 1], column) == v {
      i := |rows| - 1;
    } else {
      i := MatchingWitness(prefix, column, v);
      assert rows[i] == prefix[i];
    }
  }

  /** A table whose rows all have different index values has no duplicates. */
  lemma DistinctRowsNoDuplicates(a: Accessor, column: string)
    requires CarriesAttribute(a.rows, column) && Consistent(a, column)
    requires forall i, j :: 0 <= i < j < |a.rows| ==> ValueOf(a.rows[i], column) != ValueOf(a.rows[j], column)
    ensures SetDuplicated(IndexValues(a.rows, column), a, column) == 0
    ensures SetTotal(IndexValues(a.rows, column), a, column) == 0
  {
    forall v | v in IndexValues(a.rows, column)
      ensures |a.query(column, v)| <= 1
    {
      DistinctRowsMatchOnce(a.rows, column, v);
    }
    SingletonGroupsCountNothing(IndexValues(a.rows, column), a, column);
  }

  /** The index values carried by two or more rows. */
  ghost function SharedValues(rows: seq<Item>, column: string): set<string>
    requires CarriesAttribute(rows, column)
  {
    set v | v in IndexValues(rows, column) && |Matching(rows, column, v)| >= 2
  }

  /** With a lookup that agrees with the scan, `duplicatedItems` is the
      number of index values carried by two or more rows. */
  lemma ConsistentDuplicatedItems(a: Accessor, column: string)
    requires CarriesAttribute(a.rows, column) && Consistent(a, column)
    ensures SetDuplicated(IndexValues(a.rows, column), a, column) == |SharedValues(a.rows, column)|
  {
    var values := IndexValues(a.rows, column);
    DuplicatedItemsCountsGroups(values, a, column);
    forall v | v in values
      ensures IsDuplicateGroup(a.query(column, v)) <==> |Matching(a.rows, column, v)| >= 2
    {
    }
    assert DuplicateValues(values, a, column) == SharedValues(a.rows, column);
  }
}
