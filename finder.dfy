/** The duplicate search: collect the distinct index values with a scan, then
    look up each value's group and count the groups of two or more items. */
module Finder {
  import opened Iterators
  import opened Statistics
  import opened Groups

  datatype Option<T> = None | Some(value: T)

  class DuplicateFinder {
    /** The table client, injected instead of built from a region name. */
    const accessor: Accessor
    const statistic: Statistic
    /** Everything written to the log so far. */
    var log: seq<LogEntry>

    constructor (accessor: Accessor)
      ensures this.accessor == accessor && fresh(statistic)
      ensures statistic.duplicatedItems == 0 && statistic.total == 0 && log == []
    {
      this.accessor := accessor;
      statistic := new Statistic();
      log := [];
    }

    /** `getAllIndexColumnValues`: one pass over the scan, collecting each
        row's index value into a set. */
    method GetAllIndexColumnValues(column: string) returns (results: set<string>)
      requires CarriesAttribute(accessor.rows, column)
      ensures results == IndexValues(accessor.rows, column)
      ensures forall i :: 0 <= i < |accessor.rows| ==> ValueOf(accessor.rows[i], column) in results
      ensures forall v :: v in results ==> exists i :: 0 <= i < |accessor.rows| && ValueOf(accessor.rows[i], column) == v
      ensures |results| <= |accessor.rows|
    {
      results := {};
      var items := new Cursor(accessor.rows);
      var more := items.HasNext();
      while more
        invariant items.Valid() && items.elements == accessor.rows
        invariant more <==> items.position < |items.elements|
        invariant results == IndexValues(accessor.rows[..items.position], column)
        decreases |items.elements| - items.position
      {
        var item := items.Next();
        assert accessor.rows[..items.position][..items.position - 1] == accessor.rows[..items.position - 1];
        results := results + {ValueOf(item, column)};
        more := items.HasNext();
      }
      assert accessor.rows[..items.position] == accessor.rows;
      IndexValuesExactly(accessor.rows, column);
      IndexValuesBounded(accessor.rows, column);
    }

    /** `logDuplicatesIfPresent`: consume one group's iterator; a group of two
        or more items counts once, adds its size to the total and logs every
        item; an empty or one-item group changes nothing. */
    method LogDuplicatesIfPresent(items: Cursor<Item>)
      requires items.Valid()
      modifies this, statistic, items
      ensures items.Valid() && items.position == |items.elements|
      ensures var group := old(items.Remaining());
        if |group| <= 1 then
          statistic.duplicatedItems == old(statistic.duplicatedItems) &&
          statistic.total == old(statistic.total) && log == old(log)
        else
          statistic.duplicatedItems == old(statistic.duplicatedItems) + 1 &&
          statistic.total == old(statistic.total) + |group| &&
          log == old(log) + RecordAll(group)
      ensures statistic.duplicatedItems == old(statistic.duplicatedItems) + GroupDuplicated(old(items.Remaining()))
      ensures statistic.total == old(statistic.total) + GroupTotal(old(items.Remaining()))
      ensures log == old(log) + GroupLog(old(items.Remaining()))
    {
      ghost var group := items.Remaining();
      ghost var start := items.position;
      var firstItem: Option<Item> := None;
      var hasFirst := items.HasNext();
      if hasFirst {
        var x := items.Next();
        firstItem := Some(x);
      }
      var more := items.HasNext();
      if more {
        statistic.IncrementDuplicatedItems();
        statistic.IncrementTotal();
        log := log + [Record(firstItem.value)];
        assert items.elements[start..items.position] == [firstItem.value];
        while more
          invariant items.Valid()
          invariant start < items.position
          invariant more <==> items.position < |items.elements|
          invariant statistic.duplicatedItems == old(statistic.duplicatedItems) + 1
          invariant statistic.total == old(statistic.total) + (items.position - start)
          invariant log == old(log) + RecordAll(items.elements[start..items.position])
          decreases |items.elements| - items.position
        {
          statistic.IncrementTotal();
          var x := items.Next();
          assert items.elements[start..items.position][..items.position - 1 - start] == items.elements[start..items.position - 1];
          log := log + [Record(x)];
          more := items.HasNext();
        }
        assert items.elements[start..items.position] == group;
      }
    }

    /** The lambda handed to `forEach`: look up the group of one value and
        pass its iterator to `LogDuplicatesIfPresent`. */
    method LogGroupOf(column: string, v: string)
      modifies this, statistic
      ensures statistic.duplicatedItems == old(statistic.duplicatedItems) + GroupDuplicated(accessor.query(column, v))
      ensures statistic.total == old(statistic.total) + GroupTotal(accessor.query(column, v))
      ensures log == old(log) + GroupLog(accessor.query(column, v))
    {
      var items := new Cursor(accessor.query(column, v));
      LogDuplicatesIfPresent(items);
    }

    /** The `forEach` over the distinct values: each value is visited once,
        in an order the set does not fix; `order` is the order taken. */
    method ForEachValue(column: string, values: set<string>) returns (ghost order: seq<string>)
      modifies this, statistic
      ensures Distinct(order) && forall v :: v in order <==> v in values
      ensures statistic.duplicatedItems == old(statistic.duplicatedItems) + OrderDuplicated(order, accessor, column)
      ensures statistic.total == old(statistic.total) + OrderTotal(order, accessor, column)
      ensures log == old(log) + OrderLog(order, accessor, column)
    {
      var remaining := values;
      order := [];
      while remaining != {}
        invariant remaining <= values
        invariant Distinct(order)
        invariant forall v :: v in order <==> v in values && v !in remaining
        invariant statistic.duplicatedItems == old(statistic.duplicatedItems) + OrderDuplicated(order, accessor, column)
        invariant statistic.total == old(statistic.total) + OrderTotal(order, accessor, column)
        invariant log == old(log) + OrderLog(order, accessor, column)
        decreases remaining
      {
        var v :| v in remaining;
        ghost var before := log;
        LogGroupOf(column, v);
        VisitOneMore(order, v, accessor, column);
        ghost var group := GroupLog(accessor.query(column, v));
        assert log == old(log) + (OrderLog(order, accessor, column) + group) by {
          assert log == before + group;
          assert before == old(log) + OrderLog(order, accessor, column);
          assert forall a: seq<LogEntry>, b: seq<LogEntry>, c: seq<LogEntry> :: a + b + c == a + (b + c);
        }
        remaining := remaining - {v};
        order := order + [v];
      }
    }

    /** `startSearchOfDuplicates`: collect the distinct index values, visit
        each once and return the statistic. The counters grow by the
        order-free tally; the log holds the start line, the records of every
        duplicate group in visiting order, and the closing summary. */
    method StartSearchOfDuplicates(column: string) returns (s: Statistic, ghost order: seq<string>)
      requires CarriesAttribute(accessor.rows, column)
      modifies this, statistic
      ensures s == statistic
      ensures Distinct(order) && forall v :: v in order <==> v in IndexValues(accessor.rows, column)
      ensures statistic.duplicatedItems == old(statistic.duplicatedItems) + SetDuplicated(IndexValues(accessor.rows, column), accessor, column)
      ensures statistic.total == old(statistic.total) + SetTotal(IndexValues(accessor.rows, column), accessor, column)
      ensures log == old(log) + [Started] + OrderLog(order, accessor, column)
                     + [Finished, Summary(statistic.duplicatedItems, statistic.total)]
    {
      log := log + [Started];
      var values := GetAllIndexColumnValues(column);
      order := ForEachValue(column, values);
      OrderTallyIsSetTally(order, accessor, column);
      assert (set v | v in order) == values;
      var duplicatedItems := statistic.GetDuplicatedItems();
      var total := statistic.GetTotal();
      log := log + [Finished, Summary(duplicatedItems, total)];
      s := statistic;
    }
  }

  /** A whole run on a fresh finder, as `main` does once its arguments are
      checked: search, then read both counters. */
  method FindDuplicates(accessor: Accessor, column: string) returns (duplicatedItems: nat, total: nat, log: seq<LogEntry>)
    requires CarriesAttribute(accessor.rows, column)
    ensures duplicatedItems == SetDuplicated(IndexValues(accessor.rows, column), accessor, column)
    ensures total == SetTotal(IndexValues(accessor.rows, column), accessor, column)
    ensures duplicatedItems == |DuplicateValues(IndexValues(accessor.rows, column), accessor, column)|
    ensures total >= 2 * duplicatedItems
    ensures |log| == total + 3 && log[0] == Started && log[|log| - 2..] == [Finished, Summary(duplicatedItems, total)]
    ensures forall k :: 1 <= k < |log| - 2 ==> log[k].Record?
    ensures accessor.rows == [] ==> duplicatedItems == 0 && total == 0 && log == [Started, Finished, Summary(0, 0)]
  {
    var finder := new DuplicateFinder(accessor);
    var s, order := finder.StartSearchOfDuplicates(column);
    duplicatedItems := s.GetDuplicatedItems();
    total := s.GetTotal();
    log := finder.log;
    DuplicatedItemsCountsGroups(IndexValues(accessor.rows, column), accessor, column);
    TotalAtLeastTwiceGroups(IndexValues(accessor.rows, column), accessor, column);
    OrderTallyIsSetTally(order, accessor, column);
    assert (set v | v in order) == IndexValues(accessor.rows, column);
    OrderLogRecordsTotal(order, accessor, column);
  }

  /** The unit test's table: two rows with the values "testItem1" and
      "testItem2"; the lookup of the first yields two items, of the second one
      (the mock hands out its two query iterators in call order; which value
      gets which does not change the counts, see `OrderIndependent`). */
  function TestAccessor(): Accessor {
    Accessor([Item(map["testColumn" := "testItem1"]), Item(map["testColumn" := "testItem2"])],
      (c: string, v: string) =>
        if v == "testItem1" then [Item(map["json" := "{test1}"]), Item(map["json" := "{test2}"])]
        else [Item(map[])])
  }

  lemma TestAccessorValues()
    ensures CarriesAttribute(TestAccessor().rows, "testColumn")
    ensures IndexValues(TestAccessor().rows, "testColumn") == {"testItem1", "testItem2"}
  {
  }

  lemma TestAccessorTally()
    ensures SetDuplicated({"testItem1", "testItem2"}, TestAccessor(), "testColumn") == 1
    ensures SetTotal({"testItem1", "testItem2"}, TestAccessor(), "testColumn") == 2
  {
    var a, column := TestAccessor(), "testColumn";
    var v1, v2 := "testItem1", "testItem2";
    assert v1 != v2 by { assert v1[8] != v2[8]; }
    var order := [v1, v2];
    OrderTallyIsSetTally(order, a, column);
    assert (set v | v in order) == {v1, v2};
    assert order[..1] == [v1] && order[..1][..0] == [];
  }

  /** `testWithDuplicates`: the run reports one duplicate group and two items. */
  method TestWithDuplicates() returns (duplicatedItems: nat, total: nat)
    ensures total == 2 && duplicatedItems == 1
  {
    TestAccessorValues();
    TestAccessorTally();
    var log;
    duplicatedItems, total, log := FindDuplicates(TestAccessor(), "testColumn");
  }

  /** A table with the index values A, A, B, B, B, C whose lookup returns
      exactly the matching rows. */
  function ExampleAccessor(): Accessor {
    var rows := [Item(map["index" := "A"]), Item(map["index" := "A"]), Item(map["index" := "B"]),
                 Item(map["index" := "B"]), Item(map["index" := "B"]), Item(map["index" := "C"])];
    Accessor(rows, (c: string, v: string) => Matching(rows, c, v))
  }

  /** Groups A and B are duplicated (2 + 3 items), the singleton C is not. */
  method ExampleRun() returns (duplicatedItems: nat, total: nat)
    ensures duplicatedItems == 2 && total == 5
  {
    ExampleValues();
    ExampleTally();
    var log;
    duplicatedItems, total, log := FindDuplicates(ExampleAccessor(), "index");
  }

  lemma ExampleValues()
    ensures CarriesAttribute(ExampleAccessor().rows, "index")
    ensures IndexValues(ExampleAccessor().rows, "index") == {"A", "B", "C"}
    ensures Consistent(ExampleAccessor(), "index")
  {
    var rows := ExampleAccessor().rows;
    assert rows[..1][..0] == [];
    assert IndexValues(rows[..1], "index") == {"A"};
    assert rows[..2][..1] == rows[..1];
    assert IndexValues(rows[..2], "index") == {"A"};
    assert rows[..3][..2] == rows[..2];
    assert IndexValues(rows[..3], "index") == {"A", "B"};
    assert rows[..4][..3] == rows[..3];
    assert rows[..5][..4] == rows[..4];
    assert rows[..6][..5] == rows[..5];
    assert rows[..6] == rows;
  }

  /** The lookups return two, three and one rows. */
  lemma ExampleGroups()
    ensures |ExampleAccessor().query("index", "A")| == 2
    ensures |ExampleAccessor().query("index", "B")| == 3
    ensures |ExampleAccessor().query("index", "C")| == 1
  {
    var rows := ExampleAccessor().rows;
    assert "A" != "B" && "A" != "C" && "B" != "C" by {
      assert "A"[0] != "B"[0] && "A"[0] != "C"[0] && "B"[0] != "C"[0];
    }
    assert rows[..1][..0] == [];
    assert rows[..2][..1] == rows[..1];
    assert rows[..3][..2] == rows[..2];
    assert rows[..4][..3] == rows[..3];
    assert rows[..5][..4] == rows[..4];
    assert rows[..6][..5] == rows[..5];
    assert rows[..6] == rows;
    assert |Matching(rows[..1], "index", "A")| == 1 && |Matching(rows[..1], "index", "B")| == 0 && |Matching(rows[..1], "index", "C")| == 0;
    assert |Matching(rows[..2], "index", "A")| == 2 && |Matching(rows[..2], "index", "B")| == 0 && |Matching(rows[..2], "index", "C")| == 0;
    assert |Matching(rows[..3], "index", "A")| == 2 && |Matching(rows[..3], "index", "B")| == 1 && |Matching(rows[..3], "index", "C")| == 0;
    assert |Matching(rows[..4], "index", "A")| == 2 && |Matching(rows[..4], "index", "B")| == 2 && |Matching(rows[..4], "index", "C")| == 0;
    assert |Matching(rows[..5], "index", "A")| == 2 && |Matching(rows[..5], "index", "B")| == 3 && |Matching(rows[..5], "index", "C")| == 0;
    assert |Matching(rows[..6], "index", "A")| == 2 && |Matching(rows[..6], "index", "B")| == 3 && |Matching(rows[..6], "index", "C")| == 1;
  }

  lemma ExampleTally()
    ensures SetDuplicated({"A", "B", "C"}, ExampleAccessor(), "index") == 2
    ensures SetTotal({"A", "B", "C"}, ExampleAccessor(), "index") == 5
  {
    var a := ExampleAccessor();
    ExampleGroups();
    assert "A" != "B" && "A" != "C" && "B" != "C" by {
      assert "A"[0] != "B"[0] && "A"[0] != "C"[0] && "B"[0] != "C"[0];
    }
    var order := ["A", "B", "C"];
    OrderTallyIsSetTally(order, a, "index");
    assert (set v | v in order) == {"A", "B", "C"};
    assert order[..2] == ["A", "B"] && ["A", "B"][..1] == ["A"] && ["A"][..0] == [];
  }
}
