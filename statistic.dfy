/** The pair of counters a duplicate search accumulates. */
module Statistics {

  class Statistic {
    var duplicatedItems: nat
    var total: nat

    constructor ()
      ensures duplicatedItems == 0 && total == 0
    {
      duplicatedItems := 0;
      total := 0;
    }

    method IncrementDuplicatedItems()
      modifies this
      ensures duplicatedItems == old(duplicatedItems) + 1
      ensures total == old(total)
    {
      duplicatedItems := duplicatedItems + 1;
    }

    method IncrementTotal()
      modifies this
      ensures total == old(total) + 1
      ensures duplicatedItems == old(duplicatedItems)
    {
      total := total + 1;
    }

    method GetDuplicatedItems() returns (r: nat)
      ensures r == duplicatedItems
    {
      r := duplicatedItems;
    }

    method GetTotal() returns (r: nat)
      ensures r == total
    {
      r := total;
    }
  }
}
