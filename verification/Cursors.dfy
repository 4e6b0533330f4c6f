/** Result cursors: pages of rows, each with the key of its last row. */
module Cursors {
  import opened Results
  import opened Values

  datatype Batch = Batch(rows: seq<Value>, continuationKey: Option<Text>, complete: bool)

  class ResultCursor {
    const rows: seq<Value>
    const keys: seq<Text>
    var offset: nat
    var cancelled: bool
    /** Every row handed out so far, page after page. */
    ghost var delivered: seq<Value>

    ghost predicate Valid()
      reads this
    {
      && offset <= |rows|
      && (keys == [] || |keys| == |rows|)
      && delivered == rows[..offset]
    }

    /** Keys that do not pair up with the rows are dropped. */
    constructor (rows: seq<Value>, keys: seq<Text>)
      ensures Valid() && !cancelled && delivered == []
      ensures this.rows == rows && this.keys == if |keys| == |rows| then keys else []
    {
      this.rows := rows;
      this.keys := if |keys| != |rows| then [] else keys;
      offset, cancelled, delivered := 0, false, [];
    }

    /**
     The next page: as many rows as the budget allows and are left. Whatever the budgets, the pages
     delivered one after the other are the rows from the first on, and the page that says it is complete is
     the one that delivers the last row.
     */
    method Next(budget: nat) returns (r: Result<Option<Batch>>)
      requires Valid()
      modifies this`offset, this`delivered
      ensures Valid()
      ensures r.Err? ==> unchanged(this) && r.error == if cancelled then Cancelled else ResourceLimit
      ensures r.Err? <==> cancelled || budget == 0
      ensures r == Ok(None) ==> unchanged(this) && delivered == rows
      ensures r.Ok? && r.value.Some? ==>
                var batch := r.value.value;
                && 0 < |batch.rows| <= budget && (|batch.rows| < budget ==> batch.complete)
                && delivered == old(delivered) + batch.rows
                && (batch.complete <==> delivered == rows)
                && (batch.continuationKey == if keys == [] then None else Some(keys[|delivered| - 1]))
    {
      if cancelled {
        return Err(ErrorCode.Cancelled);
      }
      if budget == 0 {
        return Err(ResourceLimit);
      }
      if offset >= |rows| {
        assert rows[..offset] == rows;
        return Ok(None);
      }
      var take := if budget < |rows| - offset then budget else |rows| - offset;
      var page := rows[offset..offset + take];
      assert rows[..offset + take] == rows[..offset] + page;
      offset := offset + take;
      delivered := delivered + page;
      assert offset == |rows| ==> rows[..offset] == rows;
      var key: Option<Text> := None;
      if keys != [] && offset > 0 {
        key := Some(keys[offset - 1]);
      }
      return Ok(Some(Batch(page, key, offset >= |rows|)));
    }

    method Cancel()
      requires Valid()
      modifies this`cancelled
      ensures Valid() && cancelled
    {
      cancelled := true;
    }

    method Done() returns (r: bool)
      requires Valid()
      ensures r <==> delivered == rows
    {
      assert offset == |rows| ==> rows[..offset] == rows;
      return offset >= |rows|;
    }
  }
}
