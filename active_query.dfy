/** The STI-aware query (ActiveQuery.php): the framework's query object extended by
    the discriminator column, the discriminator value and a flag saying whether
    preparing the query adds the condition "table.column = value". The WHERE clause
    is the conjunction of a sequence of conditions. */
module StiQuery {
  import opened Runtime

  /** A hash-format condition [column => value]; the framework renders a Null
      value as "column IS NULL". */
  datatype Condition = Equals(column: string, value: Value)

  /** The value a row holds in a column, SQL NULL when the row lacks it. */
  function Lookup(row: map<string, Value>, column: string): Value {
    if column in row then row[column] else Null
  }

  predicate Holds(c: Condition, row: map<string, Value>) {
    Lookup(row, c.column) == c.value
  }

  /** A row satisfies a WHERE clause when it satisfies each of the ANDed conditions. */
  predicate Satisfies(filter: seq<Condition>, row: map<string, Value>)
    decreases |filter|
  {
    filter == [] || (Satisfies(filter[..|filter| - 1], row) && Holds(filter[|filter| - 1], row))
  }

  /** The recursive conjunction agrees with "every condition holds". */
  lemma {:induction false} SatisfiesEvery(filter: seq<Condition>, row: map<string, Value>)
    ensures Satisfies(filter, row) <==> forall i :: 0 <= i < |filter| ==> Holds(filter[i], row)
    decreases |filter|
  {
    if filter != [] {
      var init := filter[..|filter| - 1];
      SatisfiesEvery(init, row);
      assert forall i :: 0 <= i < |init| ==> init[i] == filter[i];
    }
  }

  /** ANDing one more condition onto a WHERE clause. */
  lemma AndWhere(filter: seq<Condition>, c: Condition, row: map<string, Value>)
    ensures Satisfies(filter + [c], row) <==> Satisfies(filter, row) && Holds(c, row)
  {
    assert (filter + [c])[..|filter|] == filter;
  }

  /** A condition already in the clause adds nothing when ANDed again: preparing a
      query twice selects the same rows as preparing it once. */
  lemma AndWhereAgain(filter: seq<Condition>, c: Condition, row: map<string, Value>)
    requires c in filter
    ensures Satisfies(filter + [c], row) <==> Satisfies(filter, row)
  {
    AndWhere(filter, c, row);
    SatisfiesEvery(filter, row);
  }

  class ActiveQuery {
    /** The PHP class of this query object (sti ActiveQuery or a subclass of it). */
    const queryClass: ClassName
    /** The record class the query loads. */
    const modelClass: ClassName
    /** modelClass::tableName(). */
    const modelTable: string

    var stiColumn: string
    var stiValue: Value
    var isStiConditionEnabled: bool
    /** The conditions ANDed into the WHERE clause so far. */
    var filter: seq<Condition>

    /** A new query: the private fields start out as PHP null, which reads as the
        empty column name, a Null value and a switched-off condition. */
    constructor (queryClass: ClassName, modelClass: ClassName, modelTable: string)
      ensures this.queryClass == queryClass && this.modelClass == modelClass
      ensures this.modelTable == modelTable
      ensures stiColumn == [] && stiValue == Null && !isStiConditionEnabled
      ensures filter == []
    {
      this.queryClass := queryClass;
      this.modelClass := modelClass;
      this.modelTable := modelTable;
      stiColumn, stiValue, isStiConditionEnabled := [], Null, false;
      filter := [];
    }

    /** The condition withSti appends, on the column qualified by the table name. */
    function StiCondition(): (c: Condition)
      reads this
      ensures c.column == modelTable + "." + stiColumn && c.value == stiValue
    {
      Equals(modelTable + "." + stiColumn, stiValue)
    }

    /** Appends the STI condition when it is enabled; returns the query itself. */
    method WithSti() returns (q: ActiveQuery)
      modifies this`filter
      ensures q == this
      ensures filter == old(filter) + (if isStiConditionEnabled then [StiCondition()] else [])
    {
      if isStiConditionEnabled {
        filter := filter + [StiCondition()];
      }
      q := this;
    }

    /** Runs withSti on this query before the framework turns it into SQL; what
        the framework's prepare then builds from it is not modelled. */
    method Prepare()
      modifies this`filter
      ensures isStiConditionEnabled ==> filter == old(filter) + [StiCondition()]
      ensures !isStiConditionEnabled ==> filter == old(filter)
      ensures forall row :: Satisfies(filter, row) <==>
                Satisfies(old(filter), row) && (isStiConditionEnabled ==> Holds(StiCondition(), row))
    {
      ghost var before := filter;
      var _ := WithSti();
      forall row ensures Satisfies(filter, row) <==>
          Satisfies(before, row) && (isStiConditionEnabled ==> Holds(StiCondition(), row)) {
        if isStiConditionEnabled {
          assert filter == before + [StiCondition()];
          AndWhere(before, StiCondition(), row);
        } else {
          assert filter == before;
        }
      }
    }

    /** Switches the STI condition off for later preparations; a condition that was
        already appended stays. Returns the query itself. */
    method WithoutSti() returns (q: ActiveQuery)
      modifies this`isStiConditionEnabled
      ensures q == this && !isStiConditionEnabled
    {
      isStiConditionEnabled := false;
      q := this;
    }

    method SetStiColumn(column: string)
      modifies this`stiColumn
      ensures stiColumn == column
    {
      stiColumn := column;
    }

    method SetStiValue(value: Value)
      modifies this`stiValue
      ensures stiValue == value
    {
      stiValue := value;
    }

    method SetIsStiConditionEnabled(isEnabled: bool)
      modifies this`isStiConditionEnabled
      ensures isStiConditionEnabled == isEnabled
    {
      isStiConditionEnabled := isEnabled;
    }
  }

  /** Preparing an enabled query twice appends the same condition twice, and the
      WHERE clause still selects exactly the rows the single condition selects. */
  method PrepareTwice(table: string, column: string, value: Value) returns (filter: seq<Condition>)
    ensures filter == [Equals(table + "." + column, value), Equals(table + "." + column, value)]
    ensures forall row :: Satisfies(filter, row) <==> Lookup(row, table + "." + column) == value
  {
    var q := new ActiveQuery("bigdropinc\\sti\\ActiveQuery", "app\\models\\Model", table);
    q.SetStiColumn(column);
    q.SetStiValue(value);
    q.SetIsStiConditionEnabled(true);
    q.Prepare();
    q.Prepare();
    filter := q.filter;
    forall row ensures Satisfies(filter, row) <==> Lookup(row, table + "." + column) == value {
      AndWhere([], filter[0], row);
      AndWhereAgain([filter[0]], filter[0], row);
      assert [filter[0]] + [filter[0]] == filter;
    }
  }

  /** withoutSti after a preparation keeps the condition already appended and
      stops a second preparation from appending another. */
  method WithoutStiAfterPrepare(table: string, column: string, value: Value) returns (filter: seq<Condition>)
    ensures filter == [Equals(table + "." + column, value)]
  {
    var q := new ActiveQuery("bigdropinc\\sti\\ActiveQuery", "app\\models\\Model", table);
    q.SetStiColumn(column);
    q.SetStiValue(value);
    q.SetIsStiConditionEnabled(true);
    q.Prepare();
    var _ := q.WithoutSti();
    q.Prepare();
    filter := q.filter;
  }
}
