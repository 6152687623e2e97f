/**
 * The archetype table on values: its four parts (the filter, entity -> row, row -> entity,
 * type -> column), the invariant tying them together, what the table holds (one row of
 * component values per entity), and how each edit the table makes changes both.
 *
 * A column for type t is a List<t>: it can only hold values of type t, so a column is
 * modelled as the sequence of its values' contents, and the value in row i of column t
 * is Value(t, column[i]).
 */
module Tables {
  import opened Lists
  import opened Components
  import opened ComponentSets

  /** The contents of a List<T>, in row order; T is the column's key. */
  type Column = seq<int>

  /**
   * The table invariant: one column per filter type, all columns as long as the row list,
   * and the row index the inverse of the row list (so the rows are exactly
   * 0 .. |slots| - 1).
   */
  ghost predicate TableValid(filter: seq<TypeTag>, index: map<int, nat>, slots: seq<int>,
                             cols: map<TypeTag, Column>)
  {
    && NoDup(filter)
    && cols.Keys == Elements(filter)
    && ColumnsSized(cols, |slots|)
    && |index| == |slots|
    && (forall i | 0 <= i < |slots| :: slots[i] in index && index[slots[i]] == i)
    && Indexed(index, slots)
  }

  /** Every column has n rows. */
  ghost predicate ColumnsSized(cols: map<TypeTag, Column>, n: nat) {
    forall t | t in cols :: |cols[t]| == n
  }

  /** Every indexed entity sits at a row that names it. */
  ghost predicate Indexed(index: map<int, nat>, slots: seq<int>) {
    forall x | x in index :: index[x] < |slots| && slots[index[x]] == x
  }

  /** What a table holds: each entity's component values, by type. */
  ghost function TableRows(index: map<int, nat>, cols: map<TypeTag, Column>): (rows: map<int, map<TypeTag, Value>>)
    requires forall x, t | x in index && t in cols :: index[x] < |cols[t]|
    ensures rows.Keys == index.Keys
  {
    map x | x in index :: RowOf(cols, index[x])
  }

  /** Row i of a table, by type; each value carries its column's type. */
  ghost function RowOf(cols: map<TypeTag, Column>, i: nat): (row: map<TypeTag, Value>)
    requires forall t | t in cols :: i < |cols[t]|
    ensures row.Keys == cols.Keys
    ensures forall t | t in row :: row[t].ty == t
  {
    map t | t in cols :: Value(t, cols[t][i])
  }

  /** One cell of a table's contents is the value at the entity's row of the type's column. */
  lemma RowsLookup(index: map<int, nat>, slots: seq<int>, cols: map<TypeTag, Column>, x: int, t: TypeTag)
    requires ColumnsSized(cols, |slots|) && Indexed(index, slots) && x in index && t in cols
    ensures TableRows(index, cols)[x][t] == Value(t, cols[t][index[x]])
  {
  }

  // The edits the table makes to its columns.

  /** cols' is cols with one more value at the end of every column, taken from row. */
  ghost predicate RowAppended(cols: map<TypeTag, Column>, row: map<TypeTag, Value>, cols': map<TypeTag, Column>) {
    && cols'.Keys == cols.Keys
    && forall t | t in cols' :: t in row && cols'[t] == cols[t] + [row[t].payload]
  }

  /** cols' is cols with the values at rows a and b exchanged in every column. */
  ghost predicate RowsSwapped(cols: map<TypeTag, Column>, a: nat, b: nat, cols': map<TypeTag, Column>) {
    && cols'.Keys == cols.Keys
    && forall t | t in cols' ::
         a < |cols[t]| && b < |cols[t]| && cols'[t] == cols[t][a := cols[t][b]][b := cols[t][a]]
  }

  /** cols' is cols with every column cut down to its first n values. */
  ghost predicate Truncated(cols: map<TypeTag, Column>, n: nat, cols': map<TypeTag, Column>) {
    && cols'.Keys == cols.Keys
    && forall t | t in cols' :: n <= |cols[t]| && cols'[t] == cols[t][..n]
  }

  /**
   * The table (index', slots', cols') is (index, slots, cols) after removing entity x the
   * way the source does: the last row is moved into x's row, then the last row is dropped.
   */
  ghost predicate Removed(index: map<int, nat>, slots: seq<int>, cols: map<TypeTag, Column>, x: int,
                          index': map<int, nat>, slots': seq<int>, cols': map<TypeTag, Column>)
  {
    && x in index && index[x] < |slots|
    && var i, last := index[x], |slots| - 1;
       && slots' == slots[i := slots[last]][..last]
       && index' == index[slots[last] := i] - {x}
       && cols'.Keys == cols.Keys
       && forall t | t in cols' ::
            |cols[t]| == |slots| && cols'[t] == cols[t][i := cols[t][last]][..last]
  }

  /**
   * After writing SetComponent(types[k], vals[k]) for every k into row `last` of cols0,
   * each column's row `last` holds the last value written to it (or its old value, when
   * none was).
   */
  ghost predicate Injected(cols0: map<TypeTag, Column>, last: nat, types: seq<TypeTag>, vals: seq<Value>,
                           cols: map<TypeTag, Column>)
    requires |vals| <= |types|
  {
    && cols.Keys == cols0.Keys
    && forall t | t in cols ::
         last < |cols0[t]| && cols[t] == cols0[t][last := LastWrite(types, vals, t, Value(t, cols0[t][last])).payload]
  }

  // How a table's contents change under each edit.

  /** Row j after overwriting cell (t, i) with a value of type t. */
  lemma RowOfSet(cols: map<TypeTag, Column>, t: TypeTag, i: nat, v: Value, j: nat)
    requires t in cols && i < |cols[t]| && v.ty == t && forall s | s in cols :: j < |cols[s]|
    ensures RowOf(cols[t := cols[t][i := v.payload]], j) == if i == j then RowOf(cols, j)[t := v] else RowOf(cols, j)
  {
  }

  /** Row j after appending one well-typed row to every column. */
  lemma RowOfAppend(cols: map<TypeTag, Column>, row: map<TypeTag, Value>, cols': map<TypeTag, Column>, n: nat, j: nat)
    requires RowAppended(cols, row, cols') && row.Keys == cols.Keys && forall t | t in row :: row[t].ty == t
    requires ColumnsSized(cols, n) && j <= n
    ensures RowOf(cols', j) == if j == n then row else RowOf(cols, j)
  {
  }

  /** Row j after exchanging rows a and b of every column. */
  lemma RowOfSwap(cols: map<TypeTag, Column>, cols': map<TypeTag, Column>, n: nat, a: nat, b: nat, j: nat)
    requires RowsSwapped(cols, a, b, cols') && ColumnsSized(cols, n) && j < n
    ensures RowOf(cols', j) == if j == b then RowOf(cols, a) else if j == a then RowOf(cols, b) else RowOf(cols, j)
  {
  }

  /** Row j after dropping the last row of every column. */
  lemma RowOfTruncate(cols: map<TypeTag, Column>, cols': map<TypeTag, Column>, n: nat, j: nat)
    requires Truncated(cols, n, cols') && j < n
    requires forall t | t in cols :: j < |cols[t]|
    ensures RowOf(cols', j) == RowOf(cols, j)
  {
  }

  /** Overwriting one cell keeps the table valid... */
  lemma SetCellValid(filter: seq<TypeTag>, index: map<int, nat>, slots: seq<int>,
                     cols: map<TypeTag, Column>, x: int, t: TypeTag, p: int)
    requires TableValid(filter, index, slots, cols) && x in index && t in cols
    ensures TableValid(filter, index, slots, cols[t := cols[t][index[x] := p]])
  {
  }

  /** ... and changes exactly that entity's value of that type. */
  lemma SetCellRows(index: map<int, nat>, slots: seq<int>, cols: map<TypeTag, Column>,
                    x: int, t: TypeTag, v: Value)
    requires ColumnsSized(cols, |slots|) && Indexed(index, slots) && x in index && t in cols && v.ty == t
    ensures TableRows(index, cols[t := cols[t][index[x] := v.payload]])
         == TableRows(index, cols)[x := TableRows(index, cols)[x][t := v]]
  {
    forall y | y in index
      ensures TableRows(index, cols[t := cols[t][index[x] := v.payload]])[y]
           == TableRows(index, cols)[x := TableRows(index, cols)[x][t := v]][y]
    {
      SetCellRow(index, slots, cols, x, t, v, y);
    }
  }

  lemma SetCellRow(index: map<int, nat>, slots: seq<int>, cols: map<TypeTag, Column>,
                   x: int, t: TypeTag, v: Value, y: int)
    requires ColumnsSized(cols, |slots|) && Indexed(index, slots) && x in index && t in cols && v.ty == t
    requires y in index
    ensures TableRows(index, cols[t := cols[t][index[x] := v.payload]])[y]
         == TableRows(index, cols)[x := TableRows(index, cols)[x][t := v]][y]
  {
    RowOfSet(cols, t, index[x], v, index[y]);
    assert index[y] == index[x] ==> y == x by {
      assert slots[index[y]] == y && slots[index[x]] == x;
    }
  }

  /** Appending a well-typed row for a new entity keeps the table valid and adds exactly
      that entity's row. */
  lemma AppendRow(filter: seq<TypeTag>, index: map<int, nat>, slots: seq<int>, cols: map<TypeTag, Column>,
                  x: int, row: map<TypeTag, Value>, cols': map<TypeTag, Column>)
    requires TableValid(filter, index, slots, cols) && x !in index
    requires row.Keys == cols.Keys && (forall t | t in row :: row[t].ty == t) && RowAppended(cols, row, cols')
    ensures TableValid(filter, index[x := |slots|], slots + [x], cols')
    ensures TableRows(index[x := |slots|], cols') == TableRows(index, cols)[x := row]
  {
    AppendRowValid(filter, index, slots, cols, x, row, cols');
    AppendRowRows(index, slots, cols, x, row, cols');
  }

  lemma AppendRowValid(filter: seq<TypeTag>, index: map<int, nat>, slots: seq<int>, cols: map<TypeTag, Column>,
                       x: int, row: map<TypeTag, Value>, cols': map<TypeTag, Column>)
    requires TableValid(filter, index, slots, cols) && x !in index && RowAppended(cols, row, cols')
    ensures TableValid(filter, index[x := |slots|], slots + [x], cols')
  {
  }

  lemma AppendRowRows(index: map<int, nat>, slots: seq<int>, cols: map<TypeTag, Column>,
                      x: int, row: map<TypeTag, Value>, cols': map<TypeTag, Column>)
    requires ColumnsSized(cols, |slots|) && Indexed(index, slots) && x !in index
    requires row.Keys == cols.Keys && (forall t | t in row :: row[t].ty == t) && RowAppended(cols, row, cols')
    ensures TableRows(index[x := |slots|], cols') == TableRows(index, cols)[x := row]
  {
    var index' := index[x := |slots|];
    forall y | y in index' ensures TableRows(index', cols')[y] == TableRows(index, cols)[x := row][y] {
      RowOfAppend(cols, row, cols', |slots|, index'[y]);
    }
  }

  /** Exchanging two rows (entities and every column) keeps the table valid... */
  lemma SwapRowsValid(filter: seq<TypeTag>, index: map<int, nat>, slots: seq<int>,
                      cols: map<TypeTag, Column>, a: nat, b: nat, cols': map<TypeTag, Column>)
    requires TableValid(filter, index, slots, cols) && a < |slots| && b < |slots|
    requires RowsSwapped(cols, a, b, cols')
    ensures TableValid(filter, index[slots[a] := b][slots[b] := a], slots[a := slots[b]][b := slots[a]], cols')
  {
    var index' := index[slots[a] := b][slots[b] := a];
    assert index'.Keys == index.Keys;
  }

  /** ... and its contents unchanged. */
  lemma SwapRowsRows(index: map<int, nat>, slots: seq<int>, cols: map<TypeTag, Column>,
                     a: nat, b: nat, cols': map<TypeTag, Column>)
    requires ColumnsSized(cols, |slots|) && Indexed(index, slots) && a < |slots| && b < |slots|
    requires slots[a] in index && index[slots[a]] == a && slots[b] in index && index[slots[b]] == b
    requires RowsSwapped(cols, a, b, cols')
    ensures TableRows(index[slots[a] := b][slots[b] := a], cols') == TableRows(index, cols)
  {
    var index' := index[slots[a] := b][slots[b] := a];
    assert index'.Keys == index.Keys;
    forall y | y in index
      ensures TableRows(index', cols')[y] == TableRows(index, cols)[y]
    {
      SwapRowsRow(index, slots, cols, a, b, cols', y);
    }
  }

  lemma SwapRowsRow(index: map<int, nat>, slots: seq<int>, cols: map<TypeTag, Column>,
                    a: nat, b: nat, cols': map<TypeTag, Column>, y: int)
    requires ColumnsSized(cols, |slots|) && Indexed(index, slots) && a < |slots| && b < |slots|
    requires slots[a] in index && index[slots[a]] == a && slots[b] in index && index[slots[b]] == b
    requires RowsSwapped(cols, a, b, cols')
    requires y in index
    ensures TableRows(index[slots[a] := b][slots[b] := a], cols')[y] == TableRows(index, cols)[y]
  {
    var index' := index[slots[a] := b][slots[b] := a];
    assert slots[index[y]] == y;
    RowOfSwap(cols, cols', |slots|, a, b, index'[y]);
  }

  /** Dropping the last row (and its entity) keeps the table valid... */
  lemma DropLastRowValid(filter: seq<TypeTag>, index: map<int, nat>, slots: seq<int>,
                         cols: map<TypeTag, Column>, cols': map<TypeTag, Column>)
    requires TableValid(filter, index, slots, cols) && |slots| > 0
    requires Truncated(cols, |slots| - 1, cols')
    ensures TableValid(filter, index - {slots[|slots| - 1]}, slots[..|slots| - 1], cols')
  {
    var last := slots[|slots| - 1];
    var index', slots' := index - {last}, slots[..|slots| - 1];
    assert |index'| == |index| - 1;
    forall x | x in index' ensures index'[x] < |slots'| {
      assert slots[index[x]] == x;
    }
  }

  /** ... and removes exactly that entity's row. */
  lemma DropLastRowRows(index: map<int, nat>, slots: seq<int>, cols: map<TypeTag, Column>,
                        cols': map<TypeTag, Column>)
    requires ColumnsSized(cols, |slots|) && Indexed(index, slots) && |slots| > 0
    requires Truncated(cols, |slots| - 1, cols')
    ensures forall y | y in index && y != slots[|slots| - 1] :: index[y] < |slots| - 1
    ensures TableRows(index - {slots[|slots| - 1]}, cols') == TableRows(index, cols) - {slots[|slots| - 1]}
  {
    var last := slots[|slots| - 1];
    forall y | y in index && y != last ensures index[y] < |slots| - 1 {
      assert slots[index[y]] == y;
    }
    forall y | y in index - {last}
      ensures TableRows(index - {last}, cols')[y] == (TableRows(index, cols) - {last})[y]
    {
      RowOfTruncate(cols, cols', |slots| - 1, index[y]);
    }
  }

  /**
   * Removing entity x by the swap with the last row, then the cut of the last row, keeps
   * the table valid and leaves the state Removed describes.
   */
  lemma RemoveRow(filter: seq<TypeTag>, index: map<int, nat>, slots: seq<int>, cols: map<TypeTag, Column>,
                  x: int, cols1: map<TypeTag, Column>, cols2: map<TypeTag, Column>)
    requires TableValid(filter, index, slots, cols) && x in index
    requires RowsSwapped(cols, index[x], |slots| - 1, cols1) && Truncated(cols1, |slots| - 1, cols2)
    ensures var i, last := index[x], |slots| - 1;
            var index1, slots1 := index[slots[i] := last][slots[last] := i], slots[i := slots[last]][last := slots[i]];
            && TableValid(filter, index1 - {x}, slots1[..last], cols2)
            && Removed(index, slots, cols, x, index1 - {x}, slots1[..last], cols2)
  {
    var i, last := index[x], |slots| - 1;
    var index1, slots1 := index[slots[i] := last][slots[last] := i], slots[i := slots[last]][last := slots[i]];
    SwapRowsValid(filter, index, slots, cols, i, last, cols1);
    assert slots1[last] == x;
    DropLastRowValid(filter, index1, slots1, cols1, cols2);
    SwapThenDropLast(slots, i);
    UpdateThenRemove(index, x, last, slots[last], i);
    forall t | t in cols2 ensures cols2[t] == cols[t][i := cols[t][last]][..last] {
      SwapThenDropLast(cols[t], i);
    }
  }

  /** Where a removal puts each remaining entity: the last row's entity into the freed row,
      every other entity where it was. */
  lemma RemovedIndex(filter: seq<TypeTag>, index: map<int, nat>, slots: seq<int>, cols: map<TypeTag, Column>, x: int,
                     index': map<int, nat>, slots': seq<int>, cols': map<TypeTag, Column>, y: int)
    requires TableValid(filter, index, slots, cols)
    requires Removed(index, slots, cols, x, index', slots', cols')
    requires y in index'
    ensures y in index && y != x
    ensures index'[y] == (if y == slots[|slots| - 1] then index[x] else index[y])
    ensures index'[y] < |slots| - 1
  {
    assert slots[index[y]] == y && slots[index[x]] == x;
  }

  /** A removal takes exactly the removed entity's row out of the table's contents; every
      other entity keeps all its values, even the one moved into the freed row. */
  lemma RemovedRows(filter: seq<TypeTag>, index: map<int, nat>, slots: seq<int>, cols: map<TypeTag, Column>, x: int,
                    index': map<int, nat>, slots': seq<int>, cols': map<TypeTag, Column>)
    requires TableValid(filter, index, slots, cols)
    requires Removed(index, slots, cols, x, index', slots', cols')
    ensures forall x, t | x in index' && t in cols' :: index'[x] < |cols'[t]|
    ensures TableRows(index', cols') == TableRows(index, cols) - {x}
  {
    RemovedSized(filter, index, slots, cols, x, index', slots', cols');
    assert index'.Keys == index.Keys - {x};
    forall y | y in index' ensures TableRows(index', cols')[y] == TableRows(index, cols)[y] {
      RemovedRow(filter, index, slots, cols, x, index', slots', cols', y);
    }
  }

  /** After a removal every remaining entity's row lies inside the shortened columns. */
  lemma RemovedSized(filter: seq<TypeTag>, index: map<int, nat>, slots: seq<int>, cols: map<TypeTag, Column>, x: int,
                     index': map<int, nat>, slots': seq<int>, cols': map<TypeTag, Column>)
    requires TableValid(filter, index, slots, cols)
    requires Removed(index, slots, cols, x, index', slots', cols')
    ensures forall x, t | x in index' && t in cols' :: index'[x] < |cols'[t]|
  {
    forall y | y in index' ensures index'[y] < |slots| - 1 {
      RemovedIndex(filter, index, slots, cols, x, index', slots', cols', y);
    }
  }

  /** After a removal a remaining entity's row holds the values it held before. */
  lemma RemovedRow(filter: seq<TypeTag>, index: map<int, nat>, slots: seq<int>, cols: map<TypeTag, Column>, x: int,
                   index': map<int, nat>, slots': seq<int>, cols': map<TypeTag, Column>, y: int)
    requires TableValid(filter, index, slots, cols)
    requires Removed(index, slots, cols, x, index', slots', cols')
    requires y in index'
    ensures y in index && forall t | t in cols :: index[y] < |cols[t]|
    ensures forall t | t in cols' :: index'[y] < |cols'[t]|
    ensures RowOf(cols', index'[y]) == RowOf(cols, index[y])
  {
    RemovedIndex(filter, index, slots, cols, x, index', slots', cols', y);
    RowOfRemoved(cols, |slots|, index[x], index[y], index'[y], cols');
  }

  /** Row j' of the columns after a removal is row j before it, when j' is where the
      removal puts the entity of row j. */
  lemma RowOfRemoved(cols: map<TypeTag, Column>, n: nat, i: nat, j: nat, j': nat, cols': map<TypeTag, Column>)
    requires i < n && j < n && j' < n - 1 && (j != i || j == n - 1)
    requires j' == (if j == n - 1 then i else j)
    requires cols'.Keys == cols.Keys
    requires forall t | t in cols' :: |cols[t]| == n && cols'[t] == cols[t][i := cols[t][n - 1]][..n - 1]
    ensures RowOf(cols', j') == RowOf(cols, j)
  {
    forall t | t in cols ensures RowOf(cols', j')[t] == RowOf(cols, j)[t] {
      assert cols'[t][j'] == cols[t][j];
    }
  }

  /** Writing entry k of a bag into row `last` extends Injected by one entry; an entry whose
      type has no column writes nothing. */
  lemma InjectStep(cols0: map<TypeTag, Column>, last: nat, types: seq<TypeTag>, vals: seq<Value>, k: nat,
                   cols: map<TypeTag, Column>)
    requires k < |vals| <= |types| && Injected(cols0, last, types, vals[..k], cols)
    ensures types[k] in cols ==>
      Injected(cols0, last, types, vals[..k + 1], cols[types[k] := cols[types[k]][last := vals[k].payload]])
    ensures types[k] !in cols ==> Injected(cols0, last, types, vals[..k + 1], cols)
  {
    assert vals[..k + 1][..k] == vals[..k];
  }

  /** Writing a bag into the default row a table just appended gives the row of last
      writes; when every write matches its column's type, that row is well typed. */
  lemma InjectRow(cols: map<TypeTag, Column>, cols1: map<TypeTag, Column>, n: nat, bag: ComponentSet,
                  cols2: map<TypeTag, Column>)
    requires |bag.components| <= |bag.types| && ColumnsSized(cols, n)
    requires RowAppended(cols, DefaultRow(cols.Keys), cols1)
    requires Injected(cols1, n, bag.types, bag.components, cols2)
    requires forall i | 0 <= i < |bag.components| && bag.types[i] in cols :: bag.components[i].ty == bag.types[i]
    ensures RowAppended(cols, WrittenRow(cols.Keys, bag), cols2)
    ensures forall t | t in cols :: Written(bag, t).ty == t
  {
    forall t | t in cols ensures Written(bag, t).ty == t {
      LastWriteTyped(bag.types, bag.components, t, Default(t));
    }
  }

  // The loops of the table's operations, on values.

  /** The constructor's loop: for each given type, Dictionary.Add(type, new List<type>()). */
  method EmptyColumns(types: seq<TypeTag>) returns (cols: map<TypeTag, Column>)
    ensures cols.Keys == Elements(types)
    ensures forall t | t in cols :: cols[t] == []
  {
    cols := map[];
    var i := 0;
    while i < |types|
      invariant 0 <= i <= |types|
      invariant forall t :: t in cols <==> t in types[..i]
      invariant forall t | t in cols :: cols[t] == []
    {
      assert types[..i + 1] == types[..i] + [types[i]];
      cols := cols[types[i] := []];
      i := i + 1;
    }
    assert types[..|types|] == types;
  }

  /** AddEntity's loop: every column, in dictionary order, gets a default value appended. */
  method AppendDefaults(cols: map<TypeTag, Column>) returns (cols': map<TypeTag, Column>)
    ensures RowAppended(cols, DefaultRow(cols.Keys), cols')
  {
    cols' := cols;
    var pending := cols.Keys;
    while pending != {}
      invariant pending <= cols'.Keys == cols.Keys
      invariant forall t | t in cols' :: cols'[t] == if t in pending then cols[t] else cols[t] + [Default(t).payload]
      decreases pending
    {
      var t :| t in pending;
      cols' := cols'[t := cols'[t] + [Default(t).payload]];
      pending := pending - {t};
    }
  }

  /** SwapSets's loop: in every filter type's column, the values at rows a and b change places. */
  method SwapInColumns(filter: seq<TypeTag>, cols: map<TypeTag, Column>, a: nat, b: nat)
    returns (cols': map<TypeTag, Column>)
    requires NoDup(filter) && cols.Keys == Elements(filter)
    requires forall t | t in cols :: a < |cols[t]| && b < |cols[t]|
    ensures RowsSwapped(cols, a, b, cols')
  {
    cols' := cols;
    var k := 0;
    while k < |filter|
      invariant 0 <= k <= |filter|
      invariant cols'.Keys == cols.Keys
      invariant forall t | t in cols' ::
        cols'[t] == if t in filter[..k] then cols[t][a := cols[t][b]][b := cols[t][a]] else cols[t]
    {
      var t := filter[k];
      assert filter[..k + 1] == filter[..k] + [t];
      var list := cols'[t];
      var componentSwap := list[a];
      list := list[a := list[b]];
      list := list[b := componentSwap];
      cols' := cols'[t := list];
      k := k + 1;
    }
    assert filter[..|filter|] == filter;
  }

  /** ExtractEntity's loop: for each filter type in order, the value in row i of its column. */
  method ReadRow(filter: seq<TypeTag>, cols: map<TypeTag, Column>, i: nat) returns (vals: seq<Value>)
    requires cols.Keys == Elements(filter) && forall t | t in cols :: i < |cols[t]|
    ensures |vals| == |filter|
    ensures forall k | 0 <= k < |filter| :: vals[k] == RowOf(cols, i)[filter[k]]
    ensures RuntimeTypes(vals) == filter
  {
    vals := [];
    var k := 0;
    while k < |filter|
      invariant 0 <= k <= |filter|
      invariant |vals| == k
      invariant forall j | 0 <= j < k :: vals[j] == RowOf(cols, i)[filter[j]]
    {
      var t := filter[k];
      vals := vals + [Value(t, cols[t][i])];
      k := k + 1;
    }
  }

  /** InjectEntity's loop: SetComponent(types[k], vals[k]) into row `last`, for k in order. */
  method WriteEntries(cols: map<TypeTag, Column>, last: nat, types: seq<TypeTag>, vals: seq<Value>)
    returns (cols': map<TypeTag, Column>)
    requires |vals| <= |types| && forall t | t in cols :: last < |cols[t]|
    ensures Injected(cols, last, types, vals, cols')
  {
    cols' := cols;
    forall t | t in cols ensures cols[t][last := cols[t][last]] == cols[t] {
    }
    var k := 0;
    while k < |vals|
      invariant 0 <= k <= |vals|
      invariant Injected(cols, last, types, vals[..k], cols')
    {
      InjectStep(cols, last, types, vals, k, cols');
      var t := types[k];
      if t in cols' {
        cols' := cols'[t := cols'[t][last := vals[k].payload]];
      }
      k := k + 1;
    }
    assert vals[..|vals|] == vals;
  }

  /** RemoveEntity's loop: every column, in dictionary order, loses its row n. */
  method DropLastInColumns(cols: map<TypeTag, Column>, n: nat) returns (cols': map<TypeTag, Column>)
    requires ColumnsSized(cols, n + 1)
    ensures Truncated(cols, n, cols')
  {
    cols' := cols;
    var pending := cols.Keys;
    while pending != {}
      invariant pending <= cols'.Keys == cols.Keys
      invariant forall t | t in cols' :: cols'[t] == if t in pending then cols[t] else cols[t][..n]
      decreases pending
    {
      var t :| t in pending;
      cols' := cols'[t := cols'[t][..n]];
      pending := pending - {t};
    }
  }
}
