/**
 * Value model of the table schema of a ClickHouse table: a single column
 * (`ColumnDescription`), an ordered sequence of columns with pairwise distinct
 * names, and the pure effect of each schema operation on such a sequence.
 *
 * The pointer types of the C++ code stay opaque: `T` stands for `DataTypePtr`,
 * `E` for `ASTPtr` (a default expression or a TTL expression) and `C` for
 * `CompressionCodecPtr`. A null pointer is `None`.
 */
module Columns {
  import opened Wrappers

  /** How a column obtains its value; this decides the category getter that lists it. */
  datatype DefaultKind = Default | Materialized | Alias

  /** A column's default: its kind and the (opaque) expression, if any. */
  datatype ColumnDefault<E> = ColumnDefault(kind: DefaultKind, expression: Option<E>)

  /** One column of a table, as in CREATE TABLE. */
  datatype ColumnDescription<T, E, C> = ColumnDescription(
    name: string,
    dataType: T,
    defaultDesc: ColumnDefault<E>,
    comment: string,
    codec: Option<C>,
    ttl: Option<E>,
    isVirtual: bool)

  /** An element of a NamesAndTypesList. */
  datatype NameAndTypePair<T> = NameAndTypePair(name: string, dataType: T)

  /** The four lists a table's columns are split into by the getters. */
  datatype Category = Ordinary | MaterializedColumn | AliasColumn | VirtualColumn

  /** The errors the schema operations report instead of changing the schema. */
  datatype ColumnsError =
    | CannotFindColumn(name: string)       // modify: no column of that name (LOGICAL_ERROR)
    | NameCannotBeChanged(name: string)    // modify: the edit breaks the unique-name index (LOGICAL_ERROR)
    | ColumnAlreadyExists(name: string)    // add: the unique-name index already holds the name
    | NoColumnToInsertAfter(name: string)  // add: `after_column` names no column
    | NoSuchColumn(name: string)           // remove, get: no column of that name

  type ColumnSeq<T, E, C> = seq<ColumnDescription<T, E, C>>

  // ---------------------------------------------------------------------------
  // A single column

  /** `ColumnDescription::operator==`: member-wise comparison. */
  predicate ColumnEquals<T(==), E(==), C(==)>(a: ColumnDescription<T, E, C>, b: ColumnDescription<T, E, C>)
    ensures ColumnEquals(a, b) <==> a == b
  {
    a.name == b.name && a.dataType == b.dataType && a.defaultDesc == b.defaultDesc &&
    a.comment == b.comment && a.codec == b.codec && a.ttl == b.ttl && a.isVirtual == b.isVirtual
  }

  /** `ColumnDescription::operator!=`: the negation of `==`. */
  predicate ColumnNotEquals<T(==), E(==), C(==)>(a: ColumnDescription<T, E, C>, b: ColumnDescription<T, E, C>)
    ensures ColumnNotEquals(a, b) <==> a != b
  {
    !ColumnEquals(a, b)
  }

  /** Which of the getters lists column `c`: a virtual column is listed only among the virtuals. */
  function CategoryOf<T, E, C>(c: ColumnDescription<T, E, C>): Category
  {
    if c.isVirtual then VirtualColumn
    else match c.defaultDesc.kind
      case Default => Ordinary
      case Materialized => MaterializedColumn
      case Alias => AliasColumn
  }

  function NameAndType<T, E, C>(c: ColumnDescription<T, E, C>): NameAndTypePair<T>
  {
    NameAndTypePair(c.name, c.dataType)
  }

  // ---------------------------------------------------------------------------
  // The container invariant and lookup by name

  /** The second index of the container is `ordered_unique` on the column name. */
  ghost predicate UniqueNames<T, E, C>(cols: ColumnSeq<T, E, C>)
  {
    forall i, j :: 0 <= i < j < |cols| ==> cols[i].name != cols[j].name
  }

  ghost predicate HasName<T, E, C>(cols: ColumnSeq<T, E, C>, name: string)
  {
    exists i :: 0 <= i < |cols| && cols[i].name == name
  }

  /** Position in sequence order of the first column called `name`, if there is one. */
  function IndexOf<T, E, C>(cols: ColumnSeq<T, E, C>, name: string): (r: Option<nat>)
    ensures r.Some? ==> r.value < |cols| && cols[r.value].name == name
    ensures r.Some? ==> forall j :: 0 <= j < r.value ==> cols[j].name != name
    ensures r.None? <==> !HasName(cols, name)
    decreases |cols|
  {
    if |cols| == 0 then None
    else if cols[0].name == name then Some(0)
    else match IndexOf(cols[1..], name)
      case None => None
      case Some(k) => Some(k + 1)
  }

  /** With unique names, lookup by name finds each column at its own position. */
  lemma IndexOfUnique<T, E, C>(cols: ColumnSeq<T, E, C>, i: nat)
    requires UniqueNames(cols) && i < |cols|
    ensures IndexOf(cols, cols[i].name) == Some(i)
  {
  }

  lemma IndexOfFindsEveryColumn<T, E, C>(cols: ColumnSeq<T, E, C>)
    requires UniqueNames(cols)
    ensures forall i :: 0 <= i < |cols| ==> IndexOf(cols, cols[i].name) == Some(i)
  {
    forall i | 0 <= i < |cols| ensures IndexOf(cols, cols[i].name) == Some(i) {
      IndexOfUnique(cols, i);
    }
  }

  // ---------------------------------------------------------------------------
  // Element-wise equality of two descriptions

  /** `ColumnsDescription::operator==`: equal lengths and `ColumnEquals` position by position. */
  predicate SequenceEquals<T(==), E(==), C(==)>(xs: ColumnSeq<T, E, C>, ys: ColumnSeq<T, E, C>)
    ensures SequenceEquals(xs, ys) <==> xs == ys
    decreases |xs|
  {
    |xs| == |ys| && (|xs| == 0 || (ColumnEquals(xs[0], ys[0]) && SequenceEquals(xs[1..], ys[1..])))
  }

  /** The same columns in another order make a different description. */
  lemma ReorderedNotEqual<T, E, C>(cols: ColumnSeq<T, E, C>, i: nat, j: nat)
    requires UniqueNames(cols) && i < j < |cols|
    ensures multiset(cols[i := cols[j]][j := cols[i]]) == multiset(cols)
    ensures !SequenceEquals(cols, cols[i := cols[j]][j := cols[i]])
  {
    var swapped := cols[i := cols[j]][j := cols[i]];
    assert swapped[i].name != cols[i].name;
    assert cols == cols[i := cols[i]][j := cols[j]];
  }

  // ---------------------------------------------------------------------------
  // Inserting and deleting one position

  /** `cols` with `c` inserted so that it ends up at position `k`. */
  function InsertAt<T, E, C>(cols: ColumnSeq<T, E, C>, k: nat, c: ColumnDescription<T, E, C>): (r: ColumnSeq<T, E, C>)
    requires k <= |cols|
    ensures |r| == |cols| + 1 && r[k] == c
    ensures forall j :: 0 <= j < k ==> r[j] == cols[j]
    ensures forall j :: k < j < |r| ==> r[j] == cols[j - 1]
  {
    cols[..k] + [c] + cols[k..]
  }

  /** `cols` without the column at position `k`, the others keeping their order. */
  function DeleteAt<T, E, C>(cols: ColumnSeq<T, E, C>, k: nat): (r: ColumnSeq<T, E, C>)
    requires k < |cols|
    ensures |r| == |cols| - 1
    ensures forall j :: 0 <= j < k ==> r[j] == cols[j]
    ensures forall j :: k <= j < |r| ==> r[j] == cols[j + 1]
  {
    cols[..k] + cols[k + 1..]
  }

  lemma DeleteInsert<T, E, C>(cols: ColumnSeq<T, E, C>, k: nat, c: ColumnDescription<T, E, C>)
    requires k <= |cols|
    ensures DeleteAt(InsertAt(cols, k, c), k) == cols
  {
    var r := DeleteAt(InsertAt(cols, k, c), k);
    assert forall j :: 0 <= j < |cols| ==> r[j] == cols[j];
  }

  lemma InsertDelete<T, E, C>(cols: ColumnSeq<T, E, C>, k: nat)
    requires k < |cols|
    ensures InsertAt(DeleteAt(cols, k), k, cols[k]) == cols
  {
    var r := InsertAt(DeleteAt(cols, k), k, cols[k]);
    assert forall j :: 0 <= j < |cols| ==> r[j] == cols[j];
  }

  // ---------------------------------------------------------------------------
  // add

  /**
   * Effect of `add(column, after_column)`: the new column goes last when
   * `after_column` is empty, and directly after the column called
   * `after_column` otherwise.
   */
  function Added<T, E, C>(cols: ColumnSeq<T, E, C>, column: ColumnDescription<T, E, C>, after: string)
    : (r: Result<ColumnSeq<T, E, C>, ColumnsError>)
    ensures r.Failure? <==> HasName(cols, column.name) || (after != "" && !HasName(cols, after))
    ensures r.Failure? && HasName(cols, column.name) ==> r.error == ColumnAlreadyExists(column.name)
    ensures r.Failure? && !HasName(cols, column.name) ==> r.error == NoColumnToInsertAfter(after)
    ensures r.Success? ==> |r.value| == |cols| + 1
  {
    if IndexOf(cols, column.name).Some? then Failure(ColumnAlreadyExists(column.name))
    else if after == "" then Success(InsertAt(cols, |cols|, column))
    else match IndexOf(cols, after)
      case None => Failure(NoColumnToInsertAfter(after))
      case Some(i) => Success(InsertAt(cols, i + 1, column))
  }

  /** Inserting a column whose name is new keeps the names pairwise distinct. */
  lemma InsertKeepsNamesUnique<T, E, C>(cols: ColumnSeq<T, E, C>, k: nat, c: ColumnDescription<T, E, C>)
    requires UniqueNames(cols) && !HasName(cols, c.name) && k <= |cols|
    ensures UniqueNames(InsertAt(cols, k, c))
  {
    var r := InsertAt(cols, k, c);
    forall i, j | 0 <= i < j < |r| ensures r[i].name != r[j].name {
      if i == k {
        assert r[j] == cols[j - 1];
      } else if j == k {
        assert r[i] == cols[i];
      } else {
        var i' := if i < k then i else i - 1;
        var j' := if j < k then j else j - 1;
        assert r[i] == cols[i'] && r[j] == cols[j'] && i' < j';
      }
    }
  }

  /** `add` never produces a duplicate name, and the new column is then present. */
  lemma AddedKeepsNamesUnique<T, E, C>(cols: ColumnSeq<T, E, C>, column: ColumnDescription<T, E, C>, after: string)
    requires UniqueNames(cols) && Added(cols, column, after).Success?
    ensures UniqueNames(Added(cols, column, after).value)
    ensures HasName(Added(cols, column, after).value, column.name)
  {
    var k := if after == "" then |cols| else IndexOf(cols, after).value + 1;
    assert Added(cols, column, after).value == InsertAt(cols, k, column);
    InsertKeepsNamesUnique(cols, k, column);
  }

  /**
   * Where `add` puts the column: directly after `after_column`, which keeps its
   * position, or at the end when `after_column` is empty. Every other column
   * keeps its contents and relative order.
   */
  lemma AddedPlacesColumn<T, E, C>(cols: ColumnSeq<T, E, C>, column: ColumnDescription<T, E, C>, after: string)
    requires UniqueNames(cols) && Added(cols, column, after).Success?
    ensures after == "" ==> Added(cols, column, after).value == cols + [column]
    ensures after != "" ==>
      var i := IndexOf(cols, after).value;
      Added(cols, column, after).value == cols[..i + 1] + [column] + cols[i + 1..]
    ensures after != "" ==>
      IndexOf(Added(cols, column, after).value, after) == IndexOf(cols, after) &&
      IndexOf(Added(cols, column, after).value, column.name) == Some(IndexOf(cols, after).value + 1)
  {
    var r := Added(cols, column, after).value;
    AddedKeepsNamesUnique(cols, column, after);
    if after == "" {
      assert r == cols + [column];
    } else {
      var i := IndexOf(cols, after).value;
      assert r == InsertAt(cols, i + 1, column);
      assert r[i] == cols[i];
      IndexOfUnique(r, i);
      IndexOfUnique(r, i + 1);
    }
  }

  // ---------------------------------------------------------------------------
  // remove

  /** Effect of `remove(column_name)`: the column leaves, the others keep their order. */
  function Removed<T, E, C>(cols: ColumnSeq<T, E, C>, name: string): (r: Result<ColumnSeq<T, E, C>, ColumnsError>)
    ensures r.Failure? <==> !HasName(cols, name)
    ensures r.Failure? ==> r.error == NoSuchColumn(name)
    ensures r.Success? ==> |r.value| == |cols| - 1
  {
    match IndexOf(cols, name)
    case None => Failure(NoSuchColumn(name))
    case Some(i) => Success(DeleteAt(cols, i))
  }

  /** After `remove`, exactly the named column is gone and the names stay distinct. */
  lemma RemovedDropsOnlyThatColumn<T, E, C>(cols: ColumnSeq<T, E, C>, name: string)
    requires UniqueNames(cols) && Removed(cols, name).Success?
    ensures UniqueNames(Removed(cols, name).value)
    ensures !HasName(Removed(cols, name).value, name)
    ensures forall n :: n != name ==> (HasName(Removed(cols, name).value, n) <==> HasName(cols, n))
  {
    var k := IndexOf(cols, name).value;
    var r := DeleteAt(cols, k);
    assert Removed(cols, name).value == r;
    forall i, j | 0 <= i < j < |r| ensures r[i].name != r[j].name {
      var i' := if i < k then i else i + 1;
      var j' := if j < k then j else j + 1;
      assert r[i] == cols[i'] && r[j] == cols[j'] && i' < j';
    }
    forall i | 0 <= i < |r| ensures r[i].name != name {
      var i' := if i < k then i else i + 1;
      assert r[i] == cols[i'];
    }
    forall n | n != name && HasName(cols, n) ensures HasName(r, n) {
      var i :| 0 <= i < |cols| && cols[i].name == n;
      if i < k { assert r[i] == cols[i]; } else { assert r[i - 1] == cols[i]; }
    }
    forall n | HasName(r, n) ensures HasName(cols, n) {
      var i :| 0 <= i < |r| && r[i].name == n;
      if i < k { assert r[i] == cols[i]; } else { assert r[i] == cols[i + 1]; }
    }
  }

  /**
   * Removing the column at position `k` leaves the columns before it and
   * after it unchanged and in their order.
   */
  lemma RemovedKeepsOthersInOrder<T, E, C>(cols: ColumnSeq<T, E, C>, k: nat)
    requires UniqueNames(cols) && k < |cols|
    ensures Removed(cols, cols[k].name) == Success(cols[..k] + cols[k + 1..])
  {
    IndexOfUnique(cols, k);
  }

  /** `remove` undoes a successful `add`, wherever the column was placed. */
  lemma RemovedAfterAdded<T, E, C>(cols: ColumnSeq<T, E, C>, column: ColumnDescription<T, E, C>, after: string)
    requires UniqueNames(cols) && Added(cols, column, after).Success?
    ensures Removed(Added(cols, column, after).value, column.name) == Success(cols)
  {
    var k := if after == "" then |cols| else IndexOf(cols, after).value + 1;
    var r := InsertAt(cols, k, column);
    assert Added(cols, column, after).value == r;
    InsertKeepsNamesUnique(cols, k, column);
    IndexOfUnique(r, k);
    DeleteInsert(cols, k, column);
  }

  /**
   * `add` with `after_column` set to the preceding column's name undoes a
   * `remove` of any column but the first; the last one is also restored by
   * `add` with an empty `after_column`.
   */
  lemma AddedAfterRemoved<T, E, C>(cols: ColumnSeq<T, E, C>, i: nat)
    requires UniqueNames(cols) && 0 < i < |cols| && cols[i - 1].name != ""
    ensures Removed(cols, cols[i].name).Success?
    ensures Added(Removed(cols, cols[i].name).value, cols[i], cols[i - 1].name) == Success(cols)
    ensures i == |cols| - 1 ==> Added(Removed(cols, cols[i].name).value, cols[i], "") == Success(cols)
  {
    IndexOfUnique(cols, i);
    var r := DeleteAt(cols, i);
    assert Removed(cols, cols[i].name) == Success(r);
    RemovedDropsOnlyThatColumn(cols, cols[i].name);
    assert r[i - 1] == cols[i - 1];
    IndexOfUnique(r, i - 1);
    assert !HasName(r, cols[i].name);
    InsertDelete(cols, i);
    assert Added(r, cols[i], cols[i - 1].name) == Success(InsertAt(r, i, cols[i]));
  }
  /** Removing the last column, even the only one, and appending it again restores the schema. */
  lemma AppendedAfterRemoved<T, E, C>(cols: ColumnSeq<T, E, C>)
    requires UniqueNames(cols) && |cols| > 0
    ensures Removed(cols, cols[|cols| - 1].name).Success?
    ensures Added(Removed(cols, cols[|cols| - 1].name).value, cols[|cols| - 1], "") == Success(cols)
  {
    var i := |cols| - 1;
    IndexOfUnique(cols, i);
    var r := DeleteAt(cols, i);
    assert Removed(cols, cols[i].name) == Success(r);
    RemovedDropsOnlyThatColumn(cols, cols[i].name);
    assert !HasName(r, cols[i].name);
    assert r == cols[..i];
    assert InsertAt(r, |r|, cols[i]) == cols;
  }


  // ---------------------------------------------------------------------------
  // modify

  /** Some column other than the one at position `i` is called `name`. */
  ghost predicate NameTakenElsewhere<T, E, C>(cols: ColumnSeq<T, E, C>, i: nat, name: string)
  {
    exists j :: 0 <= j < |cols| && j != i && cols[j].name == name
  }

  /**
   * Effect of `modify(column_name, f)`: `f` edits the column called
   * `column_name` in place; the unique-name index refuses the edit when the
   * edited name belongs to another column.
   */
  function Modified<T, E, C>(cols: ColumnSeq<T, E, C>, name: string, f: ColumnDescription<T, E, C> -> ColumnDescription<T, E, C>)
    : (r: Result<ColumnSeq<T, E, C>, ColumnsError>)
    ensures !HasName(cols, name) <==> r == Failure(CannotFindColumn(name))
    ensures r.Failure? ==> r.error == CannotFindColumn(name) || r.error == NameCannotBeChanged(name)
    ensures r.Success? ==> |r.value| == |cols|
  {
    match IndexOf(cols, name)
    case None => Failure(CannotFindColumn(name))
    case Some(i) =>
      var edited := f(cols[i]);
      if IndexOf(DeleteAt(cols, i), edited.name).Some? then Failure(NameCannotBeChanged(name))
      else Success(cols[i := edited])
  }

  /** An edit is refused exactly when the edited name is already held by another column. */
  lemma ModifiedFailsOnNameCollision<T, E, C>(cols: ColumnSeq<T, E, C>, i: nat, f: ColumnDescription<T, E, C> -> ColumnDescription<T, E, C>)
    requires UniqueNames(cols) && i < |cols|
    ensures Modified(cols, cols[i].name, f) == Failure(NameCannotBeChanged(cols[i].name))
        <==> NameTakenElsewhere(cols, i, f(cols[i]).name)
    ensures !NameTakenElsewhere(cols, i, f(cols[i]).name) ==>
      Modified(cols, cols[i].name, f) == Success(cols[i := f(cols[i])])
  {
    IndexOfUnique(cols, i);
    var n := f(cols[i]).name;
    var rest := DeleteAt(cols, i);
    if NameTakenElsewhere(cols, i, n) {
      var j :| 0 <= j < |cols| && j != i && cols[j].name == n;
      if j < i { assert rest[j] == cols[j]; } else { assert rest[j - 1] == cols[j]; }
    }
    if HasName(rest, n) {
      var j :| 0 <= j < |rest| && rest[j].name == n;
      if j < i { assert rest[j] == cols[j]; } else { assert rest[j] == cols[j + 1]; }
    }
  }

  /**
   * An edit that keeps the column's name always succeeds and updates exactly
   * that column; every other column and the order stay as they were.
   */
  lemma ModifiedKeepingName<T, E, C>(cols: ColumnSeq<T, E, C>, i: nat, f: ColumnDescription<T, E, C> -> ColumnDescription<T, E, C>)
    requires UniqueNames(cols) && i < |cols| && f(cols[i]).name == cols[i].name
    ensures Modified(cols, cols[i].name, f).Success?
    ensures var r := Modified(cols, cols[i].name, f).value;
      |r| == |cols| && r[i] == f(cols[i]) && forall j :: 0 <= j < |cols| && j != i ==> r[j] == cols[j]
  {
    ModifiedFailsOnNameCollision(cols, i, f);
  }

  /** A successful `modify` keeps the names pairwise distinct. */
  lemma ModifiedKeepsNamesUnique<T, E, C>(cols: ColumnSeq<T, E, C>, name: string, f: ColumnDescription<T, E, C> -> ColumnDescription<T, E, C>)
    requires UniqueNames(cols) && Modified(cols, name, f).Success?
    ensures UniqueNames(Modified(cols, name, f).value)
  {
    var i := IndexOf(cols, name).value;
    ModifiedFailsOnNameCollision(cols, i, f);
  }

  // ---------------------------------------------------------------------------
  // The category getters

  /** The pairs of `cols` in sequence order. */
  function Pairs<T, E, C>(cols: ColumnSeq<T, E, C>): (r: seq<NameAndTypePair<T>>)
    ensures |r| == |cols|
  {
    if |cols| == 0 then [] else [NameAndType(cols[0])] + Pairs(cols[1..])
  }

  /** `p` is the name and type of some column whose category is in `cats`. */
  ghost predicate IsPairOf<T, E, C>(p: NameAndTypePair<T>, cols: ColumnSeq<T, E, C>, cats: set<Category>)
  {
    exists i :: 0 <= i < |cols| && CategoryOf(cols[i]) in cats && NameAndType(cols[i]) == p
  }

  /**
   * `r` lists the name and type of every column whose category is in `cats`,
   * and nothing else. This is the set-level view, which ignores order and
   * repetition; it is what survives concatenating the lists of several
   * categories (`ListsConcat`). `ListsInOrder` below is the exact description
   * of one category's list, and `InOrderLists` derives this view from it.
   */
  ghost predicate Lists<T, E, C>(r: seq<NameAndTypePair<T>>, cols: ColumnSeq<T, E, C>, cats: set<Category>)
  {
    (forall k :: 0 <= k < |r| ==> IsPairOf(r[k], cols, cats)) &&
    (forall i :: 0 <= i < |cols| && CategoryOf(cols[i]) in cats ==> NameAndType(cols[i]) in r)
  }

  /** The columns of one category, as a NamesAndTypesList in sequence order. */
  function Project<T, E, C>(cols: ColumnSeq<T, E, C>, cat: Category): (r: seq<NameAndTypePair<T>>)
    ensures |r| <= |cols|
  {
    if |cols| == 0 then []
    else if CategoryOf(cols[0]) == cat then [NameAndType(cols[0])] + Project(cols[1..], cat)
    else Project(cols[1..], cat)
  }

  /** A category getter lists every column of its category, and nothing else. */
  lemma {:induction false} ProjectListsCategory<T, E, C>(cols: ColumnSeq<T, E, C>, cat: Category)
    ensures Lists(Project(cols, cat), cols, {cat})
  {
    if |cols| > 0 {
      var rest := cols[1..];
      ProjectListsCategory(rest, cat);
      var r := Project(cols, cat);
      var head := if CategoryOf(cols[0]) == cat then [NameAndType(cols[0])] else [];
      assert r == head + Project(rest, cat);
      forall k | 0 <= k < |r| ensures IsPairOf(r[k], cols, {cat}) {
        if k < |head| {
          assert CategoryOf(cols[0]) in {cat} && NameAndType(cols[0]) == r[k];
        } else {
          assert r[k] == Project(rest, cat)[k - |head|];
          var i :| 0 <= i < |rest| && CategoryOf(rest[i]) in {cat} && NameAndType(rest[i]) == r[k];
          assert cols[i + 1] == rest[i];
        }
      }
      forall i | 0 <= i < |cols| && CategoryOf(cols[i]) in {cat} ensures NameAndType(cols[i]) in r {
        if i > 0 {
          assert cols[i] == rest[i - 1];
        }
      }
    }
  }

  /** `idx` enumerates, strictly increasing, exactly the positions of `cols` whose category is `cat`. */
  ghost predicate CategoryPositions<T, E, C>(idx: seq<int>, cols: ColumnSeq<T, E, C>, cat: Category)
  {
    AtCategory(idx, cols, cat) && Increasing(idx) && CoversCategory(idx, cols, cat)
  }

  /** Every position in `idx` holds a column of category `cat`. */
  ghost predicate AtCategory<T, E, C>(idx: seq<int>, cols: ColumnSeq<T, E, C>, cat: Category)
  {
    forall k :: 0 <= k < |idx| ==> 0 <= idx[k] < |cols| && CategoryOf(cols[idx[k]]) == cat
  }

  /** The positions in `idx` strictly increase. */
  ghost predicate Increasing(idx: seq<int>)
  {
    forall k, l :: 0 <= k < l < |idx| ==> idx[k] < idx[l]
  }

  /** Every column of category `cat` has its position in `idx`. */
  ghost predicate CoversCategory<T, E, C>(idx: seq<int>, cols: ColumnSeq<T, E, C>, cat: Category)
  {
    forall i :: 0 <= i < |cols| && CategoryOf(cols[i]) == cat ==> i in idx
  }

  /** `r` holds the columns of category `cat` at the positions `idx`, one entry per position. */
  ghost predicate ListsAt<T, E, C>(r: seq<NameAndTypePair<T>>, idx: seq<int>, cols: ColumnSeq<T, E, C>, cat: Category)
  {
    CategoryPositions(idx, cols, cat) && PairsAt(r, idx, cols)
  }

  /** `r[k]` is the name and type of the column at position `idx[k]`. */
  ghost predicate PairsAt<T, E, C>(r: seq<NameAndTypePair<T>>, idx: seq<int>, cols: ColumnSeq<T, E, C>)
  {
    |idx| == |r| && forall k :: 0 <= k < |r| ==> 0 <= idx[k] < |cols| && r[k] == NameAndType(cols[idx[k]])
  }

  /**
   * `r` is the name and type of every column of category `cat`, each exactly
   * once, in sequence order.
   */
  ghost predicate ListsInOrder<T, E, C>(r: seq<NameAndTypePair<T>>, cols: ColumnSeq<T, E, C>, cat: Category)
  {
    exists idx: seq<int> :: ListsAt(r, idx, cols, cat)
  }

  /** Positions of the tail `cols[1..]`, moved to positions of `cols`. */
  function Shift(idx: seq<int>): (r: seq<int>)
    ensures |r| == |idx| && forall k :: 0 <= k < |idx| ==> r[k] == idx[k] + 1
  {
    seq(|idx|, k requires 0 <= k < |idx| => idx[k] + 1)
  }

  /** The first position, if column 0 is of category `cat`. */
  function HeadPosition<T, E, C>(cols: ColumnSeq<T, E, C>, cat: Category): seq<int>
    requires |cols| > 0
  {
    if CategoryOf(cols[0]) == cat then [0] else []
  }

  lemma PositionsStep<T, E, C>(cols: ColumnSeq<T, E, C>, cat: Category, idx': seq<int>)
    requires |cols| > 0 && CategoryPositions(idx', cols[1..], cat)
    ensures CategoryPositions(HeadPosition(cols, cat) + Shift(idx'), cols, cat)
  {
    AtCategoryStep(cols, cat, idx');
    IncreasingStep(cols, cat, idx');
    CoversCategoryStep(cols, cat, idx');
  }

  lemma AtCategoryStep<T, E, C>(cols: ColumnSeq<T, E, C>, cat: Category, idx': seq<int>)
    requires |cols| > 0 && AtCategory(idx', cols[1..], cat)
    ensures AtCategory(HeadPosition(cols, cat) + Shift(idx'), cols, cat)
  {
    var rest, head := cols[1..], HeadPosition(cols, cat);
    var idx := head + Shift(idx');
    forall k | 0 <= k < |idx| ensures 0 <= idx[k] < |cols| && CategoryOf(cols[idx[k]]) == cat {
      if k >= |head| {
        assert idx[k] == idx'[k - |head|] + 1;
        assert cols[idx[k]] == rest[idx'[k - |head|]];
      }
    }
  }

  lemma IncreasingStep<T, E, C>(cols: ColumnSeq<T, E, C>, cat: Category, idx': seq<int>)
    requires |cols| > 0 && AtCategory(idx', cols[1..], cat) && Increasing(idx')
    ensures Increasing(HeadPosition(cols, cat) + Shift(idx'))
  {
    var head := HeadPosition(cols, cat);
    var idx := head + Shift(idx');
    forall k, l | 0 <= k < l < |idx| ensures idx[k] < idx[l] {
      if k >= |head| {
        assert idx[k] == idx'[k - |head|] + 1 && idx[l] == idx'[l - |head|] + 1;
      } else {
        assert idx[l] == idx'[l - |head|] + 1;
      }
    }
  }

  lemma CoversCategoryStep<T, E, C>(cols: ColumnSeq<T, E, C>, cat: Category, idx': seq<int>)
    requires |cols| > 0 && CoversCategory(idx', cols[1..], cat)
    ensures CoversCategory(HeadPosition(cols, cat) + Shift(idx'), cols, cat)
  {
    var rest, head := cols[1..], HeadPosition(cols, cat);
    var idx := head + Shift(idx');
    forall i | 0 <= i < |cols| && CategoryOf(cols[i]) == cat ensures i in idx {
      if i > 0 {
        assert rest[i - 1] == cols[i];
        var k :| 0 <= k < |idx'| && idx'[k] == i - 1;
        assert idx[|head| + k] == i;
      }
    }
  }

  lemma PairsStep<T, E, C>(cols: ColumnSeq<T, E, C>, cat: Category, idx': seq<int>)
    requires |cols| > 0 && PairsAt(Project(cols[1..], cat), idx', cols[1..])
    ensures PairsAt(Project(cols, cat), HeadPosition(cols, cat) + Shift(idx'), cols)
  {
    var rest, head := cols[1..], HeadPosition(cols, cat);
    var idx := head + Shift(idx');
    var tail := Project(rest, cat);
    var r := Project(cols, cat);
    var h := |head|;
    if CategoryOf(cols[0]) == cat {
      assert r == [NameAndType(cols[0])] + tail;
      assert idx[0] == 0;
    } else {
      assert r == tail;
    }
    assert |r| == h + |tail| == |idx|;
    forall k | h <= k < |r| ensures 0 <= idx[k] < |cols| && r[k] == NameAndType(cols[idx[k]]) {
      assert r[k] == tail[k - h];
      assert idx[k] == idx'[k - h] + 1;
      assert cols[idx[k]] == rest[idx'[k - h]];
    }
  }

  /** A category getter lists the columns of its category once each, in sequence order. */
  lemma {:induction false} ProjectInOrder<T, E, C>(cols: ColumnSeq<T, E, C>, cat: Category)
    ensures ListsInOrder(Project(cols, cat), cols, cat)
  {
    if |cols| == 0 {
      assert ListsAt(Project(cols, cat), [], cols, cat);
    } else {
      ProjectInOrder(cols[1..], cat);
      var idx' :| ListsAt(Project(cols[1..], cat), idx', cols[1..], cat);
      PositionsStep(cols, cat, idx');
      PairsStep(cols, cat, idx');
      assert ListsAt(Project(cols, cat), HeadPosition(cols, cat) + Shift(idx'), cols, cat);
    }
  }

  /** The ordered description of a category's list implies the set-level one. */
  lemma InOrderLists<T, E, C>(r: seq<NameAndTypePair<T>>, cols: ColumnSeq<T, E, C>, cat: Category)
    requires ListsInOrder(r, cols, cat)
    ensures Lists(r, cols, {cat})
  {
    var idx :| ListsAt(r, idx, cols, cat);
    forall k | 0 <= k < |r| ensures IsPairOf(r[k], cols, {cat}) {
      assert CategoryOf(cols[idx[k]]) in {cat} && NameAndType(cols[idx[k]]) == r[k];
    }
    forall i | 0 <= i < |cols| && CategoryOf(cols[i]) in {cat} ensures NameAndType(cols[i]) in r {
      assert i in idx;
      var k :| 0 <= k < |idx| && idx[k] == i;
      assert r[k] == NameAndType(cols[i]);
    }
  }

  /** With unique names, a category getter never lists a name twice. */
  lemma ProjectNamesDistinct<T, E, C>(cols: ColumnSeq<T, E, C>, cat: Category)
    requires UniqueNames(cols)
    ensures forall k, l :: 0 <= k < l < |Project(cols, cat)| ==> Project(cols, cat)[k].name != Project(cols, cat)[l].name
  {
    ProjectInOrder(cols, cat);
    var r := Project(cols, cat);
    var idx :| ListsAt(r, idx, cols, cat);
    forall k, l | 0 <= k < l < |r| ensures r[k].name != r[l].name {
      assert idx[k] < idx[l];
    }
  }

  lemma ListsConcat<T, E, C>(r1: seq<NameAndTypePair<T>>, r2: seq<NameAndTypePair<T>>, cols: ColumnSeq<T, E, C>, cats1: set<Category>, cats2: set<Category>)
    requires Lists(r1, cols, cats1) && Lists(r2, cols, cats2)
    ensures Lists(r1 + r2, cols, cats1 + cats2)
  {
    var r := r1 + r2;
    forall k | 0 <= k < |r| ensures IsPairOf(r[k], cols, cats1 + cats2) {
      if k < |r1| {
        assert r[k] == r1[k];
      } else {
        assert r[k] == r2[k - |r1|];
      }
    }
  }

  /** `getAllPhysical`: ordinary followed by materialized. */
  function AllPhysical<T, E, C>(cols: ColumnSeq<T, E, C>): (r: seq<NameAndTypePair<T>>)
  {
    Project(cols, Ordinary) + Project(cols, MaterializedColumn)
  }

  /** `getAll`: ordinary + materialized + aliases + virtuals. */
  function All<T, E, C>(cols: ColumnSeq<T, E, C>): (r: seq<NameAndTypePair<T>>)
  {
    AllPhysical(cols) + Project(cols, AliasColumn) + Project(cols, VirtualColumn)
  }

  /** The categories whose columns are stored: neither aliases nor virtual columns. */
  const PhysicalCategories: set<Category> := {Ordinary, MaterializedColumn}
  const AllCategories: set<Category> := {Ordinary, MaterializedColumn, AliasColumn, VirtualColumn}

  /** The physical columns are exactly those that are neither aliases nor virtual. */
  lemma AllPhysicalLists<T, E, C>(cols: ColumnSeq<T, E, C>)
    ensures exists k :: (0 <= k <= |AllPhysical(cols)| &&
      ListsInOrder(AllPhysical(cols)[..k], cols, Ordinary) &&
      ListsInOrder(AllPhysical(cols)[k..], cols, MaterializedColumn))
    ensures Lists(AllPhysical(cols), cols, PhysicalCategories)
    ensures forall c: ColumnDescription<T, E, C> :: CategoryOf(c) in PhysicalCategories <==> !c.isVirtual && c.defaultDesc.kind != Alias
  {
    ProjectListsCategory(cols, Ordinary);
    ProjectListsCategory(cols, MaterializedColumn);
    ListsConcat(Project(cols, Ordinary), Project(cols, MaterializedColumn), cols, {Ordinary}, {MaterializedColumn});
    ProjectInOrder(cols, Ordinary);
    ProjectInOrder(cols, MaterializedColumn);
    var k := |Project(cols, Ordinary)|;
    assert AllPhysical(cols)[..k] == Project(cols, Ordinary);
    assert AllPhysical(cols)[k..] == Project(cols, MaterializedColumn);
  }

  /** Moving one element to the front of a sequence keeps its multiset. */
  lemma MoveToFront<X>(x: seq<X>, p: X, y: seq<X>)
    ensures multiset(x + [p] + y) == multiset{p} + multiset(x + y)
  {
  }

  /** `All(cols)` is `All(cols[1..])` with the first column's pair inserted at position `|x|`. */
  ghost predicate InsertedInAll<T, E, C>(cols: ColumnSeq<T, E, C>, x: seq<NameAndTypePair<T>>, y: seq<NameAndTypePair<T>>)
    requires |cols| > 0
  {
    All(cols) == x + [NameAndType(cols[0])] + y && All(cols[1..]) == x + y
  }

  lemma AllStepOrdinary<T, E, C>(cols: ColumnSeq<T, E, C>)
    requires |cols| > 0 && CategoryOf(cols[0]) == Ordinary
    ensures var rest := cols[1..];
      InsertedInAll(cols, [], All(rest))
  {
    var rest := cols[1..];
    assert Project(cols, Ordinary) == [NameAndType(cols[0])] + Project(rest, Ordinary);
  }

  lemma AllStepMaterialized<T, E, C>(cols: ColumnSeq<T, E, C>)
    requires |cols| > 0 && CategoryOf(cols[0]) == MaterializedColumn
    ensures var rest := cols[1..];
      InsertedInAll(cols, Project(rest, Ordinary), Project(rest, MaterializedColumn) + Project(rest, AliasColumn) + Project(rest, VirtualColumn))
  {
  }

  lemma AllStepAlias<T, E, C>(cols: ColumnSeq<T, E, C>)
    requires |cols| > 0 && CategoryOf(cols[0]) == AliasColumn
    ensures var rest := cols[1..];
      InsertedInAll(cols, AllPhysical(rest), Project(rest, AliasColumn) + Project(rest, VirtualColumn))
  {
  }

  lemma AllStepVirtual<T, E, C>(cols: ColumnSeq<T, E, C>)
    requires |cols| > 0 && CategoryOf(cols[0]) == VirtualColumn
    ensures var rest := cols[1..];
      InsertedInAll(cols, AllPhysical(rest) + Project(rest, AliasColumn), Project(rest, VirtualColumn))
  {
  }

  /** `getAll` lists every column exactly once: it is a permutation of all columns. */
  lemma {:induction false} AllIsPermutationOfColumns<T, E, C>(cols: ColumnSeq<T, E, C>)
    ensures multiset(All(cols)) == multiset(Pairs(cols))
  {
    if |cols| > 0 {
      AllIsPermutationOfColumns(cols[1..]);
      var rest, p := cols[1..], NameAndType(cols[0]);
      var a, v := Project(rest, AliasColumn), Project(rest, VirtualColumn);
      match CategoryOf(cols[0])
      case Ordinary =>
        AllStepOrdinary(cols);
        MoveToFront([], p, All(rest));
      case MaterializedColumn =>
        AllStepMaterialized(cols);
        MoveToFront(Project(rest, Ordinary), p, Project(rest, MaterializedColumn) + a + v);
      case AliasColumn =>
        AllStepAlias(cols);
        MoveToFront(AllPhysical(rest), p, a + v);
      case VirtualColumn =>
        AllStepVirtual(cols);
        MoveToFront(AllPhysical(rest) + a, p, v);
      assert Pairs(cols) == [NameAndType(cols[0])] + Pairs(cols[1..]);
    }
  }

  /** `getAll` lists the columns of all four categories, that is, every column. */
  lemma AllLists<T, E, C>(cols: ColumnSeq<T, E, C>)
    ensures Lists(All(cols), cols, AllCategories)
  {
    AllPhysicalLists(cols);
    ProjectListsCategory(cols, AliasColumn);
    ProjectListsCategory(cols, VirtualColumn);
    ListsConcat(AllPhysical(cols), Project(cols, AliasColumn), cols, PhysicalCategories, {AliasColumn});
    ListsConcat(AllPhysical(cols) + Project(cols, AliasColumn), Project(cols, VirtualColumn), cols,
                PhysicalCategories + {AliasColumn}, {VirtualColumn});
    assert PhysicalCategories + {AliasColumn} + {VirtualColumn} == AllCategories;
  }

  // ---------------------------------------------------------------------------
  // ALTER TABLE ... ADD COLUMN ... AFTER, as a replica applies it

  /** A plain, non-virtual column of the given type with the default members otherwise. */
  function NewColumn<T, E, C>(name: string, dataType: T): ColumnDescription<T, E, C>
  {
    ColumnDescription(name, dataType, ColumnDefault(Default, None), "", None, None, false)
  }

  /**
   * The three plain ADD COLUMN statements of the replicated-database alter
   * test: `Added0`, `Added2`, then `Added1 AFTER Added0`. Whatever columns the
   * table had, the three land at its end in the order Added0, Added1, Added2.
   */
  lemma AlterTestColumnOrder<T, E, C>(cols: ColumnSeq<T, E, C>, t: T)
    requires UniqueNames(cols)
    requires !HasName(cols, "Added0") && !HasName(cols, "Added1") && !HasName(cols, "Added2")
    ensures Added(cols, NewColumn("Added0", t), "").Success?
    ensures var s1 := Added(cols, NewColumn("Added0", t), "").value;
      Added(s1, NewColumn("Added2", t), "").Success? &&
      var s2 := Added(s1, NewColumn("Added2", t), "").value;
      Added(s2, NewColumn<T, E, C>("Added1", t), "Added0") ==
        Success(cols + [NewColumn("Added0", t), NewColumn("Added1", t), NewColumn("Added2", t)])
  {
    var c0, c1, c2 := NewColumn<T, E, C>("Added0", t), NewColumn<T, E, C>("Added1", t), NewColumn<T, E, C>("Added2", t);
    AddedPlacesColumn(cols, c0, "");
    var s1 := cols + [c0];
    AddedKeepsNamesUnique(cols, c0, "");
    assert !HasName(s1, "Added2") && !HasName(s1, "Added1") by {
      assert forall i :: 0 <= i < |cols| ==> s1[i] == cols[i];
    }
    AddedPlacesColumn(s1, c2, "");
    AddedKeepsNamesUnique(s1, c2, "");
    var s2 := s1 + [c2];
    assert !HasName(s2, "Added1") by {
      assert forall i :: 0 <= i < |s1| ==> s2[i] == s1[i];
    }
    assert s2[|cols|] == c0;
    IndexOfUnique(s2, |cols|);
    assert Added(s2, c1, "Added0") == Success(InsertAt(s2, |cols| + 1, c1));
    assert InsertAt(s2, |cols| + 1, c1) == cols + [c0, c1, c2];
  }
}
