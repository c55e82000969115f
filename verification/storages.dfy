/**
 * The table schema object `ColumnsDescription`: a container of columns that
 * keeps their sequence and can be searched by name. The container is a
 * sequence whose names are pairwise distinct; the mutators change it in
 * place and the queries only read it.
 */
module Storages {
  import opened Wrappers
  import opened Columns

  class ColumnsDescription<T(==), E(==), C(==)> {
    /** The container's sequenced index: the columns in table order. */
    var columns: ColumnSeq<T, E, C>

    /** The container's second index is unique on the name. */
    ghost predicate Valid()
      reads this
    {
      UniqueNames(columns)
    }

    /** The default constructor: a description without columns. */
    constructor ()
      ensures Valid() && columns == []
    {
      columns := [];
    }

    // -------------------------------------------------------------------------
    // Mutators

    /**
     * `add(column, after_column)`. Refused when the name is taken, or when
     * `after_column` is not empty and names no column; then nothing changes.
     */
    method Add(column: ColumnDescription<T, E, C>, afterColumn: string) returns (outcome: Outcome<ColumnsError>)
      requires Valid()
      modifies this
      ensures Valid()
      ensures match Added(old(columns), column, afterColumn)
        case Success(cols) => outcome == Pass && columns == cols
        case Failure(e) => outcome == Fail(e) && columns == old(columns)
    {
      if IndexOf(columns, column.name).Some? {
        return Fail(ColumnAlreadyExists(column.name));
      }
      var position := |columns|;
      if afterColumn != "" {
        match IndexOf(columns, afterColumn)
        case None =>
          return Fail(NoColumnToInsertAfter(afterColumn));
        case Some(i) =>
          position := i + 1;
      }
      AddedKeepsNamesUnique(columns, column, afterColumn);
      columns := InsertAt(columns, position, column);
      outcome := Pass;
    }

    /** `remove(column_name)`. Refused, with nothing changed, when no column has that name. */
    method Remove(name: string) returns (outcome: Outcome<ColumnsError>)
      requires Valid()
      modifies this
      ensures Valid()
      ensures match Removed(old(columns), name)
        case Success(cols) => outcome == Pass && columns == cols
        case Failure(e) => outcome == Fail(e) && columns == old(columns)
    {
      match IndexOf(columns, name)
      case None =>
        outcome := Fail(NoSuchColumn(name));
      case Some(i) =>
        RemovedDropsOnlyThatColumn(columns, name);
        columns := DeleteAt(columns, i);
        outcome := Pass;
    }

    /**
     * `modify(column_name, f)`: edits the named column in place through the
     * name index. When the edited name belongs to another column the index
     * refuses the edit; what then becomes of the column is left open.
     */
    method Modify(name: string, f: ColumnDescription<T, E, C> -> ColumnDescription<T, E, C>)
      returns (outcome: Outcome<ColumnsError>)
      requires Valid()
      modifies this
      ensures Valid()
      ensures match Modified(old(columns), name, f)
        case Success(cols) => outcome == Pass && columns == cols
        case Failure(e) => outcome == Fail(e) && (e.CannotFindColumn? ==> columns == old(columns))
    {
      var found := IndexOf(columns, name);
      if found.None? {
        return Fail(CannotFindColumn(name));
      }
      var i := found.value;
      var edited := f(columns[i]);
      if IndexOf(DeleteAt(columns, i), edited.name).Some? {
        return Fail(NameCannotBeChanged(name));
      }
      ModifiedKeepsNamesUnique(columns, name, f);
      columns := columns[i := edited];
      outcome := Pass;
    }

    // -------------------------------------------------------------------------
    // Queries

    /** `begin()`/`end()`: the columns in sequence order; looking each up by name finds it. */
    function Elements(): (r: ColumnSeq<T, E, C>)
      reads this
      requires Valid()
      ensures r == columns
      ensures UniqueNames(r)
      ensures forall i :: 0 <= i < |r| ==> Get(r[i].name) == Success(r[i])
    {
      IndexOfFindsEveryColumn(columns);
      columns
    }

    /** `has(column_name)`. */
    function Has(name: string): (r: bool)
      reads this
      ensures r <==> exists i :: 0 <= i < |columns| && columns[i].name == name
    {
      IndexOf(columns, name).Some?
    }

    /** `get(column_name)`: the one column with that name, or an error if there is none. */
    function Get(name: string): (r: Result<ColumnDescription<T, E, C>, ColumnsError>)
      reads this
      requires Valid()
      ensures r.Success? <==> Has(name)
      ensures r.Failure? ==> r.error == NoSuchColumn(name)
      ensures forall i :: 0 <= i < |columns| && columns[i].name == name ==> r == Success(columns[i])
    {
      match IndexOf(columns, name)
      case None => Failure(NoSuchColumn(name))
      case Some(i) =>
        IndexOfUnique(columns, i);
        Success(columns[i])
    }

    /** `operator==`: the two column sequences agree element by element, order included. */
    function Equals(other: ColumnsDescription<T, E, C>): (r: bool)
      reads this, other
      ensures r <==> columns == other.columns
    {
      SequenceEquals(columns, other.columns)
    }

    /** `operator!=`: the negation of `==`. */
    function NotEquals(other: ColumnsDescription<T, E, C>): (r: bool)
      reads this, other
      ensures r <==> columns != other.columns
    {
      !Equals(other)
    }

    /** `getOrdinary()`: the columns of default kind DEFAULT that are not virtual, each once, in table order. */
    function GetOrdinary(): (r: seq<NameAndTypePair<T>>)
      reads this
      ensures ListsInOrder(r, columns, Ordinary)
      ensures Lists(r, columns, {Ordinary})
    {
      ProjectInOrder(columns, Ordinary);
      InOrderLists(Project(columns, Ordinary), columns, Ordinary);
      Project(columns, Ordinary)
    }

    /** `getMaterialized()`: the MATERIALIZED columns that are not virtual, each once, in table order. */
    function GetMaterialized(): (r: seq<NameAndTypePair<T>>)
      reads this
      ensures ListsInOrder(r, columns, MaterializedColumn)
      ensures Lists(r, columns, {MaterializedColumn})
    {
      ProjectInOrder(columns, MaterializedColumn);
      InOrderLists(Project(columns, MaterializedColumn), columns, MaterializedColumn);
      Project(columns, MaterializedColumn)
    }

    /** `getAliases()`: the ALIAS columns that are not virtual, each once, in table order. */
    function GetAliases(): (r: seq<NameAndTypePair<T>>)
      reads this
      ensures ListsInOrder(r, columns, AliasColumn)
      ensures Lists(r, columns, {AliasColumn})
    {
      ProjectInOrder(columns, AliasColumn);
      InOrderLists(Project(columns, AliasColumn), columns, AliasColumn);
      Project(columns, AliasColumn)
    }

    /** `getVirtuals()`: the virtual columns, each once, in table order. */
    function GetVirtuals(): (r: seq<NameAndTypePair<T>>)
      reads this
      ensures ListsInOrder(r, columns, VirtualColumn)
      ensures Lists(r, columns, {VirtualColumn})
    {
      ProjectInOrder(columns, VirtualColumn);
      InOrderLists(Project(columns, VirtualColumn), columns, VirtualColumn);
      Project(columns, VirtualColumn)
    }

    /** `getAllPhysical()`: ordinary + materialized, that is, every column that is neither an alias nor virtual. */
    function GetAllPhysical(): (r: seq<NameAndTypePair<T>>)
      reads this
      ensures r == GetOrdinary() + GetMaterialized()
      ensures Lists(r, columns, PhysicalCategories)
    {
      AllPhysicalLists(columns);
      AllPhysical(columns)
    }

    /** `getAll()`: ordinary + materialized + aliases + virtuals, which lists every column exactly once. */
    function GetAll(): (r: seq<NameAndTypePair<T>>)
      reads this
      ensures r == GetAllPhysical() + GetAliases() + GetVirtuals()
      ensures multiset(r) == multiset(Pairs(columns))
    {
      AllIsPermutationOfColumns(columns);
      All(columns)
    }
  }
}
