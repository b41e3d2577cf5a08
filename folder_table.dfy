/** The folder table that the folder routes change and the breadcrumb walk
    reads: rows keyed by their primary key `id`. */
module FolderTable {
  import opened Wrappers

  datatype Folder = Folder(id: int, name: string, userId: int, parentId: Option<int>)

  /** The table is keyed by each row's own id (the primary key). */
  ghost predicate WellKeyed(table: map<int, Folder>)
  {
    forall k :: k in table ==> table[k].id == k
  }

  /** `findFirst({ where: { id, userId } })`: the row with that id, provided
      it belongs to that user. */
  function FindOwned(table: map<int, Folder>, id: int, userId: int): (r: Option<Folder>)
    ensures r.Some? <==> id in table && table[id].userId == userId
    ensures r.Some? ==> r.value == table[id]
  {
    if id in table && table[id].userId == userId then Some(table[id]) else None
  }

  /** `row` is stored in the table, under some key. */
  ghost predicate IsRow(table: map<int, Folder>, row: Folder)
  {
    exists k :: k in table && table[k] == row
  }

  /** On a table keyed by its rows' ids, the keyed lookup is the `where`
      clause over the rows: it finds exactly the row with that id and owner. */
  lemma FindOwnedWhere(table: map<int, Folder>, id: int, userId: int, row: Folder)
    requires WellKeyed(table)
    ensures FindOwned(table, id, userId) == Some(row) <==>
      IsRow(table, row) && row.id == id && row.userId == userId
  {
    if IsRow(table, row) && row.id == id && row.userId == userId {
      var k :| k in table && table[k] == row;
      assert k == id;
    }
  }

  /** A `parentId` is followed only when it is truthy: `null` and `0` both
      mean "no parent". */
  predicate HasParent(f: Folder)
  {
    f.parentId.Some? && f.parentId.value != 0
  }

  /** The ids of the folders whose parent is `id` (Prisma's `children`
      relation, which is not owner-scoped). */
  function ChildIds(table: map<int, Folder>, id: int): (ids: set<int>)
    ensures forall k :: k in ids <==> k in table && table[k].parentId == Some(id)
  {
    set k | k in table && table[k].parentId == Some(id)
  }

  /** The ids of all folders that belong to `userId`. */
  function OwnedIds(table: map<int, Folder>, userId: int): (ids: set<int>)
    ensures forall k :: k in ids <==> k in table && table[k].userId == userId
  {
    set k | k in table && table[k].userId == userId
  }
}
