/** The folder routes: create, show, rename and delete, as operations on the
    folder table of one signed-in session. */
module Folders {
  import opened Wrappers
  import opened Text
  import opened FolderTable
  import Breadcrumbs

  /** The validator's message for a name that, after trimming, has no
      character that `isLength` counts. */
  const NameRequired: string := "Folder name is required"

  /** Where a handler redirects to. */
  datatype Location =
    | Back               // `res.redirect("back")`
    | Home               // `/`
    | FolderPage(id: int) // `/folders/<id>`

  /** The outcome of a handler, as a value instead of an HTTP response. */
  datatype Response =
    | Redirect(to: Location)
    | NotFound
    | Show(folder: Folder, children: set<int>, breadcrumbs: seq<Breadcrumbs.Crumb>, error: Option<string>)
    /** The database call threw (no row with that id): the handler ends
        without a response of its own. */
    | Failure

  class FolderRoutes {
    /** The folder table, keyed by id. */
    var folders: map<int, Folder>
    /** The next auto-incremented primary key. */
    var nextId: int
    /** `req.session.createFolderError`. */
    var createFolderError: Option<string>

    ghost predicate Valid()
      reads this
    {
      WellKeyed(folders) && 1 <= nextId && forall k :: k in folders ==> k < nextId
    }

    constructor ()
      ensures Valid() && folders == map[] && nextId == 1 && createFolderError == None
    {
      folders, nextId, createFolderError := map[], 1, None;
    }

    /** `POST /folders`.  `parentId` is the parsed form field: None when it is
        absent or empty.  The parent is neither checked to exist nor to belong
        to the caller. */
    method Create(name: string, parentId: Option<int>, userId: int) returns (r: Response)
      requires Valid()
      modifies this
      ensures Valid()
      ensures CountedLength(Trim(name)) == 0 ==>
        r == Redirect(Back) && createFolderError == Some(NameRequired) &&
        folders == old(folders) && nextId == old(nextId)
      ensures CountedLength(Trim(name)) != 0 ==>
        old(nextId) !in old(folders) &&
        folders == old(folders)[old(nextId) := Folder(old(nextId), Trim(name), userId, parentId)] &&
        nextId == old(nextId) + 1 && createFolderError == old(createFolderError) &&
        r == Redirect(if parentId.Some? then FolderPage(parentId.value) else Home)
    {
      var n := Trim(name);
      if CountedLength(n) == 0 {
        createFolderError := Some(NameRequired);
        r := Redirect(Back);
        return;
      }
      folders := folders[nextId := Folder(nextId, n, userId, parentId)];
      nextId := nextId + 1;
      r := Redirect(if parentId.Some? then FolderPage(parentId.value) else Home);
    }

    /** `GET /folders/:id`: the folder, its children and its breadcrumbs, when
        the caller owns it; the pending create error is shown once and cleared.
        Only the branch that walks the breadcrumbs needs the walk to be ranked. */
    method ShowFolder(id: int, userId: int, ghost rank: map<int, nat>) returns (r: Response)
      requires Valid()
      requires FindOwned(folders, id, userId).Some? ==> Breadcrumbs.Ranked(folders, userId, rank)
      modifies this`createFolderError
      ensures Valid()
      ensures FindOwned(folders, id, userId).None? ==>
        r == NotFound && createFolderError == old(createFolderError)
      ensures FindOwned(folders, id, userId).Some? ==>
        r == Show(folders[id], ChildIds(folders, id), Breadcrumbs.Trail(folders, id, userId, rank), old(createFolderError)) &&
        createFolderError == None
    {
      var found := FindOwned(folders, id, userId);
      if found.None? {
        return NotFound;
      }
      var crumbs := Breadcrumbs.BuildBreadcrumbs(folders, id, userId, rank);
      r := Show(found.value, ChildIds(folders, id), crumbs, createFolderError);
      createFolderError := None;
    }

    /** `POST /folders/:id/rename`: stores the trimmed name, even an empty one
        (the validation result is never read), whoever `userId` is. */
    method Rename(id: int, name: string, userId: int) returns (r: Response)
      requires Valid()
      modifies this`folders
      ensures Valid()
      ensures id !in old(folders) ==> r == Failure && folders == old(folders)
      ensures id in old(folders) ==>
        r == Redirect(FolderPage(id)) &&
        folders == old(folders)[id := old(folders)[id].(name := Trim(name))]
    {
      if id !in folders {
        return Failure;
      }
      folders := folders[id := folders[id].(name := Trim(name))];
      r := Redirect(FolderPage(id));
    }

    /** `POST /folders/:id/delete`: removes the row, whoever `userId` is. */
    method Delete(id: int, userId: int) returns (r: Response)
      requires Valid()
      modifies this`folders
      ensures Valid()
      ensures id !in old(folders) ==> r == Failure && folders == old(folders)
      ensures id in old(folders) ==> r == Redirect(Home) && folders == old(folders) - {id}
    {
      if id !in folders {
        return Failure;
      }
      folders := folders - {id};
      r := Redirect(Home);
    }
  }

  // How the table operations interact with breadcrumbs

  /** Renaming changes no parent link, so the walk stays ranked and visits the
      same folders; only the renamed crumb's name changes. */
  lemma RenameKeepsTrail(table: map<int, Folder>, id: int, name: string, folderId: int, userId: int, rank: map<int, nat>)
    requires WellKeyed(table) && Breadcrumbs.Ranked(table, userId, rank) && id in table
    ensures var renamed := table[id := table[id].(name := name)];
      WellKeyed(renamed) && Breadcrumbs.Ranked(renamed, userId, rank) &&
      var before := Breadcrumbs.Trail(table, folderId, userId, rank);
      var after := Breadcrumbs.Trail(renamed, folderId, userId, rank);
      |after| == |before| &&
      forall i :: 0 <= i < |before| ==>
        after[i].id == before[i].id && after[i].name == (if before[i].id == id then name else before[i].name)
  {
    var renamed := table[id := table[id].(name := name)];
    assert forall k :: k in table ==>
      (Breadcrumbs.NextUp(renamed, userId, renamed[k]).Some? <==> Breadcrumbs.NextUp(table, userId, table[k]).Some?);
    if FindOwned(table, folderId, userId).Some? {
      RenameKeepsChain(table, id, name, userId, rank, table[folderId]);
    }
  }

  lemma {:induction false} RenameKeepsChain(table: map<int, Folder>, id: int, name: string, userId: int, rank: map<int, nat>, f: Folder)
    requires WellKeyed(table) && Breadcrumbs.Ranked(table, userId, rank) && id in table
    requires Breadcrumbs.OwnedRow(table, userId, f)
    requires var renamed := table[id := table[id].(name := name)];
      WellKeyed(renamed) && Breadcrumbs.Ranked(renamed, userId, rank)
    ensures var renamed := table[id := table[id].(name := name)];
      var before := Breadcrumbs.Chain(table, userId, rank, f);
      var after := Breadcrumbs.Chain(renamed, userId, rank, renamed[f.id]);
      |after| == |before| &&
      forall i :: 0 <= i < |before| ==>
        after[i].id == before[i].id && after[i].name == (if before[i].id == id then name else before[i].name)
    decreases rank[f.id]
  {
    var renamed := table[id := table[id].(name := name)];
    var g := renamed[f.id];
    assert Breadcrumbs.NextUp(renamed, userId, g).Some? <==> Breadcrumbs.NextUp(table, userId, f).Some?;
    match Breadcrumbs.NextUp(table, userId, f)
    case None =>
    case Some(p) =>
      assert f.id in table && table[f.id].userId == userId;
      RenameKeepsChain(table, id, name, userId, rank, p);
      assert Breadcrumbs.NextUp(renamed, userId, g) == Some(renamed[p.id]);
      var before := Breadcrumbs.Chain(table, userId, rank, f);
      var after := Breadcrumbs.Chain(renamed, userId, rank, g);
      assert before == Breadcrumbs.Chain(table, userId, rank, p) + [Breadcrumbs.CrumbOf(f)];
      assert after == Breadcrumbs.Chain(renamed, userId, rank, renamed[p.id]) + [Breadcrumbs.CrumbOf(g)];
  }

  /** Deleting a row keeps every remaining walk ranked. */
  lemma DeleteKeepsRanked(table: map<int, Folder>, id: int, userId: int, rank: map<int, nat>)
    requires WellKeyed(table) && Breadcrumbs.Ranked(table, userId, rank)
    ensures WellKeyed(table - {id}) && Breadcrumbs.Ranked(table - {id}, userId, rank)
  {
    var t := table - {id};
    forall k | k in t && t[k].userId == userId
      ensures k in rank &&
        (Breadcrumbs.NextUp(t, userId, t[k]).Some? ==>
           Breadcrumbs.NextUp(t, userId, t[k]).value.id in rank &&
           rank[Breadcrumbs.NextUp(t, userId, t[k]).value.id] < rank[k])
    {
      assert t[k] == table[k];
      if Breadcrumbs.NextUp(t, userId, t[k]).Some? {
        assert Breadcrumbs.NextUp(t, userId, t[k]) == Breadcrumbs.NextUp(table, userId, table[k]);
      }
    }
  }

  /** A folder created as its own parent, which the create route accepts,
      leaves its owner's walk with no ranking: the walk from it never ends. */
  lemma SelfParentUnranked(table: map<int, Folder>, newId: int, name: string, userId: int, rank: map<int, nat>)
    requires newId != 0
    ensures !Breadcrumbs.Ranked(table[newId := Folder(newId, name, userId, Some(newId))], userId, rank)
  {
    var f := Folder(newId, name, userId, Some(newId));
    var t := table[newId := f];
    assert Breadcrumbs.NextUp(t, userId, t[newId]) == Some(f);
  }

  /** A create keeps the walk ranked when no existing row already names the
      new id as its parent and the new row is not its own parent; the new
      folder ranks just above its parent. */
  lemma CreateKeepsRanked(table: map<int, Folder>, newId: int, name: string, owner: int, parentId: Option<int>, userId: int, rank: map<int, nat>)
    requires WellKeyed(table) && Breadcrumbs.Ranked(table, userId, rank) && newId !in table
    requires forall k :: k in table ==> table[k].parentId != Some(newId)
    requires parentId != Some(newId)
    ensures var f := Folder(newId, name, owner, parentId);
      var t := table[newId := f];
      var up := Breadcrumbs.NextUp(t, userId, f);
      WellKeyed(t) &&
      Breadcrumbs.Ranked(t, userId, rank[newId := if up.Some? && up.value.id in rank then rank[up.value.id] + 1 else 0])
  {
    var f := Folder(newId, name, owner, parentId);
    var t := table[newId := f];
    var up := Breadcrumbs.NextUp(t, userId, f);
    var rank' := rank[newId := if up.Some? && up.value.id in rank then rank[up.value.id] + 1 else 0];
    forall k | k in t && t[k].userId == userId
      ensures k in rank' &&
        (Breadcrumbs.NextUp(t, userId, t[k]).Some? ==>
           Breadcrumbs.NextUp(t, userId, t[k]).value.id in rank' &&
           rank'[Breadcrumbs.NextUp(t, userId, t[k]).value.id] < rank'[k])
    {
      if k == newId {
        if up.Some? {
          assert up.value == table[parentId.value];
          assert up.value.id in rank;
        }
      } else {
        assert t[k] == table[k];
        assert Breadcrumbs.NextUp(t, userId, t[k]) == Breadcrumbs.NextUp(table, userId, table[k]);
      }
    }
  }
}
