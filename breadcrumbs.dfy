/** `buildBreadcrumbs`: the owner-scoped walk from a folder up its parent
    chain, returning the visited folders root first. */
module Breadcrumbs {
  import opened Wrappers
  import opened FolderTable

  datatype Crumb = Crumb(id: int, name: string)

  function CrumbOf(f: Folder): Crumb
  {
    Crumb(f.id, f.name)
  }

  /** One step of the walk: the parent of `f`, looked up for the same user,
      or None when `f` has no (truthy) parent or the lookup finds nothing. */
  function NextUp(table: map<int, Folder>, userId: int, f: Folder): (r: Option<Folder>)
    ensures r.Some? <==> HasParent(f) && FindOwned(table, f.parentId.value, userId).Some?
    ensures r.Some? ==> r.value == table[f.parentId.value] && r.value.userId == userId
  {
    if HasParent(f) then FindOwned(table, f.parentId.value, userId) else None
  }

  /** A row of the table that belongs to `userId`. */
  ghost predicate OwnedRow(table: map<int, Folder>, userId: int, f: Folder)
  {
    f.id in table && table[f.id] == f && f.userId == userId
  }

  /** The walk cannot loop: along every step that a walk for `userId` can
      take, `rank` strictly decreases.  The source has no cycle guard, so this
      is what its termination rests on. */
  ghost predicate Ranked(table: map<int, Folder>, userId: int, rank: map<int, nat>)
  {
    forall k :: k in table && table[k].userId == userId ==>
      k in rank &&
      (NextUp(table, userId, table[k]).Some? ==>
         NextUp(table, userId, table[k]).value.id in rank &&
         rank[NextUp(table, userId, table[k]).value.id] < rank[k])
  }

  /** The crumbs of the walk that starts at `f`, root first. */
  ghost function Chain(table: map<int, Folder>, userId: int, rank: map<int, nat>, f: Folder): (r: seq<Crumb>)
    requires WellKeyed(table) && Ranked(table, userId, rank) && OwnedRow(table, userId, f)
    ensures |r| >= 1 && r[|r| - 1] == CrumbOf(f)
    decreases rank[f.id]
  {
    match NextUp(table, userId, f)
    case None => [CrumbOf(f)]
    case Some(p) => Chain(table, userId, rank, p) + [CrumbOf(f)]
  }

  /** What `buildBreadcrumbs(folderId, userId)` returns. */
  ghost function Trail(table: map<int, Folder>, folderId: int, userId: int, rank: map<int, nat>): (r: seq<Crumb>)
    requires WellKeyed(table) && Ranked(table, userId, rank)
    ensures r == [] <==> FindOwned(table, folderId, userId).None?
    ensures r != [] ==> r[|r| - 1] == CrumbOf(table[folderId])
  {
    match FindOwned(table, folderId, userId)
    case None => []
    case Some(f) => Chain(table, userId, rank, f)
  }

  /** `s` back to front (`Array.prototype.reverse`). */
  function Reverse<T>(s: seq<T>): (r: seq<T>)
    ensures |r| == |s|
    ensures forall i :: 0 <= i < |s| ==> r[i] == s[|s| - 1 - i]
  {
    if s == [] then [] else [s[|s| - 1]] + Reverse(s[..|s| - 1])
  }

  /** The walk itself: push each folder met on the way up, stop at a folder
      without a parent or at a failed lookup, then reverse. */
  method BuildBreadcrumbs(table: map<int, Folder>, folderId: int, userId: int, ghost rank: map<int, nat>)
    returns (crumbs: seq<Crumb>)
    requires WellKeyed(table) && Ranked(table, userId, rank)
    ensures crumbs == Trail(table, folderId, userId, rank)
  {
    var pushed: seq<Crumb> := [];
    var cur := FindOwned(table, folderId, userId);
    if cur.None? {
      return [];
    }
    while cur.Some?
      invariant cur.Some? ==> OwnedRow(table, userId, cur.value)
      invariant cur.Some? ==> Chain(table, userId, rank, cur.value) + Reverse(pushed) == Trail(table, folderId, userId, rank)
      invariant cur.None? ==> Reverse(pushed) == Trail(table, folderId, userId, rank)
      decreases if cur.Some? then rank[cur.value.id] + 1 else 0
    {
      var f := cur.value;
      WalkStep(table, userId, rank, f, pushed);
      pushed := pushed + [CrumbOf(f)];
      if !HasParent(f) {
        break;
      }
      cur := FindOwned(table, f.parentId.value, userId);
    }
    crumbs := Reverse(pushed);
  }

  /** One iteration of the walk: pushing `f` and moving to its parent keeps
      the crumbs still to come followed by the reversed stack unchanged. */
  lemma WalkStep(table: map<int, Folder>, userId: int, rank: map<int, nat>, f: Folder, pushed: seq<Crumb>)
    requires WellKeyed(table) && Ranked(table, userId, rank) && OwnedRow(table, userId, f)
    ensures Reverse(pushed + [CrumbOf(f)]) == [CrumbOf(f)] + Reverse(pushed)
    ensures NextUp(table, userId, f).None? ==>
      Chain(table, userId, rank, f) + Reverse(pushed) == Reverse(pushed + [CrumbOf(f)])
    ensures NextUp(table, userId, f).Some? ==>
      rank[NextUp(table, userId, f).value.id] < rank[f.id] &&
      Chain(table, userId, rank, f) + Reverse(pushed) ==
        Chain(table, userId, rank, NextUp(table, userId, f).value) + Reverse(pushed + [CrumbOf(f)])
  {
    assert (pushed + [CrumbOf(f)])[..|pushed|] == pushed;
    assert table[f.id] == f;
  }

  // Properties of the walk

  /** A folder with no truthy parent (`null` or `0`) yields exactly itself. */
  lemma RootTrail(table: map<int, Folder>, folderId: int, userId: int, rank: map<int, nat>)
    requires WellKeyed(table) && Ranked(table, userId, rank)
    requires FindOwned(table, folderId, userId).Some? && !HasParent(table[folderId])
    ensures Trail(table, folderId, userId, rank) == [CrumbOf(table[folderId])]
  {
  }

  /** Every crumb is an owned row of the table; each crumb is the stored
      parent of the one after it; and the first crumb is where the walk
      stopped: a folder with no parent, or one whose parent is missing or
      belongs to another user (a truncated path). */
  lemma {:induction false} ChainShape(table: map<int, Folder>, userId: int, rank: map<int, nat>, f: Folder)
    requires WellKeyed(table) && Ranked(table, userId, rank) && OwnedRow(table, userId, f)
    ensures var r := Chain(table, userId, rank, f);
      (forall i :: 0 <= i < |r| ==>
         r[i].id in table && table[r[i].id].userId == userId && CrumbOf(table[r[i].id]) == r[i]) &&
      (forall i :: 0 <= i < |r| - 1 ==>
         NextUp(table, userId, table[r[i + 1].id]) == Some(table[r[i].id])) &&
      NextUp(table, userId, table[r[0].id]).None?
    decreases rank[f.id]
  {
    match NextUp(table, userId, f)
    case None =>
    case Some(p) =>
      ChainShape(table, userId, rank, p);
      var q := Chain(table, userId, rank, p);
      var r := Chain(table, userId, rank, f);
      assert r == q + [CrumbOf(f)];
      assert r[|r| - 2] == CrumbOf(p);
  }

  /** Along the path the rank strictly increases, root first. */
  lemma {:induction false} ChainRankIncreasing(table: map<int, Folder>, userId: int, rank: map<int, nat>, f: Folder)
    requires WellKeyed(table) && Ranked(table, userId, rank) && OwnedRow(table, userId, f)
    ensures RanksBelow(Chain(table, userId, rank, f), rank, rank[f.id])
    ensures RanksIncrease(Chain(table, userId, rank, f), rank)
    decreases rank[f.id]
  {
    match NextUp(table, userId, f)
    case None =>
    case Some(p) =>
      ChainRankIncreasing(table, userId, rank, p);
      assert table[f.id] == f;
      assert f.id in rank && rank[p.id] < rank[f.id];
      var q := Chain(table, userId, rank, p);
      var r := Chain(table, userId, rank, f);
      assert r == q + [CrumbOf(f)];
      assert forall i :: 0 <= i < |q| ==> r[i] == q[i];
      assert r[|r| - 1] == CrumbOf(f);
      forall i, j | 0 <= i < j < |r| ensures rank[r[i].id] < rank[r[j].id] {
        if j < |q| {
          assert rank[q[i].id] < rank[q[j].id];
        } else {
          assert rank[q[i].id] <= rank[p.id];
        }
      }
  }

  ghost predicate RanksBelow(r: seq<Crumb>, rank: map<int, nat>, top: nat)
  {
    forall i :: 0 <= i < |r| ==> r[i].id in rank && rank[r[i].id] <= top
  }

  ghost predicate RanksIncrease(r: seq<Crumb>, rank: map<int, nat>)
  {
    forall i, j :: 0 <= i < j < |r| ==> r[i].id in rank && r[j].id in rank && rank[r[i].id] < rank[r[j].id]
  }

  /** The crumbs of a sequence of folders. */
  function CrumbsOf(fs: seq<Folder>): (r: seq<Crumb>)
    ensures |r| == |fs| && forall i :: 0 <= i < |fs| ==> r[i] == CrumbOf(fs[i])
  {
    if fs == [] then [] else CrumbsOf(fs[..|fs| - 1]) + [CrumbOf(fs[|fs| - 1])]
  }

  /** A root-to-target chain of owned folders, each the stored parent of the
      next, starting where no parent can be followed. */
  ghost predicate IsOwnedChain(table: map<int, Folder>, userId: int, fs: seq<Folder>)
  {
    |fs| >= 1 &&
    (forall i :: 0 <= i < |fs| ==> OwnedRow(table, userId, fs[i])) &&
    (forall i :: 0 <= i < |fs| - 1 ==> NextUp(table, userId, fs[i + 1]) == Some(fs[i])) &&
    NextUp(table, userId, fs[0]).None?
  }

  /** Conversely, such a chain is exactly what the walk returns: for folders
      F0 -> F1 -> ... -> Fn the breadcrumbs of Fn are [F0, F1, ..., Fn]. */
  lemma {:induction false} ChainOfOwnedChain(table: map<int, Folder>, userId: int, rank: map<int, nat>, fs: seq<Folder>)
    requires WellKeyed(table) && Ranked(table, userId, rank) && IsOwnedChain(table, userId, fs)
    ensures Chain(table, userId, rank, fs[|fs| - 1]) == CrumbsOf(fs)
    decreases |fs|
  {
    var f := fs[|fs| - 1];
    if |fs| > 1 {
      var front := fs[..|fs| - 1];
      assert IsOwnedChain(table, userId, front) by {
        assert forall i :: 0 <= i < |front| ==> front[i] == fs[i];
      }
      ChainOfOwnedChain(table, userId, rank, front);
      assert NextUp(table, userId, f) == Some(fs[|fs| - 2]);
    }
  }

  /** The breadcrumbs of a folder are those of the unique owned chain ending there. */
  lemma TrailOfOwnedChain(table: map<int, Folder>, userId: int, rank: map<int, nat>, fs: seq<Folder>)
    requires WellKeyed(table) && Ranked(table, userId, rank) && IsOwnedChain(table, userId, fs)
    ensures Trail(table, fs[|fs| - 1].id, userId, rank) == CrumbsOf(fs)
  {
    ChainOfOwnedChain(table, userId, rank, fs);
  }

  /** Non-empty breadcrumbs describe owned folders, each the stored parent of
      the next, starting at a true root or at a truncation point. */
  lemma TrailShape(table: map<int, Folder>, folderId: int, userId: int, rank: map<int, nat>)
    requires WellKeyed(table) && Ranked(table, userId, rank)
    requires FindOwned(table, folderId, userId).Some?
    ensures var r := Trail(table, folderId, userId, rank);
      |r| >= 1 &&
      (forall i :: 0 <= i < |r| ==>
         r[i].id in table && table[r[i].id].userId == userId && CrumbOf(table[r[i].id]) == r[i]) &&
      (forall i :: 0 <= i < |r| - 1 ==>
         NextUp(table, userId, table[r[i + 1].id]) == Some(table[r[i].id])) &&
      (!HasParent(table[r[0].id]) || FindOwned(table, table[r[0].id].parentId.value, userId).None?)
  {
    ChainShape(table, userId, rank, table[folderId]);
  }

  /** On a ranked table the breadcrumbs repeat no folder, so there are at most
      as many as the user owns folders. */
  lemma TrailBounded(table: map<int, Folder>, folderId: int, userId: int, rank: map<int, nat>)
    requires WellKeyed(table) && Ranked(table, userId, rank)
    ensures var r := Trail(table, folderId, userId, rank);
      (forall i, j :: 0 <= i < j < |r| ==> r[i].id != r[j].id) &&
      |r| <= |OwnedIds(table, userId)|
  {
    var r := Trail(table, folderId, userId, rank);
    if r != [] {
      ChainShape(table, userId, rank, table[folderId]);
      ChainRankIncreasing(table, userId, rank, table[folderId]);
      var ids := IdsOf(r);
      DistinctIdsCount(r);
      assert ids <= OwnedIds(table, userId);
      SubsetCardinality(ids, OwnedIds(table, userId));
    }
  }

  function IdsOf(r: seq<Crumb>): set<int>
  {
    set i | 0 <= i < |r| :: r[i].id
  }

  lemma {:induction false} DistinctIdsCount(r: seq<Crumb>)
    requires forall i, j :: 0 <= i < j < |r| ==> r[i].id != r[j].id
    ensures |IdsOf(r)| == |r|
    decreases |r|
  {
    if r != [] {
      var front := r[..|r| - 1];
      DistinctIdsCount(front);
      assert IdsOf(r) == IdsOf(front) + {r[|r| - 1].id} by {
        forall x | x in IdsOf(r) ensures x in IdsOf(front) + {r[|r| - 1].id} {
          var i :| 0 <= i < |r| && r[i].id == x;
          if i < |r| - 1 { assert front[i] == r[i]; }
        }
      }
      assert r[|r| - 1].id !in IdsOf(front);
    }
  }

  lemma SubsetCardinality(a: set<int>, b: set<int>)
    requires a <= b
    ensures |a| <= |b|
  {
    assert b == a + (b - a);
  }
}
