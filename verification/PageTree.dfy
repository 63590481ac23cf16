/**
 The page hierarchy of src/db.rs: the hop-bounded walk up the parents, which
 must end on every graph, and the guard against cycles that is built on it.
 A tree is the parent column of the pages of one organization.
 */
module PageTree {
  import opened Common

  type Id = int
  type Pages = map<Id, Option<Id>>

  const MAX_ANCESTOR_HOPS := 128

  // ---------------------------------------------------------------------
  // The walk
  // ---------------------------------------------------------------------

  /** What `hops` rounds of the walk add to the chain, outermost page first. */
  function Walk(ps: Pages, id: Id, current: Id, hops: nat): seq<Id>
    decreases hops, current
  {
    if hops == 0 || current !in ps then []
    else
      var own := if current != id then [current] else [];
      if ps[current].Some? && ps[current].value != current
      then Walk(ps, id, ps[current].value, hops - 1) + own
      else own
  }

  function Chain(ps: Pages, id: Id): seq<Id> {
    Walk(ps, id, id, MAX_ANCESTOR_HOPS)
  }

  method Ancestors(ps: Pages, id: Id) returns (chain: seq<Id>)
    ensures chain == Chain(ps, id)
  {
    chain := [];
    var current := id;
    for hop := 0 to MAX_ANCESTOR_HOPS
      invariant Walk(ps, id, current, MAX_ANCESTOR_HOPS - hop) + chain == Chain(ps, id)
    {
      if current !in ps {
        break;
      }
      ghost var before := chain;
      if current != id {
        chain := [current] + chain;
      }
      match ps[current] {
        case Some(parent) =>
          if parent == current {
            break;
          }
          assert Walk(ps, id, parent, MAX_ANCESTOR_HOPS - hop - 1) + chain
              == Walk(ps, id, current, MAX_ANCESTOR_HOPS - hop) + before;
          current := parent;
        case None =>
          break;
      }
    }
  }

  lemma {:induction false} WalkIsBounded(ps: Pages, id: Id, current: Id, hops: nat)
    ensures id !in Walk(ps, id, current, hops)
    ensures |Walk(ps, id, current, hops)| <= hops
    ensures current == id && hops > 0 ==> |Walk(ps, id, current, hops)| <= hops - 1
    decreases hops
  {
    if hops > 0 && current in ps && ps[current].Some? && ps[current].value != current {
      WalkIsBounded(ps, id, ps[current].value, hops - 1);
    }
  }

  /** On every graph, cyclic or not, the walk ends with at most 127 entries, never the page itself. */
  lemma AncestorsAreBounded(ps: Pages, id: Id)
    ensures |Chain(ps, id)| <= 127 && id !in Chain(ps, id)
  {
    WalkIsBounded(ps, id, id, MAX_ANCESTOR_HOPS);
  }

  // ---------------------------------------------------------------------
  // The reference: the true ancestors of a page
  // ---------------------------------------------------------------------

  function ParentOf(ps: Pages, id: Id): Option<Id> {
    if id in ps && ps[id].Some? && ps[id].value in ps then ps[id] else None
  }

  /** The page `k` levels up. */
  function Up(ps: Pages, id: Id, k: nat): Option<Id>
    decreases k, id
  {
    if id !in ps then None
    else if k == 0 then Some(id)
    else if ParentOf(ps, id).None? then None
    else Up(ps, ParentOf(ps, id).value, k - 1)
  }

  /** No page is its own ancestor. */
  ghost predicate Acyclic(ps: Pages) {
    forall id: Id, k: nat :: 1 <= k ==> Up(ps, id, k) != Some(id)
  }

  lemma {:induction false} UpAdds(ps: Pages, id: Id, j: nat, k: nat)
    requires Up(ps, id, j).Some?
    ensures Up(ps, id, j + k) == Up(ps, Up(ps, id, j).value, k)
    decreases j
  {
    if j > 0 {
      UpAdds(ps, ParentOf(ps, id).value, j - 1, k);
    }
  }

  /** The walk from a page above `id` follows the true ancestors for as long as it has hops. */
  lemma {:induction false} WalkFollowsAncestors(ps: Pages, id: Id, current: Id, hops: nat)
    requires Acyclic(ps) && forall k: nat :: Up(ps, current, k) != Some(id)
    ensures var w := Walk(ps, id, current, hops);
            && |w| <= hops
            && (forall k :: 0 <= k < |w| ==> Up(ps, current, k) == Some(w[|w| - 1 - k]))
            && (|w| < hops ==> Up(ps, current, |w|) == None)
    decreases hops
  {
    if hops > 0 && current in ps {
      assert Up(ps, current, 0) == Some(current);
      assert Up(ps, current, 1) != Some(current);
      if ps[current].Some? && ps[current].value != current {
        var parent := ps[current].value;
        forall k: nat ensures Up(ps, parent, k) != Some(id) {
          assert Up(ps, current, k + 1) != Some(id);
        }
        WalkFollowsAncestors(ps, id, parent, hops - 1);
        var w, above := Walk(ps, id, current, hops), Walk(ps, id, parent, hops - 1);
        assert w == above + [current];
        forall k | 0 <= k < |w| ensures Up(ps, current, k) == Some(w[|w| - 1 - k]) {
          if k > 0 {
            assert Up(ps, current, k) == Up(ps, parent, k - 1);
          }
        }
      } else {
        assert Up(ps, current, 1) == None;
      }
    }
  }

  /**
   On a forest, the chain is the page's nearest ancestors, outermost first:
   all of them, or the nearest 127.
   */
  lemma AncestorsAreNearest(ps: Pages, id: Id)
    requires Acyclic(ps) && id in ps
    ensures var chain := Chain(ps, id);
            && (forall k :: 1 <= k <= |chain| ==> Up(ps, id, k) == Some(chain[|chain| - k]))
            && (|chain| == 127 || Up(ps, id, |chain| + 1) == None)
  {
    var chain := Chain(ps, id);
    assert Up(ps, id, 1) != Some(id);
    if ps[id].Some? && ps[id].value != id {
      var parent := ps[id].value;
      forall k: nat ensures Up(ps, parent, k) != Some(id) {
        assert Up(ps, id, k + 1) != Some(id);
      }
      WalkFollowsAncestors(ps, id, parent, 127);
      assert chain == Walk(ps, id, parent, 127);
      if parent in ps {
        forall k | 1 <= k <= |chain| ensures Up(ps, id, k) == Some(chain[|chain| - k]) {
          assert Up(ps, id, k) == Up(ps, parent, k - 1);
        }
      } else {
        assert chain == [];
      }
    }
  }

  lemma LevelOfMember(ps: Pages, id: Id, other: Id) returns (k: nat)
    requires Acyclic(ps) && id in ps && other in Chain(ps, id)
    ensures 1 <= k <= 127 && Up(ps, id, k) == Some(other)
  {
    AncestorsAreNearest(ps, id);
    AncestorsAreBounded(ps, id);
    var chain := Chain(ps, id);
    var i :| 0 <= i < |chain| && chain[i] == other;
    k := |chain| - i;
    assert chain[|chain| - k] == other;
  }

  lemma MemberAtLevel(ps: Pages, id: Id, k: nat)
    requires Acyclic(ps) && id in ps && 1 <= k <= 127 && Up(ps, id, k).Some?
    ensures Up(ps, id, k).value in Chain(ps, id)
  {
    AncestorsAreNearest(ps, id);
    var chain := Chain(ps, id);
    if k > |chain| {
      NoneStaysNone(ps, id, |chain| + 1, k);
    } else {
      assert Up(ps, id, k) == Some(chain[|chain| - k]);
    }
  }

  /** On a forest, the chain holds exactly the pages 1 to 127 levels up. */
  lemma ChainMembers(ps: Pages, id: Id, other: Id)
    requires Acyclic(ps) && id in ps
    ensures other in Chain(ps, id) <==> exists k: nat :: 1 <= k <= 127 && Up(ps, id, k) == Some(other)
  {
    if other in Chain(ps, id) {
      var k := LevelOfMember(ps, id, other);
      assert 1 <= k <= 127 && Up(ps, id, k) == Some(other);
    }
    if k: nat :| 1 <= k <= 127 && Up(ps, id, k) == Some(other) {
      MemberAtLevel(ps, id, k);
    }
  }

  lemma {:induction false} NoneStaysNone(ps: Pages, id: Id, j: nat, k: nat)
    requires Up(ps, id, j) == None && j <= k
    ensures Up(ps, id, k) == None
    decreases j
  {
    if id in ps && j > 0 && ParentOf(ps, id).Some? {
      NoneStaysNone(ps, ParentOf(ps, id).value, j - 1, k - 1);
    }
  }

  // ---------------------------------------------------------------------
  // Moving a page
  // ---------------------------------------------------------------------

  function Move(ps: Pages, page: Id, parent: Id): Pages {
    ps[page := Some(parent)]
  }

  /** The check of the edit form: the parent exists, differs from the page, and is not below it. */
  predicate MoveIsAllowed(ps: Pages, page: Id, parent: Id) {
    parent != page && parent in ps && page !in Chain(ps, parent)
  }

  lemma {:induction false} PathAvoids(ps: Pages, page: Id, parent: Id, x: Id, k: nat)
    requires page in ps && parent in ps
    requires forall j: nat :: j < k ==> Up(ps, x, j) != Some(page)
    ensures Up(Move(ps, page, parent), x, k) == Up(ps, x, k)
    decreases k
  {
    if k > 0 && x in ps {
      assert Up(ps, x, 0) != Some(page);
      if ParentOf(ps, x).Some? {
        var y := ParentOf(ps, x).value;
        forall j: nat | j < k - 1 ensures Up(ps, y, j) != Some(page) {
          assert Up(ps, x, j + 1) != Some(page);
        }
        PathAvoids(ps, page, parent, y, k - 1);
      }
    }
  }

  /** The first time a path reaches `page`, if it does within `k` steps. */
  lemma {:induction false} FirstVisit(ps: Pages, x: Id, page: Id, k: nat) returns (j: nat)
    requires Up(ps, x, k) == Some(page)
    ensures j <= k && Up(ps, x, j) == Some(page) && forall i: nat :: i < j ==> Up(ps, x, i) != Some(page)
  {
    j := 0;
    while Up(ps, x, j) != Some(page)
      invariant j <= k && forall i: nat :: i < j ==> Up(ps, x, i) != Some(page)
      decreases k - j
    {
      j := j + 1;
    }
  }

  /** A cycle that a move creates goes through the moved page: it was above its new parent. */
  lemma CycleMeansAbove(ps: Pages, page: Id, parent: Id, x: Id, k: nat) returns (m: nat)
    requires Acyclic(ps) && page in ps && parent in ps && page != parent
    requires 1 <= k && Up(Move(ps, page, parent), x, k) == Some(x)
    ensures Up(ps, parent, m) == Some(page)
  {
    var moved := Move(ps, page, parent);
    assert Up(ps, x, k) != Some(x);
    m := 0;
    if j: nat :| j < k && Up(ps, x, j) == Some(page) {
      var first := FirstVisit(ps, x, page, j);
      PathAvoids(ps, page, parent, x, first);
      UpAdds(moved, x, first, k - first);
      UpAdds(moved, page, k - first, first);
      assert Up(moved, page, k) == Some(page);
      assert Up(moved, parent, k - 1) == Some(page);
      m := ReachedAnyway(ps, page, parent, k - 1);
    } else {
      PathAvoids(ps, page, parent, x, k);
    }
  }

  lemma ReachedAnyway(ps: Pages, page: Id, parent: Id, k: nat) returns (m: nat)
    requires page in ps && parent in ps && Up(Move(ps, page, parent), parent, k) == Some(page)
    ensures Up(ps, parent, m) == Some(page)
  {
    if j: nat :| j < k && Up(ps, parent, j) == Some(page) {
      m := j;
    } else {
      PathAvoids(ps, page, parent, parent, k);
      m := k;
    }
  }

  /** Moving a page keeps a forest a forest exactly when its new parent is neither itself nor below it. */
  lemma MoveKeepsForest(ps: Pages, page: Id, parent: Id)
    requires Acyclic(ps) && page in ps && parent in ps
    ensures Acyclic(Move(ps, page, parent))
       <==> page != parent && forall k: nat :: Up(ps, parent, k) != Some(page)
  {
    var moved := Move(ps, page, parent);
    if page == parent {
      assert Up(moved, page, 0) == Some(page) && Up(moved, page, 1) == Some(page);
    } else if k: nat :| Up(ps, parent, k) == Some(page) {
      var first := FirstVisit(ps, parent, page, k);
      PathAvoids(ps, page, parent, parent, first);
      assert Up(moved, page, first + 1) == Some(page);
    } else {
      forall x: Id, k: nat | 1 <= k ensures Up(moved, x, k) != Some(x) {
        if Up(moved, x, k) == Some(x) {
          var m := CycleMeansAbove(ps, page, parent, x, k);
        }
      }
    }
  }

  /**
   An allowed move keeps the forest exactly when the page is not an ancestor
   of its new parent from beyond the walk's reach.
   */
  lemma AllowedMoveIsSafe(ps: Pages, page: Id, parent: Id)
    requires Acyclic(ps) && page in ps && MoveIsAllowed(ps, page, parent)
    ensures Acyclic(Move(ps, page, parent)) <==> forall k: nat :: 127 < k ==> Up(ps, parent, k) != Some(page)
    ensures Up(ps, parent, 128) == None ==> Acyclic(Move(ps, page, parent))
  {
    MoveKeepsForest(ps, page, parent);
    ChainMembers(ps, parent, page);
    assert Up(ps, parent, 0) == Some(parent);
    if Up(ps, parent, 128) == None {
      forall k: nat | 127 < k ensures Up(ps, parent, k) != Some(page) {
        NoneStaysNone(ps, parent, 128, k);
      }
    }
  }

  /** On a forest no harmless move is refused either. */
  lemma RefusedMovesWouldLoop(ps: Pages, page: Id, parent: Id)
    requires Acyclic(ps) && page in ps && parent in ps && !MoveIsAllowed(ps, page, parent)
    ensures !Acyclic(Move(ps, page, parent))
  {
    MoveKeepsForest(ps, page, parent);
    ChainMembers(ps, parent, page);
  }

  /** A straight line of pages, each below the one before. */
  function Line(n: nat): Pages {
    if n == 0 then map[] else Line(n - 1)[n - 1 := if n == 1 then None else Some(n - 2)]
  }

  lemma {:induction false} InLine(n: nat, i: Id)
    ensures i in Line(n) <==> 0 <= i < n
    ensures i in Line(n) ==> Line(n)[i] == if i == 0 then None else Some(i - 1)
  {
    if n > 0 {
      InLine(n - 1, i);
    }
  }

  lemma {:induction false} UpTheLine(n: nat, i: nat, k: nat)
    requires i < n
    ensures Up(Line(n), i, k) == if k <= i then Some(i - k) else None
    decreases k
  {
    InLine(n, i);
    if k > 0 && i > 0 {
      InLine(n, i - 1);
      UpTheLine(n, i - 1, k - 1);
    }
  }

  lemma LineIsForest(n: nat)
    ensures Acyclic(Line(n))
  {
    forall id: Id, k: nat | 1 <= k ensures Up(Line(n), id, k) != Some(id) {
      InLine(n, id);
      if id in Line(n) {
        UpTheLine(n, id, k);
      }
    }
  }

  /** Beyond 127 levels the check sees nothing: moving the top of 129 pages under the bottom makes a cycle. */
  lemma DeepMoveLoops()
    ensures Acyclic(Line(129)) && MoveIsAllowed(Line(129), 0, 128) && !Acyclic(Move(Line(129), 0, 128))
  {
    var ps := Line(129);
    LineIsForest(129);
    InLine(129, 0);
    InLine(129, 128);
    ChainMembers(ps, 128, 0);
    forall k: nat | 1 <= k <= 127 ensures Up(ps, 128, k) != Some(0) {
      UpTheLine(129, 128, k);
    }
    UpTheLine(129, 128, 128);
    MoveKeepsForest(ps, 0, 128);
  }

  // ---------------------------------------------------------------------
  // Whole runs of the page editor
  // ---------------------------------------------------------------------

  datatype Edit =
    | CreatePage(id: Id, parent: Option<Id>)
    | MovePage(id: Id, parent: Option<Id>)
    | DeletePage(id: Id)

  /** Parents are pages; a new page has a new id. A move asks the check first. */
  predicate EditIsAllowed(ps: Pages, e: Edit) {
    match e
    case CreatePage(id, parent) => id !in ps && (parent.Some? ==> parent.value in ps)
    case MovePage(id, parent) => id in ps && (parent.Some? ==> MoveIsAllowed(ps, id, parent.value))
    case DeletePage(id) => true
  }

  /** Deleting a page moves its children to the top level. */
  function Apply(ps: Pages, e: Edit): Pages {
    match e
    case CreatePage(id, parent) => ps[id := parent]
    case MovePage(id, parent) => ps[id := parent]
    case DeletePage(id) => map i | i in ps && i != id :: if ps[i] == Some(id) then None else ps[i]
  }

  /** Every new parent of a move has at most 127 pages above it. */
  predicate IsShallow(ps: Pages, e: Edit) {
    e.MovePage? && e.parent.Some? ==> Up(ps, e.parent.value, 128) == None
  }

  predicate EditsAreAllowed(ps: Pages, edits: seq<Edit>)
    decreases |edits|
  {
    edits == []
    || (EditIsAllowed(ps, edits[0]) && IsShallow(ps, edits[0]) && EditsAreAllowed(Apply(ps, edits[0]), edits[1..]))
  }

  function ApplyAll(ps: Pages, edits: seq<Edit>): Pages
    decreases |edits|
  {
    if edits == [] then ps else ApplyAll(Apply(ps, edits[0]), edits[1..])
  }

  predicate ParentsExist(ps: Pages) {
    forall id :: id in ps && ps[id].Some? ==> ps[id].value in ps
  }

  ghost predicate IsForest(ps: Pages) {
    Acyclic(ps) && ParentsExist(ps)
  }

  lemma {:induction false} FewerEdges(ps: Pages, fewer: Pages, id: Id, k: nat)
    requires fewer.Keys <= ps.Keys
    requires forall i :: i in fewer && fewer[i].Some? ==> fewer[i] == ps[i]
    requires Up(fewer, id, k).Some?
    ensures Up(ps, id, k) == Up(fewer, id, k)
    decreases k
  {
    if k > 0 {
      FewerEdges(ps, fewer, ParentOf(fewer, id).value, k - 1);
    }
  }

  lemma FewerEdgesKeepForest(ps: Pages, fewer: Pages)
    requires Acyclic(ps) && fewer.Keys <= ps.Keys
    requires forall i :: i in fewer && fewer[i].Some? ==> fewer[i] == ps[i]
    ensures Acyclic(fewer)
  {
    forall id: Id, k: nat | 1 <= k ensures Up(fewer, id, k) != Some(id) {
      if Up(fewer, id, k).Some? {
        FewerEdges(ps, fewer, id, k);
        assert Up(ps, id, k) != Some(id);
      }
    }
  }

  lemma {:induction false} NewPageIsOffEveryPath(ps: Pages, page: Id, parent: Option<Id>, x: Id, k: nat)
    requires ParentsExist(ps) && page !in ps && x != page
    ensures Up(ps[page := parent], x, k) == Up(ps, x, k)
    decreases k
  {
    if k > 0 && ParentOf(ps, x).Some? {
      NewPageIsOffEveryPath(ps, page, parent, ParentOf(ps, x).value, k - 1);
    }
  }

  lemma {:induction false} UpStaysInside(ps: Pages, x: Id, k: nat)
    ensures Up(ps, x, k).Some? ==> Up(ps, x, k).value in ps
    decreases k
  {
    if k > 0 && ParentOf(ps, x).Some? {
      UpStaysInside(ps, ParentOf(ps, x).value, k - 1);
    }
  }

  lemma NewPageKeepsForest(ps: Pages, page: Id, parent: Option<Id>)
    requires IsForest(ps) && page !in ps && (parent.Some? ==> parent.value in ps)
    ensures IsForest(ps[page := parent])
  {
    var more := ps[page := parent];
    forall id: Id, k: nat | 1 <= k ensures Up(more, id, k) != Some(id) {
      if id != page {
        NewPageIsOffEveryPath(ps, page, parent, id, k);
        assert Up(ps, id, k) != Some(id);
      } else if parent.Some? {
        NewPageIsOffEveryPath(ps, page, parent, parent.value, k - 1);
        UpStaysInside(ps, parent.value, k - 1);
      }
    }
  }

  lemma EditKeepsForest(ps: Pages, e: Edit)
    requires IsForest(ps) && EditIsAllowed(ps, e) && IsShallow(ps, e)
    ensures IsForest(Apply(ps, e))
  {
    match e
    case CreatePage(id, parent) => NewPageKeepsForest(ps, id, parent);
    case MovePage(id, parent) =>
      if parent.Some? {
        AllowedMoveIsSafe(ps, id, parent.value);
      } else {
        FewerEdgesKeepForest(ps, Apply(ps, e));
      }
    case DeletePage(id) => FewerEdgesKeepForest(ps, Apply(ps, e));
  }

  /** Over every run of checked edits whose new parents are not too deep, the pages stay a forest. */
  lemma {:induction false} EditsKeepForest(ps: Pages, edits: seq<Edit>)
    requires IsForest(ps) && EditsAreAllowed(ps, edits)
    ensures IsForest(ApplyAll(ps, edits))
    decreases |edits|
  {
    if edits != [] {
      EditKeepsForest(ps, edits[0]);
      EditsKeepForest(Apply(ps, edits[0]), edits[1..]);
    }
  }
}
