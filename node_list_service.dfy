/**
 * The node list materializer: a snapshot of raw node records indexed by id,
 * with singleton lookups, the tree and flattened projections, favorites,
 * backlinks and an equality filter. It performs no I/O and never changes its
 * snapshot, so every query is a function of the two constant fields.
 */
module Sync {
  import opened Model
  import opened Document

  /** A record with its children projected recursively into tree items. */
  datatype TreeItem = TreeItem(node: Record, children: seq<TreeItem>)

  /** A record annotated for linear rendering. */
  datatype Flattened = Flattened(node: Record, parentId: Option<string>, depth: nat, index: nat)

  // ---------------------------------------------------------------------
  // Lookups over the snapshot.

  /** The first record of the given type, as a linear scan finds it. */
  function FirstOfType(s: seq<Record>, kind: NodeType): (r: Option<Record>)
    ensures r.None? <==> forall n :: n in s ==> n.nodeType != kind
    ensures r.Some? ==> exists i :: 0 <= i < |s| && s[i] == r.value && r.value.nodeType == kind &&
                          forall j :: 0 <= j < i ==> s[j].nodeType != kind
  {
    if s == [] then None
    else if s[0].nodeType == kind then Some(s[0])
    else
      var r := FirstOfType(s[1..], kind);
      assert forall n :: n in s ==> n == s[0] || n in s[1..];
      if r.Some? then
        ghost var i :| 0 <= i < |s[1..]| && s[1..][i] == r.value && r.value.nodeType == kind &&
                        forall j :: 0 <= j < i ==> s[1..][j].nodeType != kind;
        assert s[i + 1] == r.value;
        assert forall j :: 0 <= j < i + 1 ==> s[j].nodeType != kind by {
          forall j | 0 <= j < i + 1 ensures s[j].nodeType != kind {
            if j > 0 { assert s[j] == s[1..][j - 1]; }
          }
        }
        r
      else r
  }

  /** The records of one type, in snapshot order. */
  function OfType(s: seq<Record>, kind: NodeType): (r: seq<Record>)
    ensures |r| <= |s|
  {
    if s == [] then []
    else
      var last := s[|s| - 1];
      assert s == s[..|s| - 1] + [last];
      OfType(s[..|s| - 1], kind) + (if last.nodeType == kind then [last] else [])
  }

  /** The selection holds exactly the records of that type. */
  lemma {:induction false} OfTypeMembers(s: seq<Record>, kind: NodeType)
    ensures forall n :: n in OfType(s, kind) <==> n in s && n.nodeType == kind
  {
    if s != [] {
      var k := |s| - 1;
      assert s == s[..k] + [s[k]];
      OfTypeMembers(s[..k], kind);
    }
  }

  lemma OfTypeSnoc(s: seq<Record>, x: Record, kind: NodeType)
    ensures OfType(s + [x], kind) == OfType(s, kind) + (if x.nodeType == kind then [x] else [])
  {
    assert (s + [x])[..|s|] == s;
  }

  /** Filtering keeps the input order: the selection of a concatenation is the concatenation of the selections. */
  lemma {:induction false} OfTypeAppend(a: seq<Record>, b: seq<Record>, kind: NodeType)
    ensures OfType(a + b, kind) == OfType(a, kind) + OfType(b, kind)
    decreases |b|
  {
    if b == [] {
      assert a + b == a;
    } else {
      var n := |b| - 1;
      assert a + b == (a + b[..n]) + [b[n]] && b == b[..n] + [b[n]];
      OfTypeSnoc(a + b[..n], b[n], kind);
      OfTypeSnoc(b[..n], b[n], kind);
      OfTypeAppend(a, b[..n], kind);
    }
  }

  /** The records of the ids that resolve through `m`, in id order; unresolved ids are dropped. */
  function Resolve(m: map<string, Record>, ids: seq<string>): (r: seq<Record>)
    ensures forall x :: x in r <==> exists id :: id in ids && id in m && x == m[id]
    ensures |r| <= |ids|
  {
    if ids == [] then []
    else
      var last := ids[|ids| - 1];
      assert ids == ids[..|ids| - 1] + [last];
      Resolve(m, ids[..|ids| - 1]) + (if last in m then [m[last]] else [])
  }

  /** When every id resolves, resolution is position by position. */
  lemma {:induction false} ResolveTotal(m: map<string, Record>, ids: seq<string>)
    requires forall id :: id in ids ==> id in m
    ensures |Resolve(m, ids)| == |ids|
    ensures forall i :: 0 <= i < |ids| ==> Resolve(m, ids)[i] == m[ids[i]]
  {
    if ids != [] {
      var n := |ids| - 1;
      assert forall id :: id in ids[..n] ==> id in ids;
      ResolveTotal(m, ids[..n]);
      assert ids[n] in ids;
    }
  }

  /** One id resolves to its record, or to nothing when the map lacks it. */
  lemma ResolveOne(m: map<string, Record>, id: string)
    ensures Resolve(m, [id]) == if id in m then [m[id]] else []
  {
    assert [id][..0] == [];
  }

  lemma ResolveSnoc(m: map<string, Record>, ids: seq<string>, id: string)
    ensures Resolve(m, ids + [id]) == Resolve(m, ids) + (if id in m then [m[id]] else [])
  {
    assert (ids + [id])[..|ids|] == ids;
  }

  /** Resolution keeps id order: resolving a concatenation concatenates the resolved parts. */
  lemma {:induction false} ResolveAppend(m: map<string, Record>, a: seq<string>, b: seq<string>)
    ensures Resolve(m, a + b) == Resolve(m, a) + Resolve(m, b)
    decreases |b|
  {
    if b == [] {
      assert a + b == a;
    } else {
      var n := |b| - 1;
      assert a + b == (a + b[..n]) + [b[n]] && b == b[..n] + [b[n]];
      ResolveSnoc(m, a + b[..n], b[n]);
      ResolveSnoc(m, b[..n], b[n]);
      ResolveAppend(m, a, b[..n]);
    }
  }

  // ---------------------------------------------------------------------
  // Acyclicity, stated as a rank that strictly falls from parent to child.

  ghost predicate Ranked(m: map<string, Record>, rank: map<string, nat>)
  {
    && m.Keys <= rank.Keys
    && forall id, c :: id in m && c in m[id].children && c in m ==> rank[c] < rank[id]
  }

  /** A bound strictly above the rank of every ranked id in `ids`. */
  ghost function RankBound(rank: map<string, nat>, ids: seq<string>): (b: nat)
    ensures forall c :: c in ids && c in rank ==> rank[c] < b
  {
    if ids == [] then 0
    else
      var b := RankBound(rank, ids[1..]);
      assert forall c :: c in ids ==> c == ids[0] || c in ids[1..];
      if ids[0] in rank && rank[ids[0]] >= b then rank[ids[0]] + 1 else b
  }

  // ---------------------------------------------------------------------
  // The tree projection.

  /**
   * Projects `ids` into tree items, one per id and in the same order. An id
   * that does not resolve, at any depth, makes the whole projection fail.
   */
  function CreateTreeOf(m: map<string, Record>, ids: seq<string>, ghost rank: map<string, nat>, ghost bound: nat)
    : (r: Option<seq<TreeItem>>)
    requires Ranked(m, rank)
    requires forall c :: c in ids && c in m ==> rank[c] < bound
    ensures r.Some? ==> |r.value| == |ids|
    ensures r.Some? ==> forall i :: 0 <= i < |ids| ==>
      ids[i] in m && r.value[i].node == m[ids[i]] && |r.value[i].children| == |m[ids[i]].children|
    ensures (exists i :: 0 <= i < |ids| && ids[i] !in m) ==> r.None?
    decreases bound, |ids|
  {
    if ids == [] then Some([])
    else
      var k := |ids| - 1;
      assert forall c :: c in ids[..k] ==> c in ids;
      assert ids[k] in ids;
      var init := CreateTreeOf(m, ids[..k], rank, bound);
      var item := TreeItemOf(m, ids[k], rank, bound);
      if init.None? || item.None? then
        assert forall i :: 0 <= i < k ==> ids[..k][i] == ids[i];
        None
      else Some(init.value + [item.value])
  }

  /** The tree item of one id: its record with its children projected in turn. */
  function TreeItemOf(m: map<string, Record>, id: string, ghost rank: map<string, nat>, ghost bound: nat)
    : (r: Option<TreeItem>)
    requires Ranked(m, rank)
    requires id in m ==> rank[id] < bound
    ensures id !in m ==> r.None?
    ensures r.Some? ==> id in m && r.value.node == m[id] && |r.value.children| == |m[id].children|
    ensures r.Some? && |m[id].children| == 0 ==> r.value.children == []
    decreases bound, 0
  {
    if id !in m then None
    else
      var node := m[id];
      if |node.children| == 0 then Some(TreeItem(node, []))
      else
        var sub := CreateTreeOf(m, node.children, rank, rank[id]);
        if sub.None? then None else Some(TreeItem(node, sub.value))
  }

  /** `p` walks from a stored record to one of its children, and so on; only its last id may be missing. */
  ghost predicate IsPath(m: map<string, Record>, p: seq<string>)
  {
    |p| > 0 && forall j :: 0 <= j < |p| - 1 ==> p[j] in m && p[j + 1] in m[p[j]].children
  }

  /** Every id reachable from `ids` through stored children is itself stored. */
  ghost predicate Closed(m: map<string, Record>, ids: seq<string>)
  {
    forall p :: IsPath(m, p) && p[0] in ids ==> p[|p| - 1] in m
  }

  /** A successful projection holds the item of each id, in order. */
  lemma {:induction false} CreateTreeItems(m: map<string, Record>, ids: seq<string>, rank: map<string, nat>, bound: nat)
    requires Ranked(m, rank)
    requires forall c :: c in ids && c in m ==> rank[c] < bound
    requires CreateTreeOf(m, ids, rank, bound).Some?
    ensures forall i :: 0 <= i < |ids| ==>
      TreeItemOf(m, ids[i], rank, bound).Some? &&
      CreateTreeOf(m, ids, rank, bound).value[i] == TreeItemOf(m, ids[i], rank, bound).value
    decreases |ids|
  {
    if ids != [] {
      var k := |ids| - 1;
      assert forall c :: c in ids[..k] ==> c in ids;
      assert ids[k] in ids;
      CreateTreeItems(m, ids[..k], rank, bound);
      forall i | 0 <= i < k ensures ids[..k][i] == ids[i] { }
    }
  }

  /** The projection succeeds only when everything reachable from `ids` is stored. */
  lemma {:induction false} CreateTreeResolves(
    m: map<string, Record>, ids: seq<string>, rank: map<string, nat>, bound: nat, p: seq<string>)
    requires Ranked(m, rank)
    requires forall c :: c in ids && c in m ==> rank[c] < bound
    requires CreateTreeOf(m, ids, rank, bound).Some?
    requires IsPath(m, p) && p[0] in ids
    ensures p[|p| - 1] in m
    decreases |p|
  {
    var i :| 0 <= i < |ids| && ids[i] == p[0];
    CreateTreeItems(m, ids, rank, bound);
    if |p| > 1 {
      var node := m[p[0]];
      assert p[1] in node.children;
      var q := p[1..];
      assert IsPath(m, q) by {
        forall j | 0 <= j < |q| - 1 ensures q[j] in m && q[j + 1] in m[q[j]].children {
          assert q[j] == p[j + 1] && q[j + 1] == p[j + 2];
        }
      }
      CreateTreeResolves(m, node.children, rank, rank[p[0]], q);
    }
  }

  /** When everything reachable from `ids` is stored, the projection succeeds. */
  lemma {:induction false} CreateTreeTotal(m: map<string, Record>, ids: seq<string>, rank: map<string, nat>, bound: nat)
    requires Ranked(m, rank)
    requires forall c :: c in ids && c in m ==> rank[c] < bound
    requires Closed(m, ids)
    ensures CreateTreeOf(m, ids, rank, bound).Some?
    decreases bound, |ids|
  {
    if ids != [] {
      var k := |ids| - 1;
      assert forall c :: c in ids[..k] ==> c in ids;
      assert ids[k] in ids;
      forall p | IsPath(m, p) && p[0] in ids[..k] ensures p[|p| - 1] in m {
        assert p[0] in ids;
      }
      forall p | IsPath(m, p) && p[0] in [ids[k]] ensures p[|p| - 1] in m {
        assert p[0] in ids;
      }
      CreateTreeTotal(m, ids[..k], rank, bound);
      TreeItemTotal(m, ids[k], rank, bound);
    }
  }

  lemma {:induction false} TreeItemTotal(m: map<string, Record>, id: string, rank: map<string, nat>, bound: nat)
    requires Ranked(m, rank)
    requires id in m ==> rank[id] < bound
    requires Closed(m, [id])
    ensures TreeItemOf(m, id, rank, bound).Some?
    decreases bound, 0
  {
    assert IsPath(m, [id]);
    var node := m[id];
    if |node.children| > 0 {
      forall q | IsPath(m, q) && q[0] in node.children ensures q[|q| - 1] in m {
        var p := [id] + q;
        forall j | 0 <= j < |p| - 1 ensures p[j] in m && p[j + 1] in m[p[j]].children {
          if j > 0 {
            assert p[j] == q[j - 1] && p[j + 1] == q[j];
          }
        }
        assert IsPath(m, p);
        assert p[|p| - 1] == q[|q| - 1];
      }
      CreateTreeTotal(m, node.children, rank, rank[id]);
    }
  }

  /** The projection of `ids` succeeds exactly when every id reachable from them is stored. */
  lemma CreateTreeSome(m: map<string, Record>, ids: seq<string>, rank: map<string, nat>, bound: nat)
    requires Ranked(m, rank)
    requires forall c :: c in ids && c in m ==> rank[c] < bound
    ensures CreateTreeOf(m, ids, rank, bound).Some? <==> Closed(m, ids)
  {
    if CreateTreeOf(m, ids, rank, bound).Some? {
      forall p | IsPath(m, p) && p[0] in ids ensures p[|p| - 1] in m {
        CreateTreeResolves(m, ids, rank, bound, p);
      }
    } else if Closed(m, ids) {
      CreateTreeTotal(m, ids, rank, bound);
    }
  }

  /** A store whose every child id is stored is closed from any stored ids. */
  lemma ClosedWhenChildrenStored(m: map<string, Record>, ids: seq<string>)
    requires forall c :: c in ids ==> c in m
    requires forall x, c :: x in m && c in m[x].children ==> c in m
    ensures Closed(m, ids)
  {
    forall p | IsPath(m, p) && p[0] in ids ensures p[|p| - 1] in m {
      if |p| > 1 {
        assert p[|p| - 2] in m && p[|p| - 1] in m[p[|p| - 2]].children;
      }
    }
  }

  // ---------------------------------------------------------------------
  // The flattened projection.

  /**
   * Depth-first pre-order listing of `ids`, as a left fold over the ids: each
   * resolved id yields its record at `depth` with `index` its position in
   * `ids`, followed by the listing of its own children one level deeper.
   * Unresolved ids are skipped but still use up their position.
   */
  function FlattenChildren(
    m: map<string, Record>, ids: seq<string>, parentId: Option<string>, depth: nat,
    ghost rank: map<string, nat>, ghost bound: nat): (fs: seq<Flattened>)
    requires Ranked(m, rank)
    requires forall c :: c in ids && c in m ==> rank[c] < bound
    decreases bound, |ids|
  {
    if ids == [] then []
    else
      var k := |ids| - 1;
      assert forall c :: c in ids[..k] ==> c in ids;
      assert ids[k] in ids;
      FlattenChildren(m, ids[..k], parentId, depth, rank, bound) + Visit(m, ids[k], k, parentId, depth, rank, bound)
  }

  /** The fold step for one id at position `index`. */
  function Visit(
    m: map<string, Record>, id: string, index: nat, parentId: Option<string>, depth: nat,
    ghost rank: map<string, nat>, ghost bound: nat): (vs: seq<Flattened>)
    requires Ranked(m, rank)
    requires id in m ==> rank[id] < bound
    decreases bound, 0
  {
    if id !in m then []
    else
      var node := m[id];
      [Flattened(node, parentId, depth, index)]
        + (if |node.children| > 0
           then FlattenChildren(m, node.children, Some(node.id), depth + 1, rank, rank[id])
           else [])
  }

  /**
   * Where an entry of a listing of `ids` came from: a top-level entry carries
   * the given parent id and its position in `ids`; a deeper entry carries the
   * id of a stored parent and its position in that parent's children.
   */
  ghost predicate Placed(m: map<string, Record>, ids: seq<string>, parentId: Option<string>, depth: nat, f: Flattened)
  {
    if f.depth == depth then
      f.parentId == parentId && f.index < |ids| && ids[f.index] in m && f.node == m[ids[f.index]]
    else
      && f.depth > depth
      && f.parentId.Some? && f.parentId.value in m
      && f.index < |m[f.parentId.value].children|
      && m[f.parentId.value].children[f.index] in m
      && f.node == m[m[f.parentId.value].children[f.index]]
  }

  /** Every entry below the top level comes after an entry for its parent, one level up. */
  ghost predicate ParentBefore(fs: seq<Flattened>, depth: nat)
  {
    forall k :: 0 <= k < |fs| && fs[k].depth > depth ==>
      exists j :: 0 <= j < k && fs[j].depth + 1 == fs[k].depth && fs[k].parentId == Some(fs[j].node.id)
  }

  /** Top-level entries follow the order of `ids`. */
  ghost predicate SiblingOrder(fs: seq<Flattened>, depth: nat)
  {
    forall j, k :: 0 <= j < k < |fs| && fs[j].depth == depth && fs[k].depth == depth ==> fs[j].index < fs[k].index
  }

  /** Every resolved position of `ids` has a top-level entry. */
  ghost predicate Complete(m: map<string, Record>, ids: seq<string>, fs: seq<Flattened>, depth: nat)
  {
    forall i :: 0 <= i < |ids| && ids[i] in m ==> exists k :: 0 <= k < |fs| && fs[k].depth == depth && fs[k].index == i
  }

  /** Every entry of a listing is placed under its stored parent at its position. */
  lemma {:induction false} FlattenPlaced(
    m: map<string, Record>, ids: seq<string>, parentId: Option<string>, depth: nat,
    rank: map<string, nat>, bound: nat)
    requires Ranked(m, rank) && KeyedById(m)
    requires forall c :: c in ids && c in m ==> rank[c] < bound
    ensures forall f :: f in FlattenChildren(m, ids, parentId, depth, rank, bound) ==>
      Placed(m, ids, parentId, depth, f) && (f.depth == depth ==> f.index < |ids|)
    decreases bound, |ids|
  {
    if ids != [] {
      var k := |ids| - 1;
      var pre := ids[..k];
      assert forall c :: c in pre ==> c in ids;
      assert ids[k] in ids;
      FlattenPlaced(m, pre, parentId, depth, rank, bound);
      VisitPlaced(m, ids, k, parentId, depth, rank, bound);
      forall f | f in FlattenChildren(m, pre, parentId, depth, rank, bound)
        ensures Placed(m, ids, parentId, depth, f)
      {
        if f.depth == depth {
          assert pre[f.index] == ids[f.index];
        }
      }
    }
  }

  /** Every entry of one fold step is placed; its only top-level entry is at `k`. */
  lemma {:induction false} VisitPlaced(
    m: map<string, Record>, ids: seq<string>, k: nat, parentId: Option<string>, depth: nat,
    rank: map<string, nat>, bound: nat)
    requires Ranked(m, rank) && KeyedById(m)
    requires k < |ids| && (ids[k] in m ==> rank[ids[k]] < bound)
    ensures forall f :: f in Visit(m, ids[k], k, parentId, depth, rank, bound) ==>
      Placed(m, ids, parentId, depth, f) && (f.depth == depth ==> f.index == k)
    decreases bound, 0
  {
    var id := ids[k];
    if id in m && |m[id].children| > 0 {
      var node := m[id];
      FlattenPlaced(m, node.children, Some(node.id), depth + 1, rank, rank[id]);
    }
  }

  /** Appending a step whose deeper entries follow their parents keeps that property. */
  lemma ParentBeforeAppend(a: seq<Flattened>, b: seq<Flattened>, depth: nat)
    requires ParentBefore(a, depth) && ParentBefore(b, depth)
    ensures ParentBefore(a + b, depth)
  {
    var fs := a + b;
    forall t | 0 <= t < |fs| && fs[t].depth > depth
      ensures exists j :: 0 <= j < t && fs[j].depth + 1 == fs[t].depth && fs[t].parentId == Some(fs[j].node.id)
    {
      if t < |a| {
        assert fs[t] == a[t];
        var j :| 0 <= j < t && a[j].depth + 1 == a[t].depth && a[t].parentId == Some(a[j].node.id);
        assert fs[j] == a[j];
      } else {
        var u := t - |a|;
        assert fs[t] == b[u];
        var j :| 0 <= j < u && b[j].depth + 1 == b[u].depth && b[u].parentId == Some(b[j].node.id);
        assert fs[|a| + j] == b[j];
      }
    }
  }

  /** A parent entry followed by its children's listing one level deeper. */
  lemma ParentBeforeCons(head: Flattened, nested: seq<Flattened>, depth: nat)
    requires head.depth == depth && ParentBefore(nested, depth + 1)
    requires forall f :: f in nested ==> f.depth >= depth + 1
    requires forall f :: f in nested && f.depth == depth + 1 ==> f.parentId == Some(head.node.id)
    ensures ParentBefore([head] + nested, depth)
  {
    var vs := [head] + nested;
    forall t | 0 <= t < |vs| && vs[t].depth > depth
      ensures exists j :: 0 <= j < t && vs[j].depth + 1 == vs[t].depth && vs[t].parentId == Some(vs[j].node.id)
    {
      var u := t - 1;
      assert vs[t] == nested[u] && nested[u] in nested;
      if nested[u].depth == depth + 1 {
        assert vs[0] == head;
      } else {
        var j :| 0 <= j < u && nested[j].depth + 1 == nested[u].depth && nested[u].parentId == Some(nested[j].node.id);
        assert vs[j + 1] == nested[j];
      }
    }
  }

  /** In a listing, every entry below the top level follows its parent's entry. */
  lemma {:induction false} FlattenParentBefore(
    m: map<string, Record>, ids: seq<string>, parentId: Option<string>, depth: nat,
    rank: map<string, nat>, bound: nat)
    requires Ranked(m, rank) && KeyedById(m)
    requires forall c :: c in ids && c in m ==> rank[c] < bound
    ensures ParentBefore(FlattenChildren(m, ids, parentId, depth, rank, bound), depth)
    decreases bound, |ids|
  {
    if ids != [] {
      var k := |ids| - 1;
      var pre := ids[..k];
      assert forall c :: c in pre ==> c in ids;
      assert ids[k] in ids;
      FlattenParentBefore(m, pre, parentId, depth, rank, bound);
      VisitParentBefore(m, ids[k], k, parentId, depth, rank, bound);
      ParentBeforeAppend(FlattenChildren(m, pre, parentId, depth, rank, bound),
        Visit(m, ids[k], k, parentId, depth, rank, bound), depth);
    }
  }

  lemma {:induction false} VisitParentBefore(
    m: map<string, Record>, id: string, k: nat, parentId: Option<string>, depth: nat,
    rank: map<string, nat>, bound: nat)
    requires Ranked(m, rank) && KeyedById(m)
    requires id in m ==> rank[id] < bound
    ensures ParentBefore(Visit(m, id, k, parentId, depth, rank, bound), depth)
    decreases bound, 0
  {
    if id in m {
      var node := m[id];
      var head := Flattened(node, parentId, depth, k);
      if |node.children| > 0 {
        var nested := FlattenChildren(m, node.children, Some(node.id), depth + 1, rank, rank[id]);
        FlattenPlaced(m, node.children, Some(node.id), depth + 1, rank, rank[id]);
        FlattenParentBefore(m, node.children, Some(node.id), depth + 1, rank, rank[id]);
        ParentBeforeCons(head, nested, depth);
      } else {
        ParentBeforeCons(head, [], depth);
        assert [head] + [] == [head];
      }
    }
  }

  /** Only the first entry of a fold step is at the step's own depth. */
  lemma VisitNestedDeeper(
    m: map<string, Record>, id: string, k: nat, parentId: Option<string>, depth: nat,
    rank: map<string, nat>, bound: nat)
    requires Ranked(m, rank) && KeyedById(m)
    requires id in m ==> rank[id] < bound
    ensures var vs := Visit(m, id, k, parentId, depth, rank, bound);
      && (id in m <==> |vs| > 0)
      && (id in m ==> vs[0] == Flattened(m[id], parentId, depth, k))
      && forall t :: 0 < t < |vs| ==> vs[t].depth > depth
  {
    if id in m && |m[id].children| > 0 {
      var node := m[id];
      var nested := FlattenChildren(m, node.children, Some(node.id), depth + 1, rank, rank[id]);
      FlattenPlaced(m, node.children, Some(node.id), depth + 1, rank, rank[id]);
      var vs := Visit(m, id, k, parentId, depth, rank, bound);
      forall t | 0 < t < |vs| ensures vs[t].depth > depth {
        assert vs[t] == nested[t - 1] && nested[t - 1] in nested;
      }
    }
  }

  /** Appending a step with one top-level entry at position `k` after entries for earlier positions. */
  lemma SiblingAppend(a: seq<Flattened>, b: seq<Flattened>, depth: nat, k: nat)
    requires SiblingOrder(a, depth)
    requires forall f :: f in a && f.depth == depth ==> f.index < k
    requires |b| > 0 ==> b[0].index == k
    requires forall t :: 0 < t < |b| ==> b[t].depth > depth
    ensures SiblingOrder(a + b, depth)
  {
    var fs := a + b;
    forall j, t | 0 <= j < t < |fs| && fs[j].depth == depth && fs[t].depth == depth
      ensures fs[j].index < fs[t].index
    {
      if t < |a| {
        assert fs[j] == a[j] && fs[t] == a[t];
      } else {
        assert fs[t] == b[t - |a|];
        assert fs[j] == a[j] && a[j] in a;
      }
    }
  }

  /** Top-level entries of a listing follow the order of `ids`, and every resolved id has one. */
  lemma {:induction false} FlattenSiblings(
    m: map<string, Record>, ids: seq<string>, parentId: Option<string>, depth: nat,
    rank: map<string, nat>, bound: nat)
    requires Ranked(m, rank) && KeyedById(m)
    requires forall c :: c in ids && c in m ==> rank[c] < bound
    ensures SiblingOrder(FlattenChildren(m, ids, parentId, depth, rank, bound), depth)
    ensures Complete(m, ids, FlattenChildren(m, ids, parentId, depth, rank, bound), depth)
    decreases |ids|
  {
    if ids != [] {
      var k := |ids| - 1;
      var pre := ids[..k];
      assert forall c :: c in pre ==> c in ids;
      assert ids[k] in ids;
      var acc := FlattenChildren(m, pre, parentId, depth, rank, bound);
      var vs := Visit(m, ids[k], k, parentId, depth, rank, bound);
      var fs := acc + vs;
      FlattenSiblings(m, pre, parentId, depth, rank, bound);
      FlattenPlaced(m, pre, parentId, depth, rank, bound);
      VisitNestedDeeper(m, ids[k], k, parentId, depth, rank, bound);
      SiblingAppend(acc, vs, depth, k);
      CompleteAppend(m, ids, acc, vs, depth);
    }
  }

  /** A step whose first entry sits at the last position completes a listing of the earlier positions. */
  lemma CompleteAppend(m: map<string, Record>, ids: seq<string>, acc: seq<Flattened>, vs: seq<Flattened>, depth: nat)
    requires |ids| > 0 && Complete(m, ids[..|ids| - 1], acc, depth)
    requires ids[|ids| - 1] in m ==> |vs| > 0 && vs[0].depth == depth && vs[0].index == |ids| - 1
    ensures Complete(m, ids, acc + vs, depth)
  {
    var k := |ids| - 1;
    var fs := acc + vs;
    forall i | 0 <= i < |ids| && ids[i] in m
      ensures exists t :: 0 <= t < |fs| && fs[t].depth == depth && fs[t].index == i
    {
      if i == k {
        assert fs[|acc|] == vs[0];
      } else {
        assert ids[..k][i] == ids[i];
        var t :| 0 <= t < |acc| && acc[t].depth == depth && acc[t].index == i;
        assert fs[t] == acc[t];
      }
    }
  }

  /** The pre-order listing of a tree, with the same annotations. */
  function FlattenTree(items: seq<TreeItem>, parentId: Option<string>, depth: nat): (fs: seq<Flattened>)
    decreases items
  {
    if items == [] then []
    else
      var k := |items| - 1;
      FlattenTree(items[..k], parentId, depth) + FlattenItem(items[k], k, parentId, depth)
  }

  function FlattenItem(item: TreeItem, index: nat, parentId: Option<string>, depth: nat): (fs: seq<Flattened>)
    decreases item
  {
    [Flattened(item.node, parentId, depth, index)] + FlattenTree(item.children, Some(item.node.id), depth + 1)
  }

  /**
   * Whenever the tree projection succeeds, flattening through the id map
   * lists exactly the pre-order of that tree.
   */
  lemma {:induction false} FlattenMatchesTree(
    m: map<string, Record>, ids: seq<string>, parentId: Option<string>, depth: nat,
    rank: map<string, nat>, bound: nat)
    requires Ranked(m, rank)
    requires forall c :: c in ids && c in m ==> rank[c] < bound
    requires CreateTreeOf(m, ids, rank, bound).Some?
    ensures FlattenChildren(m, ids, parentId, depth, rank, bound) ==
            FlattenTree(CreateTreeOf(m, ids, rank, bound).value, parentId, depth)
    decreases bound, |ids|
  {
    if ids != [] {
      var k := |ids| - 1;
      assert forall c :: c in ids[..k] ==> c in ids;
      assert ids[k] in ids;
      var init := CreateTreeOf(m, ids[..k], rank, bound);
      var item := TreeItemOf(m, ids[k], rank, bound);
      FlattenMatchesTree(m, ids[..k], parentId, depth, rank, bound);
      VisitMatchesItem(m, ids[k], k, parentId, depth, rank, bound);
      var t := CreateTreeOf(m, ids, rank, bound).value;
      assert t == init.value + [item.value];
      assert t[..k] == init.value;
    }
  }

  lemma {:induction false} VisitMatchesItem(
    m: map<string, Record>, id: string, k: nat, parentId: Option<string>, depth: nat,
    rank: map<string, nat>, bound: nat)
    requires Ranked(m, rank)
    requires id in m ==> rank[id] < bound
    requires TreeItemOf(m, id, rank, bound).Some?
    ensures Visit(m, id, k, parentId, depth, rank, bound) ==
            FlattenItem(TreeItemOf(m, id, rank, bound).value, k, parentId, depth)
    decreases bound, 0
  {
    var node := m[id];
    if |node.children| > 0 {
      FlattenMatchesTree(m, node.children, Some(node.id), depth + 1, rank, rank[id]);
    }
  }

  // ---------------------------------------------------------------------
  // The listing as the pre-order of the tree of resolving children.

  /** A resolved child with its position among its parent's child ids, and its own listed children. */
  datatype Listed = Listed(node: Record, index: nat, children: seq<Listed>)

  /**
   * `ts` lists the resolving ids of `ids` in order: positions strictly
   * increase, every position whose id resolves has an item carrying that
   * record, and so on for the children of every item.
   */
  ghost predicate Lists(m: map<string, Record>, ids: seq<string>, ts: seq<Listed>)
    decreases ts, 1
  {
    && IndexOrdered(ts)
    && Covers(m, ids, ts)
    && (forall j :: 0 <= j < |ts| ==> ItemFits(m, ids, ts[j]) && ListsBelow(m, ts[j]))
  }

  ghost predicate ListsBelow(m: map<string, Record>, t: Listed)
    decreases t, 0
  {
    Lists(m, t.node.children, t.children)
  }

  ghost predicate IndexOrdered(ts: seq<Listed>)
  {
    forall j, l :: 0 <= j < l < |ts| ==> ts[j].index < ts[l].index
  }

  ghost predicate Covers(m: map<string, Record>, ids: seq<string>, ts: seq<Listed>)
  {
    forall i :: 0 <= i < |ids| && ids[i] in m ==> exists j :: 0 <= j < |ts| && ts[j].index == i
  }

  ghost predicate ItemFits(m: map<string, Record>, ids: seq<string>, t: Listed)
  {
    t.index < |ids| && ids[t.index] in m && t.node == m[ids[t.index]]
  }

  /** The pre-order listing of listed items, each at its own position. */
  function FlattenListed(ts: seq<Listed>, parentId: Option<string>, depth: nat): (fs: seq<Flattened>)
    decreases ts
  {
    if ts == [] then []
    else
      var k := |ts| - 1;
      FlattenListed(ts[..k], parentId, depth) + ListedEntries(ts[k], parentId, depth)
  }

  function ListedEntries(t: Listed, parentId: Option<string>, depth: nat): (fs: seq<Flattened>)
    decreases t
  {
    [Flattened(t.node, parentId, depth, t.index)] + FlattenListed(t.children, Some(t.node.id), depth + 1)
  }

  lemma FlattenListedSnoc(a: seq<Listed>, b: seq<Listed>, parentId: Option<string>, depth: nat)
    requires |b| <= 1
    ensures FlattenListed(a + b, parentId, depth) == FlattenListed(a, parentId, depth) + FlattenListed(b, parentId, depth)
  {
    if b == [] {
      assert a + b == a;
    } else {
      assert (a + b)[..|a|] == a;
      assert b[..0] == [];
    }
  }

  /** The listed tree of `ids`: missing ids are dropped, the others keep their positions. */
  ghost function PrunedOf(m: map<string, Record>, ids: seq<string>, rank: map<string, nat>, bound: nat): (ts: seq<Listed>)
    requires Ranked(m, rank)
    requires forall c :: c in ids && c in m ==> rank[c] < bound
    decreases bound, |ids|
  {
    if ids == [] then []
    else
      var k := |ids| - 1;
      assert forall c :: c in ids[..k] ==> c in ids;
      assert ids[k] in ids;
      PrunedOf(m, ids[..k], rank, bound) + PrunedItem(m, ids[k], k, rank, bound)
  }

  ghost function PrunedItem(m: map<string, Record>, id: string, k: nat, rank: map<string, nat>, bound: nat): (ts: seq<Listed>)
    requires Ranked(m, rank)
    requires id in m ==> rank[id] < bound
    decreases bound, 0
  {
    if id !in m then []
    else
      var node := m[id];
      [Listed(node, k, if |node.children| > 0 then PrunedOf(m, node.children, rank, rank[id]) else [])]
  }

  lemma OrderedSnoc(a: seq<Listed>, b: seq<Listed>, k: nat)
    requires IndexOrdered(a) && forall j :: 0 <= j < |a| ==> a[j].index < k
    requires |b| <= 1 && (|b| == 1 ==> b[0].index == k)
    ensures IndexOrdered(a + b)
  {
    var ts := a + b;
    forall j, l | 0 <= j < l < |ts| ensures ts[j].index < ts[l].index {
      if l < |a| { assert ts[j] == a[j] && ts[l] == a[l]; } else { assert ts[j] == a[j] && ts[l] == b[0]; }
    }
  }

  lemma CoversSnoc(m: map<string, Record>, ids: seq<string>, a: seq<Listed>, b: seq<Listed>)
    requires |ids| > 0 && Covers(m, ids[..|ids| - 1], a)
    requires ids[|ids| - 1] in m ==> |b| == 1 && b[0].index == |ids| - 1
    ensures Covers(m, ids, a + b)
  {
    var k := |ids| - 1;
    var ts := a + b;
    forall i | 0 <= i < |ids| && ids[i] in m ensures exists j :: 0 <= j < |ts| && ts[j].index == i {
      if i == k {
        assert ts[|a|] == b[0];
      } else {
        assert ids[..k][i] == ids[i];
        var j :| 0 <= j < |a| && a[j].index == i;
        assert ts[j] == a[j];
      }
    }
  }

  /** Adding the item for the last position to a listing of the earlier positions. */
  lemma ListsSnoc(m: map<string, Record>, ids: seq<string>, a: seq<Listed>, b: seq<Listed>)
    requires |ids| > 0 && Lists(m, ids[..|ids| - 1], a)
    requires ids[|ids| - 1] in m ==> |b| == 1
    requires ids[|ids| - 1] !in m ==> b == []
    requires |b| == 1 ==> b[0].index == |ids| - 1 && b[0].node == m[ids[|ids| - 1]] && ListsBelow(m, b[0])
    ensures Lists(m, ids, a + b)
  {
    var k := |ids| - 1;
    var ts := a + b;
    forall j | 0 <= j < |a| ensures a[j].index < k && ItemFits(m, ids, a[j]) {
      assert ItemFits(m, ids[..k], a[j]);
      assert ids[..k][a[j].index] == ids[a[j].index];
    }
    OrderedSnoc(a, b, k);
    CoversSnoc(m, ids, a, b);
    forall j | 0 <= j < |ts| ensures ItemFits(m, ids, ts[j]) && ListsBelow(m, ts[j]) {
      if j < |a| { assert ts[j] == a[j]; } else { assert ts[j] == b[0]; }
    }
  }

  /** The listed tree of `ids` lists every resolving child, in order, at every level. */
  lemma {:induction false} PrunedLists(m: map<string, Record>, ids: seq<string>, rank: map<string, nat>, bound: nat)
    requires Ranked(m, rank)
    requires forall c :: c in ids && c in m ==> rank[c] < bound
    ensures Lists(m, ids, PrunedOf(m, ids, rank, bound))
    decreases bound, |ids|
  {
    if ids != [] {
      var k := |ids| - 1;
      assert forall c :: c in ids[..k] ==> c in ids;
      assert ids[k] in ids;
      PrunedLists(m, ids[..k], rank, bound);
      var b := PrunedItem(m, ids[k], k, rank, bound);
      if ids[k] in m {
        var node := m[ids[k]];
        if |node.children| > 0 {
          PrunedLists(m, node.children, rank, rank[ids[k]]);
        }
        assert ListsBelow(m, b[0]);
      }
      ListsSnoc(m, ids, PrunedOf(m, ids[..k], rank, bound), b);
    }
  }

  /** Flattening is exactly the pre-order walk of the listed tree. */
  lemma {:induction false} FlattenIsPruned(
    m: map<string, Record>, ids: seq<string>, parentId: Option<string>, depth: nat,
    rank: map<string, nat>, bound: nat)
    requires Ranked(m, rank)
    requires forall c :: c in ids && c in m ==> rank[c] < bound
    ensures FlattenChildren(m, ids, parentId, depth, rank, bound) ==
            FlattenListed(PrunedOf(m, ids, rank, bound), parentId, depth)
    decreases bound, |ids|
  {
    if ids != [] {
      var k := |ids| - 1;
      assert forall c :: c in ids[..k] ==> c in ids;
      assert ids[k] in ids;
      FlattenIsPruned(m, ids[..k], parentId, depth, rank, bound);
      VisitIsPruned(m, ids[k], k, parentId, depth, rank, bound);
      FlattenListedSnoc(PrunedOf(m, ids[..k], rank, bound), PrunedItem(m, ids[k], k, rank, bound), parentId, depth);
    }
  }

  lemma {:induction false} VisitIsPruned(
    m: map<string, Record>, id: string, k: nat, parentId: Option<string>, depth: nat,
    rank: map<string, nat>, bound: nat)
    requires Ranked(m, rank)
    requires id in m ==> rank[id] < bound
    ensures Visit(m, id, k, parentId, depth, rank, bound) ==
            FlattenListed(PrunedItem(m, id, k, rank, bound), parentId, depth)
    decreases bound, 0
  {
    if id in m {
      var node := m[id];
      var t := PrunedItem(m, id, k, rank, bound)[0];
      assert [t][..0] == [];
      assert FlattenListed([t], parentId, depth) == ListedEntries(t, parentId, depth);
      if |node.children| > 0 {
        FlattenIsPruned(m, node.children, Some(node.id), depth + 1, rank, rank[id]);
      } else {
        assert t.children == [];
        assert ListedEntries(t, parentId, depth) == [Flattened(node, parentId, depth, k)] + [];
      }
    }
  }

  // ---------------------------------------------------------------------
  // Backlinks.

  /** `r` is a linked reference of the node `target`. */
  predicate IsBacklink(r: Record, target: string)
  {
    r.id != target && IsCommon(r) && LinksTo(r.element, target)
  }

  /** The linked references among `s`, in snapshot order. */
  function Backlinks(s: seq<Record>, target: string): (r: seq<Record>)
    ensures forall x :: x in r <==> x in s && IsBacklink(x, target)
  {
    if s == [] then []
    else
      var last := s[|s| - 1];
      assert s == s[..|s| - 1] + [last];
      Backlinks(s[..|s| - 1], target) + (if IsBacklink(last, target) then [last] else [])
  }

  // ---------------------------------------------------------------------
  // The equality filter.

  /** The record fields a filter may compare. */
  datatype Key = IdKey | SpaceIdKey | TypeKey | ParentIdKey | CollapsedKey

  datatype Value = Str(s: string) | Null | Bool(b: bool) | Type(t: NodeType)

  function FieldOf(r: Record, k: Key): (v: Value)
  {
    match k
    case IdKey => Str(r.id)
    case SpaceIdKey => Str(r.spaceId)
    case TypeKey => Type(r.nodeType)
    case ParentIdKey => if r.parentId.Some? then Str(r.parentId.value) else Null
    case CollapsedKey => Bool(r.collapsed)
  }

  predicate Matches(r: Record, where: map<Key, Value>)
  {
    forall k :: k in where ==> FieldOf(r, k) == where[k]
  }

  datatype FindOptions = FindOptions(where: Option<map<Key, Value>>, limit: Option<int>)

  /** The records that match every condition of `where`, in snapshot order. */
  function Where(s: seq<Record>, where: map<Key, Value>): (r: seq<Record>)
    ensures |r| <= |s|
  {
    if s == [] then []
    else
      var last := s[|s| - 1];
      assert s == s[..|s| - 1] + [last];
      Where(s[..|s| - 1], where) + (if Matches(last, where) then [last] else [])
  }

  /** The filtered records are exactly the records of `s` that match. */
  lemma {:induction false} WhereMembers(s: seq<Record>, where: map<Key, Value>)
    ensures forall x :: x in Where(s, where) <==> x in s && Matches(x, where)
  {
    if s != [] {
      var k := |s| - 1;
      assert s == s[..k] + [s[k]];
      WhereMembers(s[..k], where);
    }
  }

  /** Filtering keeps snapshot order: the matches of a concatenation are the concatenated matches. */
  lemma {:induction false} WhereAppend(a: seq<Record>, b: seq<Record>, where: map<Key, Value>)
    ensures Where(a + b, where) == Where(a, where) + Where(b, where)
    decreases |b|
  {
    if b == [] {
      assert a + b == a;
    } else {
      var n := |b| - 1;
      assert a + b == (a + b[..n]) + [b[n]] && b == b[..n] + [b[n]];
      WhereSnoc(a + b[..n], b[n], where);
      WhereSnoc(b[..n], b[n], where);
      WhereAppend(a, b[..n], where);
    }
  }

  lemma WhereSnoc(s: seq<Record>, x: Record, where: map<Key, Value>)
    ensures Where(s + [x], where) == Where(s, where) + (if Matches(x, where) then [x] else [])
  {
    assert (s + [x])[..|s|] == s;
  }

  function Min(a: int, b: int): int { if a < b then a else b }
  function Max(a: int, b: int): int { if a < b then b else a }

  /**
   * `s.slice(0, end)`: a non-negative end keeps at most that many leading
   * elements, a negative end drops that many trailing ones.
   */
  function Slice(s: seq<Record>, end: int): (r: seq<Record>)
    ensures end >= 0 ==> |r| == if end < |s| then end else |s|
    ensures end < 0 ==> |r| == if |s| + end > 0 then |s| + end else 0
    ensures r == s[..|r|]
  {
    if end >= 0 then (if end < |s| then s[..end] else s)
    else if |s| + end > 0 then s[..|s| + end] else []
  }

  // ---------------------------------------------------------------------

  class NodeListService {
    /** The snapshot; each raw record is wrapped as one node, so the two coincide here. */
    const nodes: seq<Record>
    const nodeMap: map<string, Record>

    ghost predicate Valid()
    {
      nodeMap == IndexById(nodes)
    }

    constructor (rawNodes: seq<Record>)
      ensures nodes == rawNodes && Valid()
    {
      nodes := rawNodes;
      var m: map<string, Record> := map[];
      for i := 0 to |rawNodes|
        invariant m == IndexById(rawNodes[..i])
      {
        assert rawNodes[..i + 1][..i] == rawNodes[..i];
        m := m[rawNodes[i].id := rawNodes[i]];
      }
      assert rawNodes[..|rawNodes|] == rawNodes;
      nodeMap := m;
    }

    /** The node with the given id, if the snapshot has one. */
    function GetNode(id: string): (r: Option<Record>)
      requires Valid()
      ensures r.Some? <==> exists n :: n in nodes && n.id == id
      ensures r.Some? ==> r.value in nodes && r.value.id == id
    {
      if id in nodeMap then Some(nodeMap[id]) else None
    }

    /** The root, database-root, daily-root, inbox, trash or favorite node: the first node of that type. */
    function SingletonNode(kind: NodeType): (r: Option<Record>)
      ensures r.None? <==> forall n :: n in nodes ==> n.nodeType != kind
      ensures r.Some? ==> exists i :: 0 <= i < |nodes| && nodes[i] == r.value && r.value.nodeType == kind &&
                            forall j :: 0 <= j < i ==> nodes[j].nodeType != kind
    {
      FirstOfType(nodes, kind)
    }

    /**
     * The root's children, newest first. The root must exist and its children
     * must resolve whenever the snapshot is not empty.
     */
    function RootNodes(): (r: seq<Record>)
      requires Valid()
      requires |nodes| > 0 ==>
        (SingletonNode(ROOT).Some? && forall id :: id in SingletonNode(ROOT).value.children ==> id in nodeMap)
      ensures |nodes| == 0 ==> r == []
      ensures |nodes| > 0 ==>
        (Sorted(r, true) && multiset(r) == multiset(Resolve(nodeMap, SingletonNode(ROOT).value.children)))
    {
      if |nodes| == 0 then []
      else
        var resolved := Resolve(nodeMap, SingletonNode(ROOT).value.children);
        SortByUpdatedAtSorted(resolved, true);
        SortByUpdatedAt(resolved, true)
    }

    /** The database (tag) nodes, in snapshot order. */
    function TagNodes(): (r: seq<Record>)
      ensures forall n :: n in r <==> n in nodes && n.nodeType == DATABASE
    {
      OfTypeMembers(nodes, DATABASE);
      OfType(nodes, DATABASE)
    }

    /** The trash nodes, in snapshot order. */
    function TrashedNodes(): (r: seq<Record>)
      ensures forall n :: n in r <==> n in nodes && n.nodeType == TRASH
    {
      OfTypeMembers(nodes, TRASH);
      OfType(nodes, TRASH)
    }

    /**
     * The pre-order listing under `node`: every entry sits under its stored
     * parent at its position, after its parent's entry, and the listing walks
     * a tree that keeps, at every level, every resolving child in child order
     * and drops the ids that do not resolve.
     */
    function FlattenNode(node: Record, ghost rank: map<string, nat>): (fs: seq<Flattened>)
      requires Valid() && Ranked(nodeMap, rank)
      ensures forall f :: f in fs ==> Placed(nodeMap, node.children, None, 0, f)
      ensures ParentBefore(fs, 0) && SiblingOrder(fs, 0) && Complete(nodeMap, node.children, fs, 0)
      ensures exists ts :: Lists(nodeMap, node.children, ts) && fs == FlattenListed(ts, None, 0)
    {
      var bound := RankBound(rank, node.children);
      FlattenPlaced(nodeMap, node.children, None, 0, rank, bound);
      FlattenParentBefore(nodeMap, node.children, None, 0, rank, bound);
      FlattenSiblings(nodeMap, node.children, None, 0, rank, bound);
      FlattenIsPruned(nodeMap, node.children, None, 0, rank, bound);
      PrunedLists(nodeMap, node.children, rank, bound);
      FlattenChildren(nodeMap, node.children, None, 0, rank, bound)
    }

    /**
     * The tree under `node`, one item per child in order. It exists exactly
     * when every id reachable from the children is stored, and then its
     * pre-order is the flattened listing.
     */
    function CreateTree(node: Record, ghost rank: map<string, nat>): (r: Option<seq<TreeItem>>)
      requires Valid() && Ranked(nodeMap, rank)
      ensures r.Some? <==> Closed(nodeMap, node.children)
      ensures r.Some? ==> |r.value| == |node.children| && forall i :: 0 <= i < |node.children| ==>
        node.children[i] in nodeMap && r.value[i].node == nodeMap[node.children[i]]
      ensures r.Some? ==> FlattenTree(r.value, None, 0) == FlattenNode(node, rank)
    {
      var bound := RankBound(rank, node.children);
      CreateTreeSome(nodeMap, node.children, rank, bound);
      var r := CreateTreeOf(nodeMap, node.children, rank, bound);
      if r.Some? then
        FlattenMatchesTree(nodeMap, node.children, None, 0, rank, bound);
        r
      else r
    }

    /** The favorite node's children that resolve, in order; none without a favorite node. */
    function GetFavorites(): (r: seq<Record>)
      ensures SingletonNode(FAVORITE).None? ==> r == []
      ensures SingletonNode(FAVORITE).Some? ==>
        forall x :: x in r <==> exists id :: id in SingletonNode(FAVORITE).value.children && id in nodeMap && x == nodeMap[id]
      ensures SingletonNode(FAVORITE).Some? ==> r == Resolve(nodeMap, SingletonNode(FAVORITE).value.children)
    {
      var fav := SingletonNode(FAVORITE);
      if fav.None? then [] else Resolve(nodeMap, fav.value.children)
    }

    function IsFavorite(id: string): (b: bool)
      requires SingletonNode(FAVORITE).Some?
    {
      id in SingletonNode(FAVORITE).value.children
    }

    /** A resolvable id is a favorite exactly when its node is among the favorites. */
    lemma FavoritesAgree(id: string)
      requires Valid() && SingletonNode(FAVORITE).Some? && id in nodeMap
      ensures IsFavorite(id) <==> nodeMap[id] in GetFavorites()
    {
      if nodeMap[id] in GetFavorites() {
        var c :| c in SingletonNode(FAVORITE).value.children && c in nodeMap && nodeMap[id] == nodeMap[c];
        assert nodeMap[c].id == c && nodeMap[id].id == id;
      }
    }

    /**
     * The common nodes other than `target` whose content links to it, oldest
     * first.
     */
    method GetLinkedReferences(target: Record) returns (refs: seq<Record>)
      ensures forall r :: r in refs <==> r in nodes && IsBacklink(r, target.id)
      ensures multiset(refs) == multiset(Backlinks(nodes, target.id))
      ensures Sorted(refs, false)
    {
      var found: seq<Record> := [];
      for i := 0 to |nodes|
        invariant found == Backlinks(nodes[..i], target.id)
      {
        assert nodes[..i + 1][..i] == nodes[..i];
        var item := nodes[i];
        if item.id != target.id && IsCommon(item) && LinksTo(item.element, target.id) {
          found := found + [item];
        }
      }
      assert nodes[..|nodes|] == nodes;
      SortByUpdatedAtSorted(found, false);
      refs := SortByUpdatedAt(found, false);
      assert forall r :: r in refs <==> r in multiset(found);
    }

    /**
     * The nodes matching every condition of `where`, in snapshot order, cut by
     * a non-zero `limit`; nothing at all without `where`.
     */
    method Find(options: FindOptions) returns (result: seq<Record>)
      ensures options.where.None? ==> result == []
      ensures options.where.Some? ==> forall r :: r in result ==> r in nodes && Matches(r, options.where.value)
      ensures options.where.Some? && (options.limit.None? || options.limit == Some(0)) ==>
        forall r :: r in nodes && Matches(r, options.where.value) ==> r in result
      ensures options.where.Some? && (options.limit.None? || options.limit == Some(0)) ==>
        result == Where(nodes, options.where.value)
      ensures options.limit.Some? && options.limit.value > 0 ==> |result| <= options.limit.value
      ensures options.where.Some? && options.limit.Some? && options.limit.value > 0 ==>
        |result| == Min(options.limit.value, |Where(nodes, options.where.value)|)
      ensures options.where.Some? && options.limit.Some? && options.limit.value < 0 ==>
        |result| == Max(0, |Where(nodes, options.where.value)| + options.limit.value)
      ensures options.where.Some? ==>
        (|result| <= |Where(nodes, options.where.value)| && result == Where(nodes, options.where.value)[..|result|])
    {
      result := [];
      if options.where.Some? {
        WhereMembers(nodes, options.where.value);
        result := Where(nodes, options.where.value);
        if options.limit.Some? && options.limit.value != 0 {
          result := Slice(result, options.limit.value);
        }
      }
    }
  }
}
