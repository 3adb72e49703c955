/**
 * The editor document as the reconciler sees it. A saved outline is the item
 * list of one bulleted list; the editor holds that list as its only top-level
 * child, so an item sits at path [0, i], its content element at [0, i, 0] and
 * its nested list at [0, i, 1]. This module replaces the throwaway editor
 * instance by pure path addressing and a pure pre-order walk.
 */
module Document {
  import opened Model

  // ---------------------------------------------------------------------
  // Plain text and bidirectional links inside fragments.

  /** The concatenated text of a fragment, as the editor renders it. */
  function PlainText(ns: seq<Slate>): (t: string)
    decreases ns
  {
    if ns == [] then ""
    else PlainText(ns[..|ns| - 1]) + TextOf(ns[|ns| - 1])
  }

  function TextOf(n: Slate): (t: string)
    decreases n
  {
    match n
    case Text(s) => s
    case Element(_, _, _, cs) => PlainText(cs)
    case List(_, items) => ItemsText(items)
  }

  function ItemsText(items: seq<ListItem>): (t: string)
    decreases items
  {
    if items == [] then ""
    else ItemsText(items[..|items| - 1]) + ItemText(items[|items| - 1])
  }

  function ItemText(it: ListItem): (t: string)
    decreases it
  {
    PlainText(it.content.children) + (if it.sub.SubList? then ItemsText(it.sub.items) else "")
  }

  /**
   * The child nodes of each top-level node of a fragment, concatenated in
   * order. A text leaf has no children; the children of a list are list
   * items, which are never link elements, so a list contributes none here.
   */
  function TopChildren(element: seq<Slate>): (cs: seq<Slate>)
  {
    if element == [] then []
    else
      var last := element[|element| - 1];
      TopChildren(element[..|element| - 1]) + (if last.Element? then last.children else [])
  }

  predicate IsLinkTo(n: Slate, target: string)
  {
    n.Element? && n.kind == BidirectionalLinkKind && n.linkId == Some(target)
  }

  /** A fragment links to `target` when one of its top-level nodes' children is a link to it. */
  predicate LinksTo(element: seq<Slate>, target: string)
  {
    exists c :: c in TopChildren(element) && IsLinkTo(c, target)
  }

  /** The flattened children are exactly the children of the top-level elements. */
  lemma {:induction false} TopChildrenMembership(element: seq<Slate>, c: Slate)
    ensures c in TopChildren(element) <==>
      exists j :: 0 <= j < |element| && element[j].Element? && c in element[j].children
  {
    if element != [] {
      var n := |element| - 1;
      TopChildrenMembership(element[..n], c);
      if c in TopChildren(element[..n]) {
        var j :| 0 <= j < n && element[..n][j].Element? && c in element[..n][j].children;
        assert element[j] == element[..n][j];
      }
      if exists j :: 0 <= j < |element| && element[j].Element? && c in element[j].children {
        var j :| 0 <= j < |element| && element[j].Element? && c in element[j].children;
        if j < n {
          assert element[..n][j] == element[j];
        }
      }
    }
  }

  /** A fragment links to `target` exactly when some top-level element has a link child to it. */
  lemma LinksToNested(element: seq<Slate>, target: string)
    ensures LinksTo(element, target) <==>
      exists j, c :: 0 <= j < |element| && element[j].Element? && c in element[j].children && IsLinkTo(c, target)
  {
    if LinksTo(element, target) {
      var c :| c in TopChildren(element) && IsLinkTo(c, target);
      TopChildrenMembership(element, c);
    }
    if exists j, c :: 0 <= j < |element| && element[j].Element? && c in element[j].children && IsLinkTo(c, target) {
      var j, c :| 0 <= j < |element| && element[j].Element? && c in element[j].children && IsLinkTo(c, target);
      TopChildrenMembership(element, c);
    }
  }

  // ---------------------------------------------------------------------
  // Path addressing (the editor's node-at-path lookup).

  /** What a path designates in the editor that holds one list. */
  datatype Located =
    | AtEditor(ul: seq<ListItem>)
    | AtList(items: seq<ListItem>)
    | AtItem(item: ListItem)
    | AtContent(content: ListContent)
    | Nowhere

  /** One step down: child `i` of the designated node. */
  function Down(loc: Located, i: nat): (r: Located)
  {
    match loc
    case AtEditor(ul) => if i == 0 then AtList(ul) else Nowhere
    case AtList(items) => if i < |items| then AtItem(items[i]) else Nowhere
    case AtItem(it) =>
      if i == 0 then AtContent(it.content)
      else if i == 1 && it.sub.SubList? then AtList(it.sub.items)
      else Nowhere
    case AtContent(_) => Nowhere
    case Nowhere => Nowhere
  }

  function Follow(loc: Located, path: seq<nat>): (r: Located)
    decreases |path|
  {
    if path == [] then loc else Follow(Down(loc, path[0]), path[1..])
  }

  /** The node at `path` in the editor holding the list `ul`. */
  function NodeAt(ul: seq<ListItem>, path: seq<nat>): (r: Located)
  {
    Follow(AtEditor(ul), path)
  }

  /** `path.slice(0, -k)`: drops the last `k` steps, or yields the empty path when there are fewer. */
  function Drop(path: seq<nat>, k: nat): (r: seq<nat>)
  {
    if |path| >= k then path[..|path| - k] else []
  }

  lemma {:induction false} FollowAppend(loc: Located, p: seq<nat>, q: seq<nat>)
    ensures Follow(loc, p + q) == Follow(Follow(loc, p), q)
    decreases |p|
  {
    if p != [] {
      assert (p + q)[0] == p[0] && (p + q)[1..] == p[1..] + q;
      FollowAppend(Down(loc, p[0]), p[1..], q);
    } else {
      assert p + q == q;
    }
  }

  // ---------------------------------------------------------------------
  // The list contents of a document, in document order, with their paths.

  datatype Entry = Entry(content: ListContent, path: seq<nat>)

  /**
   * The list-content elements of `items[from..]` and of their nested lists,
   * each with its path, where `listPath` is the path of the list itself.
   */
  function ContentsFrom(items: seq<ListItem>, listPath: seq<nat>, from: nat): (es: seq<Entry>)
    decreases items, |items| - from
  {
    if from >= |items| then []
    else ItemContents(items[from], listPath + [from]) + ContentsFrom(items, listPath, from + 1)
  }

  /** The content of the item at `itemPath`, then the contents of its nested list. */
  function ItemContents(it: ListItem, itemPath: seq<nat>): (es: seq<Entry>)
    decreases it
  {
    [Entry(it.content, itemPath + [0])]
      + (if it.sub.SubList? then ContentsFrom(it.sub.items, itemPath + [1], 0) else [])
  }

  /** Every list-content element of the list `ul` with its editor path, in pre-order. */
  function ListContents(ul: seq<ListItem>): (es: seq<Entry>)
  {
    ContentsFrom(ul, [0], 0)
  }

  // ---------------------------------------------------------------------
  // The structural reading of the same walk.

  /** An item together with the content id of the item whose nested list holds it, if any. */
  datatype Placement = Placement(item: ListItem, enclosing: Option<string>)

  function PlacementsFrom(items: seq<ListItem>, enclosing: Option<string>, from: nat): (ps: seq<Placement>)
    decreases items, |items| - from
  {
    if from >= |items| then []
    else ItemPlacements(items[from], enclosing) + PlacementsFrom(items, enclosing, from + 1)
  }

  function ItemPlacements(it: ListItem, enclosing: Option<string>): (ps: seq<Placement>)
    decreases it
  {
    [Placement(it, enclosing)]
      + (if it.sub.SubList? then PlacementsFrom(it.sub.items, Some(it.content.id), 0) else [])
  }

  /** Every item of the outline in pre-order, each with its enclosing item's content id. */
  function Placements(ul: seq<ListItem>): (ps: seq<Placement>)
  {
    PlacementsFrom(ul, None, 0)
  }

  /** The content ids of the items of a list, in order. */
  function ItemIds(items: seq<ListItem>): (ids: seq<string>)
    ensures |ids| == |items|
    ensures forall i :: 0 <= i < |items| ==> ids[i] == items[i].content.id
  {
    if items == [] then [] else ItemIds(items[..|items| - 1]) + [items[|items| - 1].content.id]
  }

  /** The content ids of an item's nested list, or none without one. */
  function SubIds(it: ListItem): (ids: seq<string>)
  {
    if it.sub.SubList? then ItemIds(it.sub.items) else []
  }

  // ---------------------------------------------------------------------
  // Path arithmetic as the reconciler performs it.

  /** The ids of the nested list of the list item designated by `parent`; empty without one. */
  function ChildIdsAt(parent: Located): (ids: seq<string>)
  {
    if parent.AtItem? && parent.item.sub.SubList? then ItemIds(parent.item.sub.items) else []
  }

  /** The new parent id: the content id of the designated item, else the outline's own parent id. */
  function ParentIdAt(ancestor: Located, parentId: string): (p: string)
  {
    if ancestor.AtItem? then ancestor.item.content.id else parentId
  }

  /** The inline children of the designated list content (what a lookup into the list yields). */
  function ElementAt(loc: Located): (element: seq<Slate>)
  {
    if loc.AtContent? then loc.content.children else []
  }

  /** The enclosing-item reading of an ancestor that path arithmetic finds. */
  predicate EnclosedBy(ancestor: Located, enclosing: Option<string>)
  {
    if ancestor.AtItem? then enclosing == Some(ancestor.item.content.id) else enclosing == None
  }

  /**
   * Path arithmetic agrees with the structure: the entry's path designates its
   * content, one step up is the item of the placement, and three steps up is
   * the enclosing item exactly when the placement has one.
   */
  ghost predicate Resolves(ul: seq<ListItem>, e: Entry, p: Placement)
  {
    && e.content == p.item.content
    && NodeAt(ul, e.path) == AtContent(p.item.content)
    && |e.path| >= 1 && e.path[0] == 0
    && Follow(AtList(ul), e.path[1..]) == AtContent(p.item.content)
    && NodeAt(ul, Drop(e.path, 1)) == AtItem(p.item)
    && EnclosedBy(NodeAt(ul, Drop(e.path, 3)), p.enclosing)
  }

  ghost predicate Corresponds(ul: seq<ListItem>, es: seq<Entry>, ps: seq<Placement>)
  {
    |es| == |ps| && forall k :: 0 <= k < |es| ==> Resolves(ul, es[k], ps[k])
  }

  lemma CorrespondsAppend(ul: seq<ListItem>, a: seq<Entry>, b: seq<Entry>, pa: seq<Placement>, pb: seq<Placement>)
    requires Corresponds(ul, a, pa) && Corresponds(ul, b, pb)
    ensures Corresponds(ul, a + b, pa + pb)
  {
    forall k | 0 <= k < |a + b| ensures Resolves(ul, (a + b)[k], (pa + pb)[k]) {
      if k < |a| {
        assert (a + b)[k] == a[k] && (pa + pb)[k] == pa[k];
      } else {
        assert (a + b)[k] == b[k - |a|] && (pa + pb)[k] == pb[k - |a|];
      }
    }
  }

  lemma {:induction false} ContentsResolve(
    ul: seq<ListItem>, items: seq<ListItem>, listPath: seq<nat>, enclosing: Option<string>, from: nat)
    requires |listPath| >= 1 && listPath[0] == 0
    requires NodeAt(ul, listPath) == AtList(items)
    requires EnclosedBy(NodeAt(ul, listPath[..|listPath| - 1]), enclosing)
    ensures Corresponds(ul, ContentsFrom(items, listPath, from), PlacementsFrom(items, enclosing, from))
    decreases items, |items| - from
  {
    if from < |items| {
      var itemPath := listPath + [from];
      FollowAppend(AtEditor(ul), listPath, [from]);
      assert Follow(AtList(items), [from]) == AtItem(items[from]);
      assert itemPath[..|itemPath| - 2] == listPath[..|listPath| - 1];
      ItemResolve(ul, items[from], itemPath, enclosing);
      ContentsResolve(ul, items, listPath, enclosing, from + 1);
      CorrespondsAppend(ul, ItemContents(items[from], itemPath), ContentsFrom(items, listPath, from + 1),
        ItemPlacements(items[from], enclosing), PlacementsFrom(items, enclosing, from + 1));
    }
  }

  lemma {:induction false} ItemResolve(ul: seq<ListItem>, it: ListItem, itemPath: seq<nat>, enclosing: Option<string>)
    requires |itemPath| >= 2 && itemPath[0] == 0
    requires NodeAt(ul, itemPath) == AtItem(it)
    requires EnclosedBy(NodeAt(ul, itemPath[..|itemPath| - 2]), enclosing)
    ensures Corresponds(ul, ItemContents(it, itemPath), ItemPlacements(it, enclosing))
    decreases it
  {
    var path := itemPath + [0];
    FollowAppend(AtEditor(ul), itemPath, [0]);
    assert Follow(AtItem(it), [0]) == AtContent(it.content);
    assert Drop(path, 1) == itemPath;
    assert Drop(path, 3) == itemPath[..|itemPath| - 2];
    assert NodeAt(ul, path) == Follow(AtList(ul), path[1..]);
    var head := [Entry(it.content, path)];
    var headP := [Placement(it, enclosing)];
    assert Resolves(ul, head[0], headP[0]);
    var sub: seq<Entry> := [];
    var subP: seq<Placement> := [];
    if it.sub.SubList? {
      var subPath := itemPath + [1];
      FollowAppend(AtEditor(ul), itemPath, [1]);
      assert Follow(AtItem(it), [1]) == AtList(it.sub.items);
      assert subPath[..|subPath| - 1] == itemPath;
      ContentsResolve(ul, it.sub.items, subPath, Some(it.content.id), 0);
      sub := ContentsFrom(it.sub.items, subPath, 0);
      subP := PlacementsFrom(it.sub.items, Some(it.content.id), 0);
    }
    CorrespondsAppend(ul, head, sub, headP, subP);
  }

  /**
   * The walk over list contents and the structural walk over items visit the
   * same items in the same order, and at every entry the reconciler's path
   * arithmetic finds that item, its nested list and its enclosing item.
   */
  lemma ListContentsResolve(ul: seq<ListItem>)
    ensures Corresponds(ul, ListContents(ul), Placements(ul))
  {
    assert NodeAt(ul, [0]) == AtList(ul);
    ContentsResolve(ul, ul, [0], None, 0);
  }

  /** What path arithmetic computes at an entry, read structurally. */
  lemma ResolvedEntry(ul: seq<ListItem>, e: Entry, p: Placement, parentId: string)
    requires Resolves(ul, e, p)
    ensures ChildIdsAt(NodeAt(ul, Drop(e.path, 1))) == SubIds(p.item)
    ensures ParentIdAt(NodeAt(ul, Drop(e.path, 3)), parentId) ==
      (if p.enclosing.Some? then p.enclosing.value else parentId)
    ensures ElementAt(Follow(AtList(ul), e.path[1..])) == p.item.content.children
  {
  }
}
