/**
 * The outline reconciler: it writes an edited document back into the store.
 * An outline save walks every list content of a nested list and creates,
 * re-parents or rewrites the matching record only when its fingerprint
 * changed; a block save rewrites every top-level block unconditionally. Each
 * save is a sequential method on the store object, proved equal to a fold of
 * a pure step function over the document, and the properties of the saves
 * are proved about those folds.
 */
module Service {
  import opened Model
  import opened Document
  import opened LocalDb

  /** The tag extractor: the tag names that occur in a fragment. */
  type Tagger = seq<Slate> -> seq<string>

  /** A title element; only its inline children matter here. */
  datatype Title = Title(children: seq<Slate>)

  /** A request to rename a space (handed to the space store, which is not modelled). */
  datatype SpaceRename = SpaceRename(spaceId: string, name: string)

  /** The type a block record gets when the store fills in its default. */
  const DEFAULT_TYPE: NodeType := COMMON

  // ---------------------------------------------------------------------
  // Outline save: one step per list content.

  /** The arguments of one outline save. */
  datatype Outline = Outline(
    parentId: string, ul: seq<ListItem>, isOutliner: bool, spaceId: string, tagsOf: Tagger, now: int)

  /** The four fingerprinted fields the reconciler computes for a list content. */
  datatype Target = Target(parentId: string, children: seq<string>, element: seq<Slate>, collapsed: bool)

  /** `path.slice(1)`. */
  function Tail(path: seq<nat>): (t: seq<nat>)
  {
    if path == [] then [] else path[1..]
  }

  /** The target of an entry, by path arithmetic on the editor holding `o.ul`. */
  function TargetOf(o: Outline, e: Entry): (t: Target)
  {
    Target(
      ParentIdAt(NodeAt(o.ul, Drop(e.path, 3)), o.parentId),
      ChildIdsAt(NodeAt(o.ul, Drop(e.path, 1))),
      ElementAt(Follow(AtList(o.ul), Tail(e.path))),
      e.content.collapsed)
  }

  function Fingerprinted(t: Target): (h: Fingerprint)
  {
    Fingerprint(Some(t.parentId), t.element, t.collapsed, t.children)
  }

  /** The record already holds the target's four fields. */
  predicate Fits(r: Record, t: Target)
  {
    r.parentId == Some(t.parentId) && r.children == t.children &&
    r.element == t.element && r.collapsed == t.collapsed
  }

  /** A record has the target's fields exactly when its hash is the target's hash. */
  lemma FitsIffSameHash(r: Record, t: Target)
    ensures Fits(r, t) <==> ToHash(r) == Fingerprinted(t)
  {
    HashCoversFourFields(r, Record(r.id, r.spaceId, r.nodeType, Some(t.parentId), t.children, t.element,
      r.props, t.collapsed, r.createdAt, r.updatedAt));
  }

  function OutlinePatch(t: Target): (p: Patch)
  {
    Patch(Some(Some(t.parentId)), Some(t.children), Some(t.element), Some(t.collapsed), None)
  }

  function ChildrenPatch(ids: seq<string>): (p: Patch)
  {
    Patch(None, Some(ids), None, None, None)
  }

  /** The record an outline save creates for an unknown id. */
  function NewOutlineRecord(o: Outline, id: string, t: Target): (r: Record)
  {
    Record(id, o.spaceId, if o.isOutliner then COMMON else LIST_ITEM, Some(t.parentId),
      t.children, t.element, map[], t.collapsed, o.now, o.now)
  }

  /** The store effect of one list content. */
  function OutlineStep(o: Outline, s: DbState, e: Entry): (t: DbState)
  {
    var target := TargetOf(o, e);
    var id := e.content.id;
    if id in s.nodes then
      if ToHash(s.nodes[id]) != Fingerprinted(target) then
        var tags := o.tagsOf(target.element);
        var updated := AddTagRows(UpdateNode(s, id, OutlinePatch(target), o.now), tags, id);
        if |tags| > 0 then Emit(updated, id) else updated
      else s
    else CreateNode(s, NewOutlineRecord(o, id, target))
  }

  /** The steps for `es`, in order. */
  function OutlineSteps(o: Outline, s: DbState, es: seq<Entry>): (t: DbState)
  {
    if es == [] then s else OutlineStep(o, OutlineSteps(o, s, es[..|es| - 1]), es[|es| - 1])
  }

  lemma OutlineStepsSnoc(o: Outline, s: DbState, es: seq<Entry>, k: nat)
    requires k < |es|
    ensures OutlineSteps(o, s, es[..k + 1]) == OutlineStep(o, OutlineSteps(o, s, es[..k]), es[k])
  {
    assert es[..k + 1][..k] == es[..k];
  }

  /** A whole outline save: the parent's children first, then every list content in document order. */
  function SaveOutline(o: Outline, s: DbState): (t: DbState)
  {
    OutlineSteps(o, UpdateNode(s, o.parentId, ChildrenPatch(ItemIds(o.ul)), o.now), ListContents(o.ul))
  }

  function EntryIds(es: seq<Entry>): (ids: set<string>)
  {
    set e | e in es :: e.content.id
  }

  predicate UniqueIds(es: seq<Entry>)
  {
    forall i, j :: 0 <= i < j < |es| ==> es[i].content.id != es[j].content.id
  }

  /** The outline names every record once, and never its own parent. */
  predicate Separated(o: Outline)
  {
    UniqueIds(ListContents(o.ul)) && o.parentId !in EntryIds(ListContents(o.ul))
  }

  predicate IsPrefix<T(==)>(a: seq<T>, b: seq<T>)
  {
    |a| <= |b| && b[..|a|] == a
  }

  /** A record kept its identity: only the fingerprinted fields and updatedAt may differ. */
  predicate SameIdentity(r: Record, before: Record)
  {
    r.id == before.id && r.spaceId == before.spaceId && r.nodeType == before.nodeType &&
    r.props == before.props && r.createdAt == before.createdAt
  }

  /**
   * One step writes only the record of its own id: afterwards that record
   * holds the target's fields, as a fresh record when it was missing and with
   * its identity kept otherwise. Tag rows and events only grow.
   */
  lemma StepEffect(o: Outline, s: DbState, e: Entry)
    ensures var t := OutlineStep(o, s, e); var id := e.content.id;
      && t.nodes.Keys == s.nodes.Keys + {id}
      && (forall x :: x in s.nodes && x != id ==> t.nodes[x] == s.nodes[x])
      && Fits(t.nodes[id], TargetOf(o, e))
      && (id !in s.nodes ==> t.nodes[id] == NewOutlineRecord(o, id, TargetOf(o, e)))
      && (id in s.nodes ==> SameIdentity(t.nodes[id], s.nodes[id]))
      && IsPrefix(s.tagRows, t.tagRows) && IsPrefix(s.events, t.events)
  {
    var id := e.content.id;
    if id in s.nodes {
      FitsIffSameHash(s.nodes[id], TargetOf(o, e));
    }
  }

  /** An unchanged record costs nothing: no write, no tag row, no event. */
  lemma StepQuietWhenFitting(o: Outline, s: DbState, e: Entry)
    requires e.content.id in s.nodes && Fits(s.nodes[e.content.id], TargetOf(o, e))
    ensures OutlineStep(o, s, e) == s
  {
    FitsIffSameHash(s.nodes[e.content.id], TargetOf(o, e));
  }

  /** A changed record gets one update, its tag rows, and an event only when it has tags. */
  lemma StepChanged(o: Outline, s: DbState, e: Entry)
    requires e.content.id in s.nodes && !Fits(s.nodes[e.content.id], TargetOf(o, e))
    ensures var t := OutlineStep(o, s, e); var tags := o.tagsOf(TargetOf(o, e).element);
      && t.writes == s.writes + [Updated(e.content.id)]
      && t.tagRows == s.tagRows + TagRowsFor(tags, e.content.id)
      && t.events == s.events + (if |tags| > 0 then [e.content.id] else [])
  {
    FitsIffSameHash(s.nodes[e.content.id], TargetOf(o, e));
  }

  /** A missing record is created under the outline's parent, with no tag row and no event. */
  lemma StepCreated(o: Outline, s: DbState, e: Entry)
    requires e.content.id !in s.nodes
    ensures var t := OutlineStep(o, s, e);
      && t.nodes == s.nodes[e.content.id := NewOutlineRecord(o, e.content.id, TargetOf(o, e))]
      && t.writes == s.writes + [Created(e.content.id)]
      && t.tagRows == s.tagRows && t.events == s.events
  {
  }

  lemma EntryIdsSnoc(es: seq<Entry>)
    requires es != []
    ensures EntryIds(es) == EntryIds(es[..|es| - 1]) + {es[|es| - 1].content.id}
  {
    assert es == es[..|es| - 1] + [es[|es| - 1]];
  }

  /** A sequence with `a` as prefix is `a` followed by the rest. */
  lemma PrefixSplit<T>(a: seq<T>, b: seq<T>)
    requires IsPrefix(a, b)
    ensures b == a + b[|a|..]
  {
  }

  /** The steps touch only the records their entries name. */
  lemma {:induction false} StepsFrame(o: Outline, s: DbState, es: seq<Entry>)
    ensures var t := OutlineSteps(o, s, es);
      && t.nodes.Keys == s.nodes.Keys + EntryIds(es)
      && (forall x :: x in s.nodes && x !in EntryIds(es) ==> t.nodes[x] == s.nodes[x])
      && IsPrefix(s.tagRows, t.tagRows) && IsPrefix(s.events, t.events)
  {
    if es != [] {
      var n := |es| - 1;
      EntryIdsSnoc(es);
      StepsFrame(o, s, es[..n]);
      StepEffect(o, OutlineSteps(o, s, es[..n]), es[n]);
    }
  }

  /** The outcome for one entry of a fold whose entries name distinct records. */
  ghost predicate Reconciled(o: Outline, s: DbState, t: DbState, e: Entry)
  {
    var id := e.content.id;
    && id in t.nodes
    && Fits(t.nodes[id], TargetOf(o, e))
    && (id !in s.nodes ==> t.nodes[id] == NewOutlineRecord(o, id, TargetOf(o, e)))
    && (id in s.nodes ==> SameIdentity(t.nodes[id], s.nodes[id]))
  }

  /** A step for another id keeps an entry reconciled. */
  lemma ReconciledKept(o: Outline, s: DbState, u: DbState, e: Entry, next: Entry)
    requires Reconciled(o, s, u, e) && e.content.id != next.content.id
    ensures Reconciled(o, s, OutlineStep(o, u, next), e)
  {
    StepEffect(o, u, next);
  }

  /** A step for an id the fold has not touched yet reconciles its entry. */
  lemma ReconciledNow(o: Outline, s: DbState, u: DbState, e: Entry)
    requires e.content.id in s.nodes <==> e.content.id in u.nodes
    requires e.content.id in s.nodes ==> u.nodes[e.content.id] == s.nodes[e.content.id]
    ensures Reconciled(o, s, OutlineStep(o, u, e), e)
  {
    StepEffect(o, u, e);
  }

  /** A step for an id no entry of `es` names keeps all of them reconciled. */
  lemma ReconciledAllKept(o: Outline, s: DbState, u: DbState, es: seq<Entry>, next: Entry)
    requires forall e :: e in es ==> Reconciled(o, s, u, e) && e.content.id != next.content.id
    ensures forall e :: e in es ==> Reconciled(o, s, OutlineStep(o, u, next), e)
  {
    forall e | e in es ensures Reconciled(o, s, OutlineStep(o, u, next), e) {
      ReconciledKept(o, s, u, e, next);
    }
  }

  /** The entries before the last one are distinct, and none names the last one's record. */
  lemma UniqueIdsSplit(es: seq<Entry>)
    requires es != [] && UniqueIds(es)
    ensures UniqueIds(es[..|es| - 1])
    ensures forall e :: e in es[..|es| - 1] ==> e.content.id != es[|es| - 1].content.id
    ensures es[|es| - 1].content.id !in EntryIds(es[..|es| - 1])
    ensures forall e :: e in es ==> e in es[..|es| - 1] || e == es[|es| - 1]
  {
    var n := |es| - 1;
    assert es == es[..n] + [es[n]];
    forall j | 0 <= j < n ensures es[..n][j].content.id != es[n].content.id {
      assert es[..n][j] == es[j];
    }
  }

  /** With distinct ids, every entry ends up reconciled against the state the fold started from. */
  lemma {:induction false} StepsReconcile(o: Outline, s: DbState, es: seq<Entry>)
    requires UniqueIds(es)
    ensures forall e :: e in es ==> Reconciled(o, s, OutlineSteps(o, s, es), e)
  {
    if es != [] {
      var n := |es| - 1;
      var pre := es[..n];
      var last := es[n];
      var u := OutlineSteps(o, s, pre);
      UniqueIdsSplit(es);
      StepsReconcile(o, s, pre);
      StepsFrame(o, s, pre);
      ReconciledNow(o, s, u, last);
      ReconciledAllKept(o, s, u, pre, last);
      var t := OutlineStep(o, u, last);
      assert OutlineSteps(o, s, es) == t;
    }
  }

  /** Folding over entries whose records already fit changes nothing. */
  lemma {:induction false} StepsQuietWhenFitting(o: Outline, s: DbState, es: seq<Entry>)
    requires forall e :: e in es ==> e.content.id in s.nodes && Fits(s.nodes[e.content.id], TargetOf(o, e))
    ensures OutlineSteps(o, s, es) == s
  {
    if es != [] {
      var n := |es| - 1;
      assert es[n] in es;
      assert forall e :: e in es[..n] ==> e in es;
      StepsQuietWhenFitting(o, s, es[..n]);
      StepQuietWhenFitting(o, s, es[n]);
    }
  }

  /**
   * After an outline save the parent holds the content ids of the top-level
   * items in document order, and nothing else of it changes but updatedAt.
   */
  lemma SaveOutlineParent(o: Outline, s: DbState)
    requires o.parentId !in EntryIds(ListContents(o.ul))
    requires o.parentId in s.nodes
    ensures var t := SaveOutline(o, s);
      && o.parentId in t.nodes
      && t.nodes[o.parentId] == s.nodes[o.parentId].(children := ItemIds(o.ul), updatedAt := o.now)
  {
    var s1 := UpdateNode(s, o.parentId, ChildrenPatch(ItemIds(o.ul)), o.now);
    StepsFrame(o, s1, ListContents(o.ul));
  }

  /** An outline save touches only the parent and the records its list contents name. */
  lemma SaveOutlineFrame(o: Outline, s: DbState)
    ensures var t := SaveOutline(o, s);
      && t.nodes.Keys == s.nodes.Keys + EntryIds(ListContents(o.ul))
      && (forall x :: x in s.nodes && x != o.parentId && x !in EntryIds(ListContents(o.ul)) ==> t.nodes[x] == s.nodes[x])
      && IsPrefix(s.tagRows, t.tagRows) && IsPrefix(s.events, t.events)
  {
    var s1 := UpdateNode(s, o.parentId, ChildrenPatch(ItemIds(o.ul)), o.now);
    StepsFrame(o, s1, ListContents(o.ul));
  }

  /**
   * The stored tree matches the document: for every item of the outline, in
   * pre-order, its record has the enclosing item's content id as parent (the
   * outline's parent at the top level), the content ids of its nested list as
   * children, its content's inline children as element and its collapsed
   * flag. A record the save created is typed COMMON for an outliner and
   * LIST_ITEM otherwise; an existing record keeps its type.
   */
  lemma SaveOutlinePlacement(o: Outline, s: DbState, k: nat)
    requires Separated(o)
    requires k < |Placements(o.ul)|
    ensures var p := Placements(o.ul)[k]; var id := p.item.content.id; var t := SaveOutline(o, s);
      && id in t.nodes
      && t.nodes[id].parentId == Some(if p.enclosing.Some? then p.enclosing.value else o.parentId)
      && t.nodes[id].children == SubIds(p.item)
      && t.nodes[id].element == p.item.content.children
      && t.nodes[id].collapsed == p.item.content.collapsed
      && (id !in s.nodes ==> t.nodes[id].nodeType == (if o.isOutliner then COMMON else LIST_ITEM) &&
                             t.nodes[id].spaceId == o.spaceId)
      && (id in s.nodes ==> SameIdentity(t.nodes[id], s.nodes[id]))
  {
    var es := ListContents(o.ul);
    var s1 := UpdateNode(s, o.parentId, ChildrenPatch(ItemIds(o.ul)), o.now);
    ListContentsResolve(o.ul);
    var p := Placements(o.ul)[k];
    var e := es[k];
    assert Resolves(o.ul, e, p);
    ResolvedEntry(o.ul, e, p, o.parentId);
    StepsReconcile(o, s1, es);
    assert e in es;
    assert Reconciled(o, s1, SaveOutline(o, s), e);
    assert e.content.id != o.parentId by {
      assert e in es;
    }
  }

  /**
   * Saving the same outline twice: the second save issues no write but the
   * parent's, appends no tag row and emits no event, and the only record it
   * changes is the parent's updatedAt.
   */
  lemma ResaveIsQuiet(o: Outline, s: DbState, later: int)
    requires Separated(o)
    ensures var t := SaveOutline(o, s); var u := SaveOutline(o.(now := later), t);
      && u.tagRows == t.tagRows
      && u.events == t.events
      && u.writes == t.writes + [Updated(o.parentId)]
      && u.nodes == (if o.parentId in t.nodes
                     then t.nodes[o.parentId := t.nodes[o.parentId].(updatedAt := later)]
                     else t.nodes)
  {
    var es := ListContents(o.ul);
    var o2 := o.(now := later);
    var s1 := UpdateNode(s, o.parentId, ChildrenPatch(ItemIds(o.ul)), o.now);
    var t := SaveOutline(o, s);
    var t1 := UpdateNode(t, o.parentId, ChildrenPatch(ItemIds(o.ul)), later);
    StepsReconcile(o, s1, es);
    forall e | e in es ensures e.content.id in t1.nodes && Fits(t1.nodes[e.content.id], TargetOf(o2, e)) {
      assert Reconciled(o, s1, t, e);
    }
    StepsQuietWhenFitting(o2, t1, es);
    if o.parentId in s.nodes {
      SaveOutlineParent(o, s);
    } else {
      SaveOutlineFrame(o, s);
    }
  }

  // ---------------------------------------------------------------------
  // Block save: one step per top-level block.

  /** The arguments of one block save; `selfId` is the id of the service's own node. */
  datatype Blocks = Blocks(selfId: string, parentId: string, spaceId: string, tagsOf: Tagger, now: int)

  /** The id of a top-level block (blocks are elements, never bare text). */
  function BlockId(b: Slate): (id: string)
    requires !b.Text?
  {
    b.id
  }

  function BlockIds(bs: seq<Slate>): (ids: seq<string>)
    requires forall b :: b in bs ==> !b.Text?
    ensures |ids| == |bs|
    ensures forall i :: 0 <= i < |bs| ==> ids[i] == BlockId(bs[i])
  {
    if bs == [] then [] else BlockIds(bs[..|bs| - 1]) + [BlockId(bs[|bs| - 1])]
  }

  /** The outline save a list-shaped block triggers for its own items. */
  function BlockOutline(c: Blocks, b: Slate): (o: Outline)
    requires b.List?
  {
    Outline(b.id, b.items, false, c.spaceId, c.tagsOf, c.now)
  }

  /** The ids of the list contents inside a block. */
  function InnerIds(b: Slate): (ids: set<string>)
  {
    if b.List? then EntryIds(ListContents(b.items)) else {}
  }

  function NewBlockRecord(c: Blocks, b: Slate): (r: Record)
    requires !b.Text?
  {
    Record(BlockId(b), c.spaceId, if b.List? then LIST else DEFAULT_TYPE, Some(c.parentId),
      [], [b], map[], false, c.now, c.now)
  }

  /** A block's own record: the existing one rewritten, or a new one created under the parent. */
  function BlockHead(c: Blocks, s: DbState, b: Slate): (t: DbState)
    requires !b.Text?
  {
    if BlockId(b) in s.nodes
    then UpdateNode(s, BlockId(b), Patch(None, Some([]), Some([b]), None, None), c.now)
    else CreateNode(s, NewBlockRecord(c, b))
  }

  /** The store effect of one block. */
  function BlockStep(c: Blocks, s: DbState, b: Slate): (t: DbState)
    requires !b.Text?
  {
    var id := BlockId(b);
    var tags := c.tagsOf([b]);
    var s1 := BlockHead(c, s, b);
    var s2 := if b.List? then SaveOutline(BlockOutline(c, b), s1) else s1;
    var s3 := AddTagRows(s2, tags, id);
    if id in s.nodes && |tags| > 0 then Emit(s3, id) else s3
  }

  function BlockSteps(c: Blocks, s: DbState, bs: seq<Slate>): (t: DbState)
    requires forall b :: b in bs ==> !b.Text?
  {
    if bs == [] then s
    else
      var n := |bs| - 1;
      assert bs[n] in bs;
      BlockStep(c, BlockSteps(c, s, bs[..n]), bs[n])
  }

  lemma BlockStepsSnoc(c: Blocks, s: DbState, bs: seq<Slate>, k: nat)
    requires forall b :: b in bs ==> !b.Text?
    requires k < |bs|
    ensures forall b :: b in bs[..k + 1] ==> !b.Text?
    ensures BlockSteps(c, s, bs[..k + 1]) == BlockStep(c, BlockSteps(c, s, bs[..k]), bs[k])
  {
    assert bs[k] in bs;
    assert forall b :: b in bs[..k + 1] ==> b in bs;
    assert bs[..k + 1][..k] == bs[..k];
  }

  /** A whole block save: the own node's children first, then every block in order. */
  function SaveBlocks(c: Blocks, s: DbState, bs: seq<Slate>): (t: DbState)
    requires forall b :: b in bs ==> !b.Text?
  {
    BlockSteps(c, UpdateNode(s, c.selfId, ChildrenPatch(BlockIds(bs)), c.now), bs)
  }

  /** The head of a block step writes the block's own record and nothing else. */
  lemma BlockHeadEffect(c: Blocks, s: DbState, b: Slate)
    requires !b.Text?
    ensures var t := BlockHead(c, s, b); var id := BlockId(b);
      && t.nodes.Keys == s.nodes.Keys + {id}
      && (forall x :: x in s.nodes && x != id ==> t.nodes[x] == s.nodes[x])
      && t.nodes[id].element == [b] && t.nodes[id].children == []
      && (id !in s.nodes ==> t.nodes[id] == NewBlockRecord(c, b))
      && (id in s.nodes ==> SameIdentity(t.nodes[id], s.nodes[id]) && t.nodes[id].parentId == s.nodes[id].parentId)
      && t.tagRows == s.tagRows
  {
  }

  /**
   * One block: its record holds the block as its only element; its children
   * are cleared, or re-derived from the block's items when it is a list; a
   * new record is typed LIST exactly when the block is list-shaped; the
   * block's tag rows are appended whether or not anything changed.
   */
  lemma BlockStepEffect(c: Blocks, s: DbState, b: Slate)
    requires !b.Text?
    requires b.List? ==> Separated(BlockOutline(c, b))
    ensures var t := BlockStep(c, s, b); var id := BlockId(b);
      && t.nodes.Keys == s.nodes.Keys + {id} + InnerIds(b)
      && (forall x :: x in s.nodes && x != id && x !in InnerIds(b) ==> t.nodes[x] == s.nodes[x])
      && t.nodes[id].element == [b]
      && t.nodes[id].children == (if b.List? then ItemIds(b.items) else [])
      && (id !in s.nodes ==> t.nodes[id].nodeType == (if b.List? then LIST else DEFAULT_TYPE) &&
                             t.nodes[id].parentId == Some(c.parentId))
      && (id in s.nodes ==> SameIdentity(t.nodes[id], s.nodes[id]) && t.nodes[id].parentId == s.nodes[id].parentId)
      && (exists mid :: t.tagRows == s.tagRows + mid + TagRowsFor(c.tagsOf([b]), BlockId(b)))
      && (exists mid :: t.events == s.events + mid + (if id in s.nodes && |c.tagsOf([b])| > 0 then [id] else []))
      && (!b.List? ==> t.tagRows == s.tagRows + TagRowsFor(c.tagsOf([b]), BlockId(b)))
      && (!b.List? ==> t.events == s.events + (if id in s.nodes && |c.tagsOf([b])| > 0 then [id] else []))
  {
    var id := BlockId(b);
    var s1 := BlockHead(c, s, b);
    BlockHeadEffect(c, s, b);
    var s2 := if b.List? then SaveOutline(BlockOutline(c, b), s1) else s1;
    if b.List? {
      var o := BlockOutline(c, b);
      SaveOutlineFrame(o, s1);
      SaveOutlineParent(o, s1);
      PrefixSplit(s1.tagRows, s2.tagRows);
      PrefixSplit(s1.events, s2.events);
    } else {
      assert s2.tagRows == s1.tagRows + [];
      assert s2.events == s1.events + [];
    }
    BlockTail(s2, c.tagsOf([b]), id, id in s.nodes && |c.tagsOf([b])| > 0);
  }

  /** Appending tag rows and possibly an event leaves the records alone. */
  lemma BlockTail(s: DbState, tags: seq<string>, id: string, emit: bool)
    ensures var s3 := AddTagRows(s, tags, id); var t := if emit then Emit(s3, id) else s3;
      && t.nodes == s.nodes && t.tagRows == s.tagRows + TagRowsFor(tags, id)
      && t.events == s.events + (if emit then [id] else [])
  {
  }

  /** The records a block step may write: the block's own and those of its list contents. */
  function Touched(b: Slate): (ids: set<string>)
  {
    if b.Text? then {} else {b.id} + InnerIds(b)
  }

  /** No block of `bs` may write the record `x`. */
  ghost predicate Untouched(bs: seq<Slate>, x: string)
  {
    forall b :: b in bs ==> x !in Touched(b)
  }

  /**
   * The blocks name disjoint sets of records, none of them the own node, and
   * every list block's outline is separated.
   */
  ghost predicate BlocksSeparated(c: Blocks, bs: seq<Slate>)
  {
    && (forall b :: b in bs ==> !b.Text? && (b.List? ==> Separated(BlockOutline(c, b))) && c.selfId !in Touched(b))
    && (forall i, j :: 0 <= i < j < |bs| ==> Touched(bs[i]) !! Touched(bs[j]))
  }

  /** The outcome for one block. */
  ghost predicate BlockDone(c: Blocks, s: DbState, t: DbState, b: Slate)
    requires !b.Text?
  {
    var id := BlockId(b);
    && id in t.nodes
    && t.nodes[id].element == [b]
    && t.nodes[id].children == (if b.List? then ItemIds(b.items) else [])
    && (id !in s.nodes ==> t.nodes[id].nodeType == (if b.List? then LIST else DEFAULT_TYPE) &&
                           t.nodes[id].parentId == Some(c.parentId))
    && (id in s.nodes ==> SameIdentity(t.nodes[id], s.nodes[id]) && t.nodes[id].parentId == s.nodes[id].parentId)
  }

  /** Block steps only add records, and leave every record no block names as it was. */
  lemma {:induction false} BlocksFrame(c: Blocks, s: DbState, bs: seq<Slate>)
    requires forall b :: b in bs ==> !b.Text? && (b.List? ==> Separated(BlockOutline(c, b)))
    ensures var t := BlockSteps(c, s, bs);
      && s.nodes.Keys <= t.nodes.Keys
      && (forall x :: Untouched(bs, x) ==>
            (x in t.nodes <==> x in s.nodes) && (x in s.nodes ==> t.nodes[x] == s.nodes[x]))
  {
    if bs != [] {
      var n := |bs| - 1;
      var pre := bs[..n];
      assert bs[n] in bs;
      assert forall b :: b in pre ==> b in bs;
      BlocksFrame(c, s, pre);
      var u := BlockSteps(c, s, pre);
      BlockStepEffect(c, u, bs[n]);
      forall x | Untouched(bs, x) ensures Untouched(pre, x) && x !in Touched(bs[n]) {
      }
    }
  }

  lemma BlockDoneKept(c: Blocks, s: DbState, u: DbState, b: Slate, next: Slate)
    requires !b.Text? && !next.Text? && (next.List? ==> Separated(BlockOutline(c, next)))
    requires BlockDone(c, s, u, b) && BlockId(b) !in Touched(next)
    ensures BlockDone(c, s, BlockStep(c, u, next), b)
  {
    BlockStepEffect(c, u, next);
  }

  lemma BlockDoneNow(c: Blocks, s: DbState, u: DbState, b: Slate)
    requires !b.Text? && (b.List? ==> Separated(BlockOutline(c, b)))
    requires BlockId(b) in s.nodes <==> BlockId(b) in u.nodes
    requires BlockId(b) in s.nodes ==> u.nodes[BlockId(b)] == s.nodes[BlockId(b)]
    ensures BlockDone(c, s, BlockStep(c, u, b), b)
  {
    BlockStepEffect(c, u, b);
  }

  /** Splitting off the last block keeps the rest separated and apart from it. */
  lemma BlocksSplit(c: Blocks, bs: seq<Slate>)
    requires bs != [] && BlocksSeparated(c, bs)
    ensures var n := |bs| - 1; var pre := bs[..n];
      && BlocksSeparated(c, pre)
      && (forall b :: b in pre ==> BlockId(bs[n]) !in Touched(b) && BlockId(b) !in Touched(bs[n]))
      && (forall b :: b in bs ==> b in pre || b == bs[n])
  {
    var n := |bs| - 1;
    var pre := bs[..n];
    assert bs == pre + [bs[n]];
    assert forall b :: b in pre ==> b in bs;
    forall i, j | 0 <= i < j < n ensures Touched(pre[i]) !! Touched(pre[j]) {
      assert pre[i] == bs[i] && pre[j] == bs[j];
    }
    forall b | b in pre ensures BlockId(bs[n]) !in Touched(b) && BlockId(b) !in Touched(bs[n]) {
      var j :| 0 <= j < n && pre[j] == b;
      assert Touched(bs[j]) !! Touched(bs[n]);
    }
  }

  /** A block step keeps every block done whose record it does not name. */
  lemma BlockDoneAllKept(c: Blocks, s: DbState, u: DbState, bs: seq<Slate>, next: Slate)
    requires !next.Text? && (next.List? ==> Separated(BlockOutline(c, next)))
    requires forall b :: b in bs ==> !b.Text? && BlockDone(c, s, u, b) && BlockId(b) !in Touched(next)
    ensures forall b :: b in bs ==> BlockDone(c, s, BlockStep(c, u, next), b)
  {
    forall b | b in bs ensures BlockDone(c, s, BlockStep(c, u, next), b) {
      BlockDoneKept(c, s, u, b, next);
    }
  }

  /** Every block of a separated block fold ends up done. */
  lemma {:induction false} BlocksReconcile(c: Blocks, s: DbState, bs: seq<Slate>)
    requires BlocksSeparated(c, bs)
    ensures forall b :: b in bs ==> BlockDone(c, s, BlockSteps(c, s, bs), b)
  {
    if bs != [] {
      var n := |bs| - 1;
      var pre := bs[..n];
      var last := bs[n];
      assert last in bs;
      BlocksSplit(c, bs);
      BlocksReconcile(c, s, pre);
      var u := BlockSteps(c, s, pre);
      BlocksFrame(c, s, pre);
      assert Untouched(pre, BlockId(last));
      BlockDoneNow(c, s, u, last);
      BlockDoneAllKept(c, s, u, pre, last);
      assert BlockSteps(c, s, bs) == BlockStep(c, u, last);
    }
  }

  /**
   * `runs` occur in `rows` one after another, each as a contiguous stretch,
   * the last one at the very end; other rows may lie between them.
   */
  ghost predicate RunsInOrder(rows: seq<TagRow>, runs: seq<seq<TagRow>>)
    decreases |runs|
  {
    if runs == [] then true
    else
      var last := runs[|runs| - 1];
      && |last| <= |rows| && rows[|rows| - |last|..] == last
      && exists k :: 0 <= k <= |rows| - |last| && RunsInOrder(rows[..k], runs[..|runs| - 1])
  }

  lemma RunsSnoc(rows: seq<TagRow>, mid: seq<TagRow>, run: seq<TagRow>, runs: seq<seq<TagRow>>)
    requires RunsInOrder(rows, runs)
    ensures RunsInOrder(rows + mid + run, runs + [run])
  {
    var all := rows + mid + run;
    assert all[..|rows|] == rows;
    assert (runs + [run])[..|runs|] == runs;
    assert all[|all| - |run|..] == run;
  }

  /** Appending to a sequence keeps its prefixes, and the appended part follows the old remainder. */
  lemma PrefixGrow<T>(a: seq<T>, b: seq<T>, mid: seq<T>, tail: seq<T>)
    requires IsPrefix(a, b)
    ensures IsPrefix(a, b + mid + tail)
    ensures (b + mid + tail)[|a|..] == b[|a|..] + mid + tail
  {
  }

  lemma BlockTagRowsSnoc(c: Blocks, bs: seq<Slate>)
    requires bs != [] && forall b :: b in bs ==> !b.Text?
    ensures forall b :: b in bs[..|bs| - 1] ==> !b.Text?
    ensures BlockTagRows(c, bs) ==
      BlockTagRows(c, bs[..|bs| - 1]) + [TagRowsFor(c.tagsOf([bs[|bs| - 1]]), BlockId(bs[|bs| - 1]))]
  {
    assert forall b :: b in bs[..|bs| - 1] ==> b in bs;
  }

  /** The tag rows of each block's own tags, in block order. */
  function BlockTagRows(c: Blocks, bs: seq<Slate>): (runs: seq<seq<TagRow>>)
    requires forall b :: b in bs ==> !b.Text?
  {
    seq(|bs|, i requires 0 <= i < |bs| => TagRowsFor(c.tagsOf([bs[i]]), BlockId(bs[i])))
  }

  /**
   * Block steps keep the old tag rows and events in front, and append every
   * block's own tag rows, in block order, whether or not anything changed.
   */
  lemma {:induction false} BlocksTagRows(c: Blocks, s: DbState, bs: seq<Slate>)
    requires forall b :: b in bs ==> !b.Text? && (b.List? ==> Separated(BlockOutline(c, b)))
    ensures var t := BlockSteps(c, s, bs);
      && IsPrefix(s.tagRows, t.tagRows) && IsPrefix(s.events, t.events)
      && RunsInOrder(t.tagRows[|s.tagRows|..], BlockTagRows(c, bs))
  {
    if bs != [] {
      var n := |bs| - 1;
      var pre := bs[..n];
      assert bs[n] in bs;
      assert forall b :: b in pre ==> b in bs;
      BlocksTagRows(c, s, pre);
      var u := BlockSteps(c, s, pre);
      var t := BlockStep(c, u, bs[n]);
      assert BlockSteps(c, s, bs) == t;
      BlockStepEffect(c, u, bs[n]);
      var run := TagRowsFor(c.tagsOf([bs[n]]), BlockId(bs[n]));
      var mid :| t.tagRows == u.tagRows + mid + run;
      var emid :| t.events == u.events + emid +
        (if BlockId(bs[n]) in u.nodes && |c.tagsOf([bs[n]])| > 0 then [BlockId(bs[n])] else []);
      PrefixGrow(s.tagRows, u.tagRows, mid, run);
      PrefixGrow(s.events, u.events, emid,
        if BlockId(bs[n]) in u.nodes && |c.tagsOf([bs[n]])| > 0 then [BlockId(bs[n])] else []);
      RunsSnoc(u.tagRows[|s.tagRows|..], mid, run, BlockTagRows(c, pre));
      BlockTagRowsSnoc(c, bs);
    }
  }

  /**
   * A block save of separated blocks: the own node's children become the
   * block ids in order, and every block is done (its element is the block,
   * its children cleared or re-derived, its type LIST exactly for a new list).
   */
  lemma SaveBlocksResult(c: Blocks, s: DbState, bs: seq<Slate>)
    requires BlocksSeparated(c, bs)
    ensures var t := SaveBlocks(c, s, bs);
      && (c.selfId in s.nodes ==>
            c.selfId in t.nodes && t.nodes[c.selfId] == s.nodes[c.selfId].(children := BlockIds(bs), updatedAt := c.now))
      && (forall b :: b in bs ==> BlockDone(c, s, t, b))
      && IsPrefix(s.tagRows, t.tagRows) && IsPrefix(s.events, t.events)
      && RunsInOrder(t.tagRows[|s.tagRows|..], BlockTagRows(c, bs))
  {
    var s1 := UpdateNode(s, c.selfId, ChildrenPatch(BlockIds(bs)), c.now);
    BlocksTagRows(c, s1, bs);
    BlocksFrame(c, s1, bs);
    BlocksReconcile(c, s1, bs);
    var t := SaveBlocks(c, s, bs);
    forall b | b in bs ensures BlockDone(c, s, t, b) {
      assert BlockDone(c, s1, t, b);
    }
  }

  // ---------------------------------------------------------------------
  // The ancestor walk.

  /** JavaScript truthiness of an optional id. */
  predicate Truthy(p: Option<string>)
  {
    p.Some? && p.value != ""
  }

  /** Some record of `rs` has the id `r` names as its parent. */
  predicate HasStoredParent(r: Record, rs: seq<Record>)
  {
    exists q :: 0 <= q < |rs| && r.parentId == Some(rs[q].id)
  }

  /** The last record of a walk from `start` along `chain`. */
  function Last(start: Record, chain: seq<Record>): (r: Record)
  {
    if chain == [] then start else chain[|chain| - 1]
  }

  /** Each record of `chain` is taken from `rs` and is the parent of the one before it. */
  ghost predicate ParentChain(start: Record, chain: seq<Record>, rs: seq<Record>)
  {
    && (|chain| > 0 ==> start.parentId == Some(chain[0].id))
    && (forall j :: 0 <= j < |chain| ==> chain[j] in rs)
    && (forall j :: 0 <= j < |chain| - 1 ==> chain[j].parentId == Some(chain[j + 1].id))
  }

  /** The records of `chain` that are not ROOT, each one put in front of those found before it. */
  function Unshifted(chain: seq<Record>): (r: seq<Record>)
    ensures forall x :: x in r <==> x in chain && x.nodeType != ROOT
  {
    if chain == [] then []
    else
      var last := chain[|chain| - 1];
      assert chain == chain[..|chain| - 1] + [last];
      (if last.nodeType != ROOT then [last] else []) + Unshifted(chain[..|chain| - 1])
  }

  lemma ParentChainExtend(start: Record, chain: seq<Record>, item: Record, rs: seq<Record>)
    requires ParentChain(start, chain, rs)
    requires item in rs && Last(start, chain).parentId == Some(item.id)
    ensures ParentChain(start, chain + [item], rs)
  {
    var c := chain + [item];
    assert forall j :: 0 <= j < |chain| ==> c[j] == chain[j];
  }

  lemma UnshiftedExtend(chain: seq<Record>, item: Record)
    ensures Unshifted(chain + [item]) == (if item.nodeType != ROOT then [item] else []) + Unshifted(chain)
  {
    assert (chain + [item])[..|chain|] == chain;
  }

  // ---------------------------------------------------------------------

  class NodeService {
    /** The node the service was opened on. */
    const node: Record
    const allNodes: seq<Record>
    const nodeMap: map<string, Record>
    /** The node's children resolved through the map; `None` for an id the map lacks. */
    const childrenNodes: seq<Option<Record>>
    const db: Database
    /** The id of the built-in demo space, whose documents are never saved. */
    const demoSpaceId: string

    ghost predicate Valid()
    {
      nodeMap == IndexById(allNodes)
    }

    constructor (node: Record, allNodes: seq<Record>, db: Database, demoSpaceId: string)
      ensures this.node == node && this.allNodes == allNodes && this.db == db && this.demoSpaceId == demoSpaceId
      ensures Valid()
      ensures |childrenNodes| == |node.children|
      ensures forall i :: 0 <= i < |node.children| ==>
        childrenNodes[i] == if node.children[i] in nodeMap then Some(nodeMap[node.children[i]]) else None
    {
      this.node := node;
      this.allNodes := allNodes;
      this.db := db;
      this.demoSpaceId := demoSpaceId;
      var m: map<string, Record> := map[];
      for i := 0 to |allNodes|
        invariant m == IndexById(allNodes[..i])
      {
        assert allNodes[..i + 1][..i] == allNodes[..i];
        m := m[allNodes[i].id := allNodes[i]];
      }
      assert allNodes[..|allNodes|] == allNodes;
      nodeMap := m;
      childrenNodes := seq(|node.children|, i requires 0 <= i < |node.children| =>
        if node.children[i] in m then Some(m[node.children[i]]) else None);
    }

    /** The stored parent of the node, if its parent id resolves. */
    function ParentNode(): (r: Option<Record>)
      requires Valid()
      ensures r.Some? <==> node.parentId.Some? && exists n :: n in allNodes && n.id == node.parentId.value
      ensures r.Some? ==> r.value in allNodes && Some(r.value.id) == node.parentId
    {
      if node.parentId.Some? && node.parentId.value in nodeMap then Some(nodeMap[node.parentId.value]) else None
    }

    /** The state of the ancestor walk: `cur` is where `chain` ends, `parents` what it has collected. */
    ghost predicate Walked(cur: Record, chain: seq<Record>, parents: seq<Record>)
    {
      cur == Last(node, chain) && parents == Unshifted(chain) + [node] && ParentChain(node, chain, allNodes)
    }

    lemma WalkStep(cur: Record, chain: seq<Record>, parents: seq<Record>, item: Record)
      requires Walked(cur, chain, parents)
      requires item in allNodes && cur.parentId == Some(item.id)
      ensures Walked(item, chain + [item], if item.nodeType != ROOT then [item] + parents else parents)
    {
      ParentChainExtend(node, chain, item, allNodes);
      UnshiftedExtend(chain, item);
    }

    /** Everything a walk collected before the node itself is a stored non-ROOT record. */
    lemma WalkedParents(cur: Record, chain: seq<Record>, parents: seq<Record>)
      requires Walked(cur, chain, parents)
      ensures |parents| >= 1 && parents[|parents| - 1] == node
      ensures forall k :: 0 <= k < |parents| - 1 ==> parents[k] in allNodes && parents[k].nodeType != ROOT
    {
      forall k | 0 <= k < |parents| - 1 ensures parents[k] in allNodes && parents[k].nodeType != ROOT {
        assert parents[k] == Unshifted(chain)[k] && parents[k] in Unshifted(chain);
      }
    }

    /**
     * The node's ancestors outermost first, ROOT excluded, then the node itself.
     * When the node has a parent the walk makes exactly 1001 passes; each pass
     * climbs at least one level while a stored parent exists, so the walk stops
     * at a record without a stored parent unless the chain has 1001 links.
     */
    method GetParentNodes() returns (parents: seq<Record>, ghost chain: seq<Record>, ghost passes: nat)
      ensures |parents| >= 1 && parents[|parents| - 1] == node
      ensures forall k :: 0 <= k < |parents| - 1 ==> parents[k] in allNodes && parents[k].nodeType != ROOT
      ensures parents == Unshifted(chain) + [node]
      ensures ParentChain(node, chain, allNodes)
      ensures !Truthy(node.parentId) ==> parents == [node] && passes == 0
      ensures Truthy(node.parentId) ==> passes == 1001 && (|chain| >= 1001 || !HasStoredParent(Last(node, chain), allNodes))
    {
      parents := [node];
      chain := [];
      passes := 0;
      var cur := node;
      var i := 0;
      while Truthy(node.parentId)
        invariant 0 <= i <= 1000 && passes == i
        invariant !Truthy(node.parentId) ==> chain == [] && i == 0
        invariant Walked(cur, chain, parents)
        invariant |chain| >= i || !HasStoredParent(cur, allNodes)
        decreases 1000 - i
      {
        cur, chain, parents := ScanForParents(cur, chain, parents);
        i := i + 1;
        passes := i;
        if i > 1000 {
          break;
        }
      }
      WalkedParents(cur, chain, parents);
    }

    /**
     * One pass over all nodes: every node whose id is the current node's parent
     * id becomes the current node, and goes in front of the result unless it is
     * ROOT. A pass climbs at least one level exactly when a stored parent exists.
     */
    method ScanForParents(start: Record, ghost chain0: seq<Record>, parents0: seq<Record>)
      returns (cur: Record, ghost chain: seq<Record>, parents: seq<Record>)
      requires Walked(start, chain0, parents0)
      ensures Walked(cur, chain, parents)
      ensures HasStoredParent(start, allNodes) ==> |chain| > |chain0|
      ensures !HasStoredParent(start, allNodes) ==> chain == chain0 && cur == start
    {
      cur, chain, parents := start, chain0, parents0;
      for j := 0 to |allNodes|
        invariant Walked(cur, chain, parents)
        invariant |chain| >= |chain0|
        invariant |chain| > |chain0| || (cur == start && forall q :: 0 <= q < j ==> start.parentId != Some(allNodes[q].id))
        invariant !HasStoredParent(start, allNodes) ==> chain == chain0 && cur == start
      {
        var item := allNodes[j];
        if cur.parentId == Some(item.id) {
          WalkStep(cur, chain, parents, item);
          cur := item;
          chain := chain + [item];
          if item.nodeType != ROOT {
            parents := [item] + parents;
          }
        }
      }
    }

    /** The store effect of saving a title onto `target`. */
    function TitleSaved(target: Record, title: Option<Title>, s: DbState, now: int): (t: DbState)
    {
      if title.None? then s
      else if IsDatabase(node) then
        UpdateNode(s, target.id, Patch(None, None, None, None,
          Some(target.props["name" := PlainText(title.value.children)])), now)
      else UpdateNode(s, target.id, Patch(None, None, Some(title.value.children), None, None), now)
    }

    /**
     * No title: nothing happens. A database node's title goes to `props.name`,
     * keeping the other props; any other title replaces the element. Only the
     * target's record changes, and the root's title also renames the space.
     */
    method SaveTitle(target: Record, title: Option<Title>, now: int) returns (rename: Option<SpaceRename>)
      modifies db
      ensures db.State() == TitleSaved(target, title, old(db.State()), now)
      ensures rename.Some? <==> title.Some? && IsRootNode(node)
      ensures rename.Some? ==> rename.value.name == PlainText(title.value.children)
      ensures rename.Some? && target.id in old(db.State()).nodes ==>
        rename.value.spaceId == old(db.State()).nodes[target.id].spaceId
    {
      rename := None;
      if title.None? {
        return;
      }
      var text := PlainText(title.value.children);
      if IsDatabase(node) {
        db.Update(target.id, Patch(None, None, None, None, Some(target.props["name" := text])), now);
      } else {
        db.Update(target.id, Patch(None, None, Some(title.value.children), None, None), now);
      }
      var updated := db.GetNode(target.id);
      if IsRootNode(node) {
        rename := Some(SpaceRename(if updated.Some? then updated.value.spaceId else target.spaceId, text));
      }
    }

    /** What a title save does to the stored record of its target. */
    lemma TitleSavedEffect(target: Record, title: Option<Title>, s: DbState, now: int)
      ensures var t := TitleSaved(target, title, s, now);
        && t.tagRows == s.tagRows && t.events == s.events
        && t.nodes.Keys == s.nodes.Keys
        && (forall x :: x in s.nodes && x != target.id ==> t.nodes[x] == s.nodes[x])
        && (title.Some? && target.id in s.nodes ==>
              var r := s.nodes[target.id]; var r' := t.nodes[target.id];
              && r'.id == r.id && r'.spaceId == r.spaceId && r'.nodeType == r.nodeType && r'.createdAt == r.createdAt
              && r'.parentId == r.parentId && r'.children == r.children && r'.collapsed == r.collapsed
              && (IsDatabase(node) ==>
                    r'.element == r.element &&
                    r'.props == target.props["name" := PlainText(title.value.children)])
              && (!IsDatabase(node) ==> r'.element == title.value.children && r'.props == r.props))
        && (title.None? ==> t == s)
    {
    }

    /** Appends one tag row per tag name for the node `id`. */
    method CreateTagRows(tags: seq<string>, id: string)
      modifies db
      ensures db.State() == AddTagRows(old(db.State()), tags, id)
    {
      ghost var s0 := db.State();
      for j := 0 to |tags|
        invariant db.State() == AddTagRows(s0, tags[..j], id)
      {
        assert tags[..j + 1][..j] == tags[..j];
        db.CreateTagRow(tags[j], id);
      }
      assert tags[..|tags|] == tags;
    }

    /** Reconciles the list `ul` under `parentId`, as the fold `SaveOutline` states. */
    method SaveOutlinerNodes(parentId: string, ul: seq<ListItem>, isOutliner: bool, tagsOf: Tagger, now: int)
      modifies db
      ensures db.State() == SaveOutline(Outline(parentId, ul, isOutliner, node.spaceId, tagsOf, now), old(db.State()))
    {
      var o := Outline(parentId, ul, isOutliner, node.spaceId, tagsOf, now);
      var childrenForCurrentNode := ItemIds(ul);
      db.Update(parentId, ChildrenPatch(childrenForCurrentNode), now);
      ghost var s1 := db.State();
      var listContents := ListContents(ul);
      for k := 0 to |listContents|
        invariant db.State() == OutlineSteps(o, s1, listContents[..k])
      {
        OutlineStepsSnoc(o, s1, listContents, k);
        ReconcileEntry(o, listContents[k]);
      }
      assert listContents[..|listContents|] == listContents;
    }

    /** One list content: create its record, or update it when its fingerprint changed. */
    method ReconcileEntry(o: Outline, e: Entry)
      modifies db
      ensures db.State() == OutlineStep(o, old(db.State()), e)
    {
      var children := ChildIdsAt(NodeAt(o.ul, Drop(e.path, 1)));
      var newParentId := ParentIdAt(NodeAt(o.ul, Drop(e.path, 3)), o.parentId);
      var element := ElementAt(Follow(AtList(o.ul), Tail(e.path)));
      assert Target(newParentId, children, element, e.content.collapsed) == TargetOf(o, e);
      var existing := db.GetNode(e.content.id);
      var tags := o.tagsOf(element);
      if existing.Some? {
        if ToHash(existing.value) != Fingerprint(Some(newParentId), element, e.content.collapsed, children) {
          db.Update(e.content.id, Patch(Some(Some(newParentId)), Some(children), Some(element), Some(e.content.collapsed), None), o.now);
          CreateTagRows(tags, e.content.id);
          if |tags| > 0 {
            db.EmitRefNodeUpdated(e.content.id);
          }
        }
      } else {
        db.Create(Record(e.content.id, o.spaceId, if o.isOutliner then COMMON else LIST_ITEM, Some(newParentId),
          children, element, map[], e.content.collapsed, o.now, o.now));
      }
    }

    /** Reconciles the top-level blocks under `parentId`, as the fold `SaveBlocks` states. */
    method SaveBlockNodes(parentId: string, elements: seq<Slate>, tagsOf: Tagger, now: int)
      requires forall b :: b in elements ==> !b.Text?
      modifies db
      ensures db.State() == SaveBlocks(Blocks(node.id, parentId, node.spaceId, tagsOf, now), old(db.State()), elements)
    {
      var c := Blocks(node.id, parentId, node.spaceId, tagsOf, now);
      db.Update(node.id, ChildrenPatch(BlockIds(elements)), now);
      ghost var s1 := db.State();
      for k := 0 to |elements|
        invariant db.State() == BlockSteps(c, s1, elements[..k])
      {
        BlockStepsSnoc(c, s1, elements, k);
        SaveBlock(c, elements[k]);
      }
      assert elements[..|elements|] == elements;
    }

    /** One top-level block: its own record, its list when it is one, its tag rows and event. */
    method SaveBlock(c: Blocks, item: Slate)
      requires !item.Text? && c.spaceId == node.spaceId
      modifies db
      ensures db.State() == BlockStep(c, old(db.State()), item)
    {
      var id := BlockId(item);
      var existing := db.GetNode(id);
      var tags := c.tagsOf([item]);
      if existing.Some? {
        db.Update(id, Patch(None, Some([]), Some([item]), None, None), c.now);
        if item.List? {
          SaveOutlinerNodes(id, item.items, false, c.tagsOf, c.now);
        }
        CreateTagRows(tags, id);
        if |tags| > 0 {
          db.EmitRefNodeUpdated(id);
        }
      } else {
        db.Create(NewBlockRecord(c, item));
        if item.List? {
          SaveOutlinerNodes(id, item.items, false, c.tagsOf, c.now);
        }
        CreateTagRows(tags, id);
      }
    }

    /** The store effect of an outline-editor save. */
    function OutlinerEditorSaved(target: Record, title: Option<Title>, ul: Option<seq<ListItem>>,
                                 tagsOf: Tagger, s: DbState, now: int): (t: DbState)
    {
      if target.spaceId == demoSpaceId then s
      else
        var s1 := TitleSaved(target, title, s, now);
        if ul.Some? && !IsDatabase(node) && !IsDatabaseRoot(node)
        then SaveOutline(Outline(target.id, ul.value, true, node.spaceId, tagsOf, now), s1)
        else s1
    }

    /**
     * Saves the title, then the outline body unless the node is a database or
     * a database root; a document of the demo space is not saved at all.
     */
    method SaveOutlinerEditor(target: Record, title: Option<Title>, ul: Option<seq<ListItem>>, tagsOf: Tagger, now: int)
      returns (rename: Option<SpaceRename>)
      modifies db
      ensures db.State() == OutlinerEditorSaved(target, title, ul, tagsOf, old(db.State()), now)
      ensures rename.Some? <==> target.spaceId != demoSpaceId && title.Some? && IsRootNode(node)
    {
      rename := None;
      if target.spaceId == demoSpaceId {
        return;
      }
      rename := SaveTitle(target, title, now);
      if ul.Some? && !IsDatabase(node) && !IsDatabaseRoot(node) {
        SaveOutlinerNodes(target.id, ul.value, true, tagsOf, now);
      }
    }

    /** The store effect of a block-editor save of `[title] + elements`. */
    function BlockEditorSaved(target: Record, title: Option<Title>, elements: seq<Slate>,
                              tagsOf: Tagger, s: DbState, now: int): (t: DbState)
      requires forall b :: b in elements ==> !b.Text?
    {
      var s1 := TitleSaved(target, title, s, now);
      if IsDatabase(node) || IsDatabaseRoot(node) then s1
      else SaveBlocks(Blocks(node.id, target.id, node.spaceId, tagsOf, now), s1, elements)
    }

    /** Saves the title, then the blocks unless the node is a database or a database root. */
    method SaveBlockEditor(target: Record, title: Option<Title>, elements: seq<Slate>, tagsOf: Tagger, now: int)
      returns (rename: Option<SpaceRename>)
      requires forall b :: b in elements ==> !b.Text?
      modifies db
      ensures db.State() == BlockEditorSaved(target, title, elements, tagsOf, old(db.State()), now)
      ensures rename.Some? <==> title.Some? && IsRootNode(node)
    {
      rename := SaveTitle(target, title, now);
      if IsDatabase(node) || IsDatabaseRoot(node) {
        return;
      }
      SaveBlockNodes(target.id, elements, tagsOf, now);
    }

    /** A save in the demo space writes nothing; a database node's save writes at most its title. */
    lemma EditorGuards(target: Record, title: Option<Title>, ul: Option<seq<ListItem>>,
                       elements: seq<Slate>, tagsOf: Tagger, s: DbState, now: int)
      requires forall b :: b in elements ==> !b.Text?
      ensures target.spaceId == demoSpaceId ==> OutlinerEditorSaved(target, title, ul, tagsOf, s, now) == s
      ensures IsDatabase(node) || IsDatabaseRoot(node) ==>
        OutlinerEditorSaved(target, title, ul, tagsOf, s, now) ==
          (if target.spaceId == demoSpaceId then s else TitleSaved(target, title, s, now)) &&
        BlockEditorSaved(target, title, elements, tagsOf, s, now) == TitleSaved(target, title, s, now)
    {
    }
  }
}
