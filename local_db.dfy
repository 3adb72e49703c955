/**
 * The persistent node store, the tag index and the change-notification bus
 * that the reconciler writes to. Only the contract the reconciler relies on
 * is modelled: per-call atomic writes, a partial update that merges the given
 * fields and bumps updatedAt, an append-only tag index and an ordered event
 * queue. Every create and update call is also logged, so that "no write was
 * issued" can be stated.
 */
module LocalDb {
  import opened Model

  datatype TagRow = TagRow(tagName: string, nodeId: string)

  /** A store call that writes a node record. */
  datatype Write = Created(id: string) | Updated(id: string)

  /** The whole observable state: records, tag rows, emitted events (node ids) and the write log. */
  datatype DbState = DbState(
    nodes: map<string, Record>,
    tagRows: seq<TagRow>,
    events: seq<string>,
    writes: seq<Write>)

  /** A partial update: only the fields that are present are written. */
  datatype Patch = Patch(
    parentId: Option<Option<string>>,
    children: Option<seq<string>>,
    element: Option<seq<Slate>>,
    collapsed: Option<bool>,
    props: Option<map<string, string>>)

  function Merge(r: Record, p: Patch, now: int): (r': Record)
  {
    r.(parentId := if p.parentId.Some? then p.parentId.value else r.parentId,
       children := if p.children.Some? then p.children.value else r.children,
       element := if p.element.Some? then p.element.value else r.element,
       collapsed := if p.collapsed.Some? then p.collapsed.value else r.collapsed,
       props := if p.props.Some? then p.props.value else r.props,
       updatedAt := now)
  }

  /** Merges the patch into the record under `id`, if there is one, and logs the call. */
  function UpdateNode(s: DbState, id: string, p: Patch, now: int): (t: DbState)
  {
    s.(nodes := if id in s.nodes then s.nodes[id := Merge(s.nodes[id], p, now)] else s.nodes,
       writes := s.writes + [Updated(id)])
  }

  function CreateNode(s: DbState, r: Record): (t: DbState)
  {
    s.(nodes := s.nodes[r.id := r], writes := s.writes + [Created(r.id)])
  }

  /** One tag row per tag name, in order, all for the node `id`. */
  function TagRowsFor(tags: seq<string>, id: string): (rows: seq<TagRow>)
    ensures |rows| == |tags|
    ensures forall i :: 0 <= i < |tags| ==> rows[i] == TagRow(tags[i], id)
  {
    if tags == [] then [] else TagRowsFor(tags[..|tags| - 1], id) + [TagRow(tags[|tags| - 1], id)]
  }

  function AddTagRows(s: DbState, tags: seq<string>, id: string): (t: DbState)
  {
    s.(tagRows := s.tagRows + TagRowsFor(tags, id))
  }

  function Emit(s: DbState, id: string): (t: DbState)
  {
    s.(events := s.events + [id])
  }

  function Lookup(s: DbState, id: string): (r: Option<Record>)
  {
    if id in s.nodes then Some(s.nodes[id]) else None
  }

  /** The store as one object whose fields the calls update in place. */
  class Database {
    var nodes: map<string, Record>
    var tagRows: seq<TagRow>
    var events: seq<string>
    var writes: seq<Write>

    function State(): (s: DbState)
      reads this
    {
      DbState(nodes, tagRows, events, writes)
    }

    constructor (initial: map<string, Record>)
      ensures State() == DbState(initial, [], [], [])
    {
      nodes, tagRows, events, writes := initial, [], [], [];
    }

    method GetNode(id: string) returns (r: Option<Record>)
      ensures r == Lookup(State(), id)
    {
      r := if id in nodes then Some(nodes[id]) else None;
    }

    method Update(id: string, p: Patch, now: int)
      modifies this
      ensures State() == UpdateNode(old(State()), id, p, now)
    {
      if id in nodes {
        nodes := nodes[id := Merge(nodes[id], p, now)];
      }
      writes := writes + [Updated(id)];
    }

    method Create(r: Record)
      modifies this
      ensures State() == CreateNode(old(State()), r)
    {
      nodes := nodes[r.id := r];
      writes := writes + [Created(r.id)];
    }

    method CreateTagRow(tagName: string, id: string)
      modifies this
      ensures State() == old(State()).(tagRows := old(tagRows) + [TagRow(tagName, id)])
    {
      tagRows := tagRows + [TagRow(tagName, id)];
    }

    method EmitRefNodeUpdated(id: string)
      modifies this
      ensures State() == Emit(old(State()), id)
    {
      events := events + [id];
    }
  }
}
