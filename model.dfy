/**
 * Node records as the persistent store holds them, their classification,
 * the content hash used for change detection, the id index both services
 * build, and the order-by-updatedAt sort both getters use.
 */
module Model {

  datatype Option<+T> = None | Some(value: T)

  /** The closed set of node types the core distinguishes; every other type is `OtherType`. */
  datatype NodeType =
    | ROOT | DAILY_ROOT | INBOX | TRASH | FAVORITE
    | DATABASE | DATABASE_ROOT | LIST | LIST_ITEM | COMMON
    | OtherType(name: string)

  /** The kind tag of a rich-text element. */
  datatype Kind =
    | TitleKind | ParagraphKind | TagKind | BidirectionalLinkKind
    | OtherKind(name: string)

  /**
   * A rich-text fragment. `List` is a list-shaped element (a bulleted list);
   * its items hold a list-content element and an optional nested list.
   */
  datatype Slate =
    | Text(text: string)
    | Element(id: string, kind: Kind, linkId: Option<string>, children: seq<Slate>)
    | List(id: string, items: seq<ListItem>)

  datatype ListItem = ListItem(content: ListContent, sub: SubList)

  /** The nested list of a list item, when it has one. */
  datatype SubList = NoSubList | SubList(items: seq<ListItem>)

  datatype ListContent = ListContent(id: string, collapsed: bool, children: seq<Slate>)

  /** One raw node record. Timestamps are integers. */
  datatype Record = Record(
    id: string,
    spaceId: string,
    nodeType: NodeType,
    parentId: Option<string>,
    children: seq<string>,
    element: seq<Slate>,
    props: map<string, string>,
    collapsed: bool,
    createdAt: int,
    updatedAt: int)

  /** The four fields the content hash covers. */
  datatype Fingerprint = Fingerprint(
    parentId: Option<string>, element: seq<Slate>, collapsed: bool, children: seq<string>)

  /**
   * The content hash of a record. The digest is modelled as the canonical
   * tuple of the covered fields, so two records hash alike exactly when
   * those four fields agree.
   */
  function ToHash(r: Record): (h: Fingerprint)
  {
    Fingerprint(r.parentId, r.element, r.collapsed, r.children)
  }

  lemma HashCoversFourFields(a: Record, b: Record)
    ensures ToHash(a) == ToHash(b) <==>
      a.parentId == b.parentId && a.element == b.element &&
      a.collapsed == b.collapsed && a.children == b.children
  {
  }

  // Classification of a record by its type tag.
  predicate IsRootNode(r: Record) { r.nodeType == ROOT }
  predicate IsDatabase(r: Record) { r.nodeType == DATABASE }
  predicate IsDatabaseRoot(r: Record) { r.nodeType == DATABASE_ROOT }
  predicate IsCommon(r: Record) { r.nodeType == COMMON }

  /** Every id that occurs in `rs`. */
  function Ids(rs: seq<Record>): (s: set<string>)
  {
    set r | r in rs :: r.id
  }

  /**
   * The id -> record map built by inserting the records in order, so that a
   * later record with a duplicate id replaces an earlier one.
   */
  function IndexById(rs: seq<Record>): (m: map<string, Record>)
    ensures m.Keys == Ids(rs)
    ensures forall id :: id in m ==> m[id] in rs && m[id].id == id
  {
    if rs == [] then map[]
    else
      var m := IndexById(rs[..|rs| - 1]);
      assert rs == rs[..|rs| - 1] + [rs[|rs| - 1]];
      m[rs[|rs| - 1].id := rs[|rs| - 1]]
  }

  /** Every key of `m` maps to a record that carries that key as its id. */
  ghost predicate KeyedById(m: map<string, Record>)
  {
    forall id :: id in m ==> m[id].id == id
  }

  /** The record at index `i` is the one the index keeps for its id when no later record shares it. */
  lemma {:induction false} IndexByIdLastWins(rs: seq<Record>, i: nat)
    requires i < |rs|
    requires forall j :: i < j < |rs| ==> rs[j].id != rs[i].id
    ensures rs[i].id in IndexById(rs) && IndexById(rs)[rs[i].id] == rs[i]
  {
    var n := |rs| - 1;
    if i < n {
      IndexByIdLastWins(rs[..n], i);
    }
  }

  // ---------------------------------------------------------------------
  // Ordering by updatedAt (a stable insertion sort; both directions).

  /** `a` may stand before `b`: ascending by updatedAt, or descending when `desc`. */
  predicate InOrder(a: Record, b: Record, desc: bool)
  {
    if desc then a.updatedAt >= b.updatedAt else a.updatedAt <= b.updatedAt
  }

  ghost predicate Sorted(s: seq<Record>, desc: bool)
  {
    forall i, j :: 0 <= i < j < |s| ==> InOrder(s[i], s[j], desc)
  }

  /** Inserts `x` after every element it does not strictly precede. */
  function Insert(x: Record, s: seq<Record>, desc: bool): (r: seq<Record>)
    ensures multiset(r) == multiset(s) + multiset{x}
  {
    if s == [] then [x]
    else if InOrder(x, s[0], desc) && !InOrder(s[0], x, desc) then [x] + s
    else
      assert s == [s[0]] + s[1..];
      [s[0]] + Insert(x, s[1..], desc)
  }

  /** Sorts by updatedAt; equal keys keep their input order. */
  function SortByUpdatedAt(s: seq<Record>, desc: bool): (r: seq<Record>)
    ensures multiset(r) == multiset(s)
  {
    if s == [] then []
    else
      assert s == s[..|s| - 1] + [s[|s| - 1]];
      Insert(s[|s| - 1], SortByUpdatedAt(s[..|s| - 1], desc), desc)
  }

  /** A record that may precede every element of a sorted sequence may head it. */
  lemma ConsSorted(x: Record, s: seq<Record>, desc: bool)
    requires Sorted(s, desc)
    requires forall e :: e in s ==> InOrder(x, e, desc)
    ensures Sorted([x] + s, desc)
  {
    var r := [x] + s;
    forall i, j | 0 <= i < j < |r| ensures InOrder(r[i], r[j], desc) {
      assert r[j] == s[j - 1];
      if i > 0 {
        assert r[i] == s[i - 1];
      }
    }
  }

  /** The head of a sorted sequence may precede each of its elements. */
  lemma HeadFirst(s: seq<Record>, desc: bool)
    requires s != [] && Sorted(s, desc)
    ensures forall e :: e in s ==> InOrder(s[0], e, desc)
  {
    forall e | e in s ensures InOrder(s[0], e, desc) {
      var k :| 0 <= k < |s| && s[k] == e;
      if k > 0 {
        assert InOrder(s[0], s[k], desc);
      }
    }
  }

  lemma InsertMembers(x: Record, s: seq<Record>, desc: bool)
    ensures forall e :: e in Insert(x, s, desc) ==> e == x || e in s
  {
    var r := Insert(x, s, desc);
    forall e | e in r ensures e == x || e in s {
      assert e in multiset(r);
    }
  }

  lemma {:induction false} InsertSorted(x: Record, s: seq<Record>, desc: bool)
    requires Sorted(s, desc)
    ensures Sorted(Insert(x, s, desc), desc)
  {
    if s == [] {
    } else {
      HeadFirst(s, desc);
      if InOrder(x, s[0], desc) && !InOrder(s[0], x, desc) {
        ConsSorted(x, s, desc);
      } else {
        var t := s[1..];
        assert forall e :: e in t ==> e in s;
        InsertSorted(x, t, desc);
        InsertMembers(x, t, desc);
        ConsSorted(s[0], Insert(x, t, desc), desc);
      }
    }
  }

  /** The sort yields an ordered permutation of its input. */
  lemma {:induction false} SortByUpdatedAtSorted(s: seq<Record>, desc: bool)
    ensures Sorted(SortByUpdatedAt(s, desc), desc)
    ensures multiset(SortByUpdatedAt(s, desc)) == multiset(s)
  {
    if s != [] {
      SortByUpdatedAtSorted(s[..|s| - 1], desc);
      InsertSorted(s[|s| - 1], SortByUpdatedAt(s[..|s| - 1], desc), desc);
    }
  }
}
