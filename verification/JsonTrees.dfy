/** Trees of cJSON items on the heap, the values they stand for, and the operations that walk them. */
module JsonTrees {
  import opened Bytes
  import opened JsonText
  import opened JsonItems
  import opened Wrappers

  /** The items of a tree: an item and the trees of its children. */
  datatype Shape = Shape(item: Item, kids: seq<Shape>)

  ghost function Roots(kids: seq<Shape>): (r: seq<Item>)
    ensures |r| == |kids| && forall i :: 0 <= i < |kids| ==> r[i] == kids[i].item
  {
    seq(|kids|, i requires 0 <= i < |kids| => kids[i].item)
  }

  /** The heap holds this tree, everything but its root in below. Every child list is a chain, and
      the members of objects have names. */
  ghost predicate Tree(sh: Shape, below: set<Item>)
    reads sh.item`child, sh.item`kind, below
    decreases sh
  {
    && (forall i :: 0 <= i < |sh.kids| ==> sh.kids[i].item in below)
    && Chain(sh.item, Roots(sh.kids))
    && (sh.item.kind == ObjectKind ==> forall i :: 0 <= i < |sh.kids| ==> sh.kids[i].item.name.Some?)
    && (forall i :: 0 <= i < |sh.kids| ==> Tree(sh.kids[i], below))
  }

  /** What the tree stands for. */
  ghost function Value(sh: Shape, below: set<Item>): Json
    requires Tree(sh, below)
    reads sh.item`kind, sh.item`child, sh.item`valuedouble, sh.item`valuestring, below
    decreases sh, 1
  {
    match sh.item.kind
    case NullKind => Null
    case FalseKind => False
    case TrueKind => True
    case NumberKind => Number(sh.item.valuedouble)
    case StringKind => String(sh.item.valuestring)
    case ArrayKind => Array(Values(sh.kids, below))
    case ObjectKind => Object(Members(sh.kids, below))
  }

  ghost predicate Forest(kids: seq<Shape>, below: set<Item>)
    reads below
  {
    forall i :: 0 <= i < |kids| ==> kids[i].item in below && Tree(kids[i], below)
  }

  ghost predicate Named(kids: seq<Shape>, below: set<Item>)
    reads below
  {
    forall i :: 0 <= i < |kids| ==> kids[i].item in below && kids[i].item.name.Some?
  }

  ghost function Values(kids: seq<Shape>, below: set<Item>): (r: seq<Json>)
    requires Forest(kids, below)
    reads below
    ensures |r| == |kids| && forall i :: 0 <= i < |kids| ==> r[i] == Value(kids[i], below)
    decreases kids, 0
  {
    if kids == [] then [] else [Value(kids[0], below)] + Values(kids[1..], below)
  }

  ghost function Members(kids: seq<Shape>, below: set<Item>): (r: seq<Member>)
    requires Forest(kids, below) && Named(kids, below)
    reads below
    ensures |r| == |kids|
    ensures forall i :: 0 <= i < |kids| ==> r[i] == Member(kids[i].item.name.value, Value(kids[i], below))
    decreases kids, 0
  {
    if kids == [] then []
    else [Member(kids[0].item.name.value, Value(kids[0], below))] + Members(kids[1..], below)
  }

  /** More room below changes nothing. */
  lemma {:induction false} Grows(sh: Shape, below: set<Item>, more: set<Item>)
    requires Tree(sh, below) && below <= more
    ensures Tree(sh, more) && Value(sh, more) == Value(sh, below)
    decreases sh
  {
    forall i | 0 <= i < |sh.kids|
      ensures Tree(sh.kids[i], more) && Value(sh.kids[i], more) == Value(sh.kids[i], below)
    {
      Grows(sh.kids[i], below, more);
    }
    assert Tree(sh, more);
    match sh.item.kind
    case ArrayKind => assert Values(sh.kids, more) == Values(sh.kids, below);
    case ObjectKind => assert Members(sh.kids, more) == Members(sh.kids, below);
    case _ =>
  }

  // ----- views -----

  /** A tree, where its items are, and the value it stands for. */
  datatype View = View(shape: Shape, below: set<Item>, value: Json)

  ghost predicate Shows(item: Item, v: View)
    reads item`child, item`kind, item`valuedouble, item`valuestring, v.below
  {
    v.shape.item == item && Tree(v.shape, v.below) && Value(v.shape, v.below) == v.value
  }

  function Kids(v: Json): seq<Json> {
    match v
    case Array(items) => items
    case Object(ms) => seq(|ms|, i requires 0 <= i < |ms| => ms[i].value)
    case _ => []
  }

  ghost predicate Branches(v: View) {
    |Kids(v.value)| == |v.shape.kids|
  }

  ghost function Kid(v: View, i: nat): View
    requires Branches(v) && i < |v.shape.kids|
  {
    View(v.shape.kids[i], v.below, Kids(v.value)[i])
  }

  /** What the loops know of the children. */
  lemma KidsShow(item: Item, v: View)
    requires Shows(item, v) && (item.kind == ArrayKind || item.kind == ObjectKind)
    ensures Branches(v)
    ensures item.child == if v.shape.kids == [] then null else v.shape.kids[0].item
    ensures forall i :: 0 <= i < |v.shape.kids| ==> KidShows(v, i)
    ensures item.kind == ArrayKind ==> v.value.Array?
    ensures item.kind == ObjectKind ==> v.value.Object?
  {
    var kids := v.shape.kids;
    forall i | 0 <= i < |kids| ensures KidShows(v, i) {
      assert Linked(Roots(kids), i);
    }
  }

  ghost predicate KidShows(v: View, i: nat)
    requires Branches(v) && i < |v.shape.kids|
    reads v.shape.kids[i].item, v.below
  {
    && v.shape.kids[i].item in v.below
    && Shows(v.shape.kids[i].item, Kid(v, i))
    && v.shape.kids[i].item.next == (if i + 1 < |v.shape.kids| then v.shape.kids[i + 1].item else null)
    && (v.value.Object? ==> v.shape.kids[i].item.name == Some(v.value.members[i].key))
  }

  // ----- growing a list of trees -----

  /** A list under construction: linked both ways, but the head's prev is still open. */
  ghost predicate Strung(items: seq<Item>)
    reads items`next, items`prev
  {
    && (forall i, j :: 0 <= i < j < |items| ==> items[i] != items[j])
    && (forall i :: 0 <= i < |items| ==>
          && items[i].next == (if i + 1 < |items| then items[i + 1] else null)
          && (i > 0 ==> items[i].prev == items[i - 1]))
  }

  function Last(items: seq<Item>): (r: Item?) {
    if items == [] then null else items[|items| - 1]
  }

  /** Links a new item behind the last one. */
  method Attach(last: Item?, newitem: Item, ghost items: seq<Item>)
    requires Strung(items) && newitem !in items && Loose(newitem) && last == Last(items)
    modifies items`next, newitem`prev
    ensures Strung(items + [newitem]) && newitem.next == null
  {
    if last != null {
      last.next := newitem;
      newitem.prev := last;
    }
  }

  /** The head learns the tail, and the parent the head. */
  method Close(parent: Item, head: Item?, last: Item?, ghost items: seq<Item>)
    requires Strung(items) && last == Last(items) && head == if items == [] then null else items[0]
    modifies items`prev, parent`child
    ensures Chain(parent, items)
  {
    if head != null {
      head.prev := last;
    }
    parent.child := head;
    forall i | 0 <= i < |items| ensures Linked(items, i) {
      assert items[i].next == old(items[i].next);
    }
  }

  type Name = Option<seq<byte>>

  /** Trees that stand for the first values under the first names, all but their roots in all. */
  ghost predicate Grown(kids: seq<Shape>, all: set<Item>, values: seq<Json>, names: seq<Name>)
    reads all, Roots(kids)`kind, Roots(kids)`child, Roots(kids)`valuedouble, Roots(kids)`valuestring, Roots(kids)`name
  {
    && |kids| <= |values| == |names|
    && forall i :: 0 <= i < |kids| ==>
         && kids[i].item !in all && kids[i].item.name == names[i]
         && Tree(kids[i], all) && Value(kids[i], all) == values[i]
  }

  lemma GrownBy(kids: seq<Shape>, all: set<Item>, values: seq<Json>, names: seq<Name>, sub: Shape, more: set<Item>)
    requires Grown(kids, all, values, names) && |kids| < |values|
    requires sub.item !in all && sub.item !in more && sub.item.name == names[|kids|]
    requires Tree(sub, more) && Value(sub, more) == values[|kids|]
    requires forall r :: r in Roots(kids) ==> r !in more
    ensures Grown(kids + [sub], all + more, values, names)
  {
    hide Tree, Value;
    var longer, every := kids + [sub], all + more;
    forall i | 0 <= i < |longer|
      ensures longer[i].item !in every && Tree(longer[i], every) && Value(longer[i], every) == values[i]
    {
      if i < |kids| {
        assert Roots(kids)[i] !in more;
        Grows(kids[i], all, every);
      } else {
        Grows(sub, more, every);
      }
    }
  }

  lemma RootsToo(kids: seq<Shape>, sub: Shape)
    ensures Roots(kids + [sub]) == Roots(kids) + [sub.item]
  {
  }

  /** Attaches a finished tree. */
  method AttachTree(last: Item?, newitem: Item, ghost kids: seq<Shape>, ghost all: set<Item>,
                    ghost values: seq<Json>, ghost names: seq<Name>, ghost sub: Shape, ghost more: set<Item>)
    requires Strung(Roots(kids)) && last == Last(Roots(kids)) && Loose(newitem) && newitem !in Roots(kids)
    requires Grown(kids, all, values, names) && |kids| < |values|
    requires forall r :: r in Roots(kids) ==> r !in all && r !in more
    requires sub.item == newitem && newitem !in all && newitem !in more && newitem.name == names[|kids|]
    requires Tree(sub, more) && Value(sub, more) == values[|kids|]
    modifies Roots(kids)`next, newitem`prev
    ensures Strung(Roots(kids + [sub])) && Roots(kids + [sub]) == Roots(kids) + [newitem]
    ensures Grown(kids + [sub], all + more, values, names)
    ensures newitem.next == null
  {
    hide Strung, Grown, Tree, Value;
    RootsToo(kids, sub);
    Attach(last, newitem, Roots(kids));
    GrownBy(kids, all, values, names, sub, more);
  }

  function Zip(names: seq<Name>, values: seq<Json>): (r: seq<Member>)
    requires |names| == |values| && forall i :: 0 <= i < |names| ==> names[i].Some?
  {
    seq(|names|, i requires 0 <= i < |names| => Member(names[i].value, values[i]))
  }

  ghost predicate AllSome(names: seq<Name>) {
    forall i :: 0 <= i < |names| ==> names[i].Some?
  }

  ghost function Everything(kids: seq<Shape>, all: set<Item>): set<Item> {
    all + set r | r in Roots(kids)
  }

  /** The value of an item whose children stand for these values under these names. */
  ghost function ValueOf(item: Item, values: seq<Json>, names: seq<Name>): Json
    requires |names| == |values| && (item.kind == ObjectKind ==> AllSome(names))
    reads item`kind, item`valuedouble, item`valuestring
  {
    match item.kind
    case NullKind => Null
    case FalseKind => False
    case TrueKind => True
    case NumberKind => Number(item.valuedouble)
    case StringKind => String(item.valuestring)
    case ArrayKind => Array(values)
    case ObjectKind => Object(Zip(names, values))
  }

  /** Such trees are trees among everything below their parent. */
  lemma AllGrow(kids: seq<Shape>, all: set<Item>, values: seq<Json>, names: seq<Name>)
    requires Grown(kids, all, values, names)
    ensures var every := Everything(kids, all);
      forall i :: 0 <= i < |kids| ==>
        kids[i].item in every && Tree(kids[i], every) && Value(kids[i], every) == values[i]
  {
    hide Tree, Value;
    var every := Everything(kids, all);
    forall i | 0 <= i < |kids|
      ensures kids[i].item in every && Tree(kids[i], every) && Value(kids[i], every) == values[i]
    {
      assert Roots(kids)[i] in Roots(kids);
      Grows(kids[i], all, every);
    }
  }

  /** A parent of such trees. */
  lemma AsTree(sh: Shape, all: set<Item>, values: seq<Json>, names: seq<Name>)
    requires Chain(sh.item, Roots(sh.kids)) && Grown(sh.kids, all, values, names)
    requires |sh.kids| == |values|
    requires sh.item.kind == ObjectKind ==> AllSome(names)
    ensures var every := Everything(sh.kids, all);
            Tree(sh, every) && Value(sh, every) == ValueOf(sh.item, values, names)
  {
    var kids, every := sh.kids, Everything(sh.kids, all);
    AllGrow(kids, all, values, names);
    assert Tree(sh, every);
    if sh.item.kind == ArrayKind {
      assert Values(kids, every) == values;
    } else if sh.item.kind == ObjectKind {
      assert Members(kids, every) == Zip(names, values);
    }
  }

  lemma LeafTree(item: Item)
    requires item.child == null
    ensures Tree(Shape(item, []), {})
  {
  }

  /** Closes the list of a parent whose children are finished: it becomes a tree. */
  method CloseTree(parent: Item, head: Item?, last: Item?, ghost kids: seq<Shape>, ghost all: set<Item>,
                   ghost values: seq<Json>, ghost names: seq<Name>)
    requires Strung(Roots(kids)) && last == Last(Roots(kids)) && head == if kids == [] then null else kids[0].item
    requires Grown(kids, all, values, names) && |kids| == |values| && parent !in all && parent !in Roots(kids)
    requires forall r :: r in Roots(kids) ==> r !in all
    requires parent.kind == ObjectKind ==> AllSome(names)
    modifies Roots(kids)`prev, parent`child
    ensures var sh, every := Shape(parent, kids), Everything(kids, all);
            Tree(sh, every) && Value(sh, every) == ValueOf(parent, values, names)
  {
    hide Strung, Grown, Tree, Value, Chain, ValueOf, AllSome;
    Close(parent, head, last, Roots(kids));
    AsTree(Shape(parent, kids), all, values, names);
  }

  // ----- cJSON_Duplicate -----

  /** Scalars and name of an item. */
  twostate predicate SameData(item: Item, new copy: Item)
    reads copy`kind, copy`valuedouble, copy`valuestring, copy`name
  {
    && copy.kind == old(item.kind) && copy.valuedouble == old(item.valuedouble)
    && copy.valuestring == old(item.valuestring) && copy.name == old(item.name)
  }

  /** cJSON_Duplicate without recursion. */
  method DuplicateItem(item: Item) returns (newitem: Item)
    ensures fresh(newitem) && SameData(item, newitem) && Loose(newitem) && newitem.child == null
  {
    newitem := new Item(item.kind);
    newitem.valuedouble := item.valuedouble;
    newitem.valuestring := item.valuestring;
    newitem.name := item.name;
  }

  /** What the loop over the children works through. */
  ghost predicate Source(sh: Shape, below: set<Item>, values: seq<Json>, names: seq<Name>)
    reads sh.item`child, sh.item`kind, below
  {
    && Tree(sh, below) && |values| == |names| == |sh.kids|
    && forall i :: 0 <= i < |sh.kids| ==> Value(sh.kids[i], below) == values[i] && sh.kids[i].item.name == names[i]
  }

  lemma SourceKid(sh: Shape, below: set<Item>, values: seq<Json>, names: seq<Name>, k: nat)
    requires Source(sh, below, values, names) && k < |sh.kids|
    ensures sh.kids[k].item in below && Tree(sh.kids[k], below) && Value(sh.kids[k], below) == values[k]
    ensures sh.kids[k].item.next == if k + 1 < |sh.kids| then sh.kids[k + 1].item else null
    ensures sh.kids[k].item.name == names[k]
  {
    assert Linked(Roots(sh.kids), k);
  }

  ghost function Names(items: seq<Item>): (r: seq<Name>)
    reads items`name
    ensures |r| == |items| && forall i :: 0 <= i < |items| ==> r[i] == items[i].name
  {
    if items == [] then [] else [items[0].name] + Names(items[1..])
  }

  /** A tree, taken apart into the values and the names of the children. */
  lemma SourceOf(sh: Shape, below: set<Item>) returns (values: seq<Json>, names: seq<Name>)
    requires Tree(sh, below)
    ensures Source(sh, below, values, names) && |names| == |values|
    ensures sh.item.kind == ObjectKind ==> AllSome(names)
    ensures Value(sh, below) == ValueOf(sh.item, values, names)
  {
    values := Values(sh.kids, below);
    names := Names(Roots(sh.kids));
    if sh.item.kind == ObjectKind {
      assert Members(sh.kids, below) == Zip(names, values);
    }
  }

  /** The copies made so far, none of them among the originals. */
  ghost predicate Copies(copies: seq<Shape>, all: set<Item>, sh: Shape, below: set<Item>,
                         values: seq<Json>, names: seq<Name>)
    reads all, Roots(copies), sh.item`child, sh.item`kind, below
  {
    && Strung(Roots(copies)) && Grown(copies, all, values, names) && Source(sh, below, values, names)
    && forall r :: r in Roots(copies) ==> r !in all && r !in below && r != sh.item
  }

  /** One round of the loop of cJSON_Duplicate over the children. */
  method DuplicateKid(child: Item, next: Item?, ghost copies: seq<Shape>, ghost all: set<Item>,
                      ghost sh: Shape, ghost below: set<Item>, ghost values: seq<Json>, ghost names: seq<Name>)
    returns (newchild: Item, ghost longer: seq<Shape>, ghost every: set<Item>)
    requires Copies(copies, all, sh, below, values, names) && next == Last(Roots(copies))
    requires |copies| < |sh.kids| == |values| == |names| && child == sh.kids[|copies|].item
    modifies Roots(copies)`next
    ensures fresh(newchild) && fresh(every - all) && all <= every
    ensures |longer| == |copies| + 1 && Roots(longer) == Roots(copies) + [newchild]
    ensures Copies(longer, every, sh, below, values, names)
    decreases sh, 0
  {
    hide Tree, Value, Strung, Grown, Source;
    ghost var k := |copies|;
    SourceKid(sh, below, values, names, k);
    ghost var sub, more;
    newchild, sub, more := Duplicate(child, true, sh.kids[k], below, values[k]);
    AttachTree(next, newchild, copies, all, values, names, sub, more);
    longer, every := copies + [sub], all + more;
  }

  /** The copies made so far, the first and the last of them, and the child to be copied next. */
  ghost predicate Copying(child: Item?, head: Item?, next: Item?, copies: seq<Shape>, all: set<Item>,
                          sh: Shape, below: set<Item>, values: seq<Json>, names: seq<Name>)
    reads all, Roots(copies), sh.item`child, sh.item`kind, below
  {
    && |copies| <= |sh.kids| == |values| == |names| && Copies(copies, all, sh, below, values, names)
    && child == (if |copies| < |sh.kids| then sh.kids[|copies|].item else null)
    && next == Last(Roots(copies)) && head == (if copies == [] then null else copies[0].item)
  }

  /** A round with its bookkeeping: the head is the first copy, and the next child follows this one. */
  method DuplicateNext(child: Item, head: Item?, next: Item?, ghost copies: seq<Shape>, ghost all: set<Item>,
                       ghost sh: Shape, ghost below: set<Item>, ghost values: seq<Json>, ghost names: seq<Name>)
    returns (following: Item?, first: Item?, newchild: Item, ghost longer: seq<Shape>, ghost every: set<Item>)
    requires Copying(child, head, next, copies, all, sh, below, values, names)
    modifies Roots(copies)`next
    ensures fresh(newchild) && fresh(every - all) && |longer| == |copies| + 1 <= |sh.kids|
    ensures Roots(longer) == Roots(copies) + [newchild]
    ensures Copying(following, first, newchild, longer, every, sh, below, values, names)
    decreases sh, 1
  {
    hide Copies, Roots;
    newchild, longer, every := DuplicateKid(child, next, copies, all, sh, below, values, names);
    first := head;
    if next == null {
      first := newchild;
    }
    CopiesNext(longer, every, sh, below, values, names, |copies|);
    following := child.next;
  }

  lemma SourceStart(sh: Shape, below: set<Item>, values: seq<Json>, names: seq<Name>)
    requires Source(sh, below, values, names)
    ensures Copying(sh.item.child, null, null, [], {}, sh, below, values, names) && Roots([]) == []
  {
  }

  /** The loop of cJSON_Duplicate over the children. */
  method DuplicateKids(item: Item, ghost sh: Shape, ghost below: set<Item>,
                       ghost values: seq<Json>, ghost names: seq<Name>)
    returns (head: Item?, next: Item?, ghost copies: seq<Shape>, ghost all: set<Item>)
    requires sh.item == item && Source(sh, below, values, names)
    ensures fresh(all) && fresh(Roots(copies)) && Copying(null, head, next, copies, all, sh, below, values, names)
    decreases sh, 2
  {
    SourceStart(sh, below, values, names);
    hide Copying, Copies, Source, Roots;
    copies, all, head, next := [], {}, null, null;
    var child := item.child;
    while child != null
      invariant Copying(child, head, next, copies, all, sh, below, values, names)
      invariant fresh(all) && fresh(Roots(copies))
      decreases |sh.kids| - |copies|
    {
      child, head, next, copies, all := DuplicateNext(child, head, next, copies, all, sh, below, values, names);
    }
  }

  lemma CopiesNext(copies: seq<Shape>, all: set<Item>, sh: Shape, below: set<Item>,
                   values: seq<Json>, names: seq<Name>, k: nat)
    requires Copies(copies, all, sh, below, values, names) && k < |sh.kids|
    ensures sh.kids[k].item.next == if k + 1 < |sh.kids| then sh.kids[k + 1].item else null
  {
    SourceKid(sh, below, values, names, k);
  }

  /** cJSON_Duplicate: all new items, and with recursion the same value. */
  method Duplicate(item: Item, recurse: bool, ghost sh: Shape, ghost below: set<Item>, ghost v: Json)
    returns (newitem: Item, ghost copy: Shape, ghost all: set<Item>)
    requires sh.item == item && Tree(sh, below) && Value(sh, below) == v
    ensures fresh(newitem) && fresh(all) && newitem !in all && copy.item == newitem
    ensures SameData(item, newitem) && Loose(newitem)
    ensures Tree(copy, all) && (if recurse then Value(copy, all) == v else copy.kids == [])
    decreases sh, 3
  {
    hide Tree, Value, ValueOf, Strung, Grown, Source, Chain, AllSome, Copies, Roots, Everything;
    ghost var values, names := SourceOf(sh, below);
    newitem := DuplicateItem(item);
    SameValueOf(item, newitem, values, names);
    if !recurse {
      copy, all := Shape(newitem, []), {};
      LeafTree(newitem);
      return;
    }
    var head, last, copies, rest := DuplicateKids(item, sh, below, values, names);
    CopiesAre(copies, rest, sh, below, values, names);
    all := Everything(copies, rest);
    assert fresh(all) && newitem !in all;
    CloseTree(newitem, head, last, copies, rest, values, names);
    copy := Shape(newitem, copies);
  }

  lemma SameValueOf(item: Item, copy: Item, values: seq<Json>, names: seq<Name>)
    requires |names| == |values| && (item.kind == ObjectKind ==> AllSome(names)) && copy.kind == item.kind
    requires copy.valuedouble == item.valuedouble && copy.valuestring == item.valuestring
    ensures ValueOf(copy, values, names) == ValueOf(item, values, names)
  {
  }

  lemma CopiesAre(copies: seq<Shape>, all: set<Item>, sh: Shape, below: set<Item>, values: seq<Json>, names: seq<Name>)
    requires Copies(copies, all, sh, below, values, names)
    ensures Strung(Roots(copies)) && Grown(copies, all, values, names)
    ensures forall r :: r in Roots(copies) ==> r !in all && r in Everything(copies, all)
    ensures forall r :: r in Everything(copies, all) ==> r in all || r in Roots(copies)
    ensures all <= Everything(copies, all)
  {
  }
}
