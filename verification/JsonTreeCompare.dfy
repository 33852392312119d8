/** cJSON_Compare and the lookup it uses, on trees of items. */
module JsonTreeCompare {
  import opened Bytes
  import opened JsonText
  import opened JsonItems
  import opened JsonTrees
  import C = JsonCompare

  // ----- one item, one tree -----

  lemma {:induction false} OneChain(parent: Item, xs: seq<Item>, ys: seq<Item>, n: nat)
    requires Chain(parent, xs) && Chain(parent, ys) && n <= |xs|
    ensures n <= |ys| && xs[..n] == ys[..n] && (n == |xs| ==> n == |ys|)
  {
    if n > 0 {
      OneChain(parent, xs, ys, n - 1);
      if n > 1 {
        assert Linked(xs, n - 2) && Linked(ys, n - 2);
        assert xs[..n - 1][n - 2] == ys[..n - 1][n - 2];
      }
      assert xs[n - 1] == ys[n - 1];
      assert Linked(xs, n - 1) && Linked(ys, n - 1);
    }
  }

  /** The heap determines the tree under an item. */
  lemma {:induction false} OneTree(sa: Shape, ra: set<Item>, sb: Shape, rb: set<Item>)
    requires Tree(sa, ra) && Tree(sb, rb) && sa.item == sb.item
    ensures sa == sb && Value(sa, ra) == Value(sb, rb)
    decreases sa
  {
    var xs, ys := Roots(sa.kids), Roots(sb.kids);
    OneChain(sa.item, xs, ys, |xs|);
    assert xs[..|xs|] == xs && ys[..|xs|] == ys;
    forall i | 0 <= i < |sa.kids| ensures sa.kids[i] == sb.kids[i] {
      assert xs[i] == ys[i];
      OneTree(sa.kids[i], ra, sb.kids[i], rb);
    }
    assert sa.kids == sb.kids;
    Grows2(sa, ra, rb);
  }

  lemma Grows2(sh: Shape, ra: set<Item>, rb: set<Item>)
    requires Tree(sh, ra) && Tree(sh, rb)
    ensures Value(sh, ra) == Value(sh, rb)
  {
    Grows(sh, ra, ra + rb);
    Grows(sh, rb, ra + rb);
  }

  // ----- lookup -----

  /** get_object_item, case sensitive: the first child of that name. */
  method GetObjectItem(object_: Item, name: seq<byte>, ghost v: View) returns (r: Item?)
    requires Shows(object_, v) && object_.kind == ObjectKind
    ensures v.value.Object? && Branches(v)
    ensures var i := C.Position(v.value.members, name);
            r == if i < |v.shape.kids| then v.shape.kids[i].item else null
  {
    KidsShow(object_, v);
    ghost var ms := v.value.members;
    hide Tree, Value, Chain;
    r := object_.child;
    ghost var j := 0;
    while r != null && r.name.Some? && name != r.name.value
      invariant j <= |ms| && r == if j < |ms| then v.shape.kids[j].item else null
      invariant forall k :: 0 <= k < j ==> ms[k].key != name
      decreases |ms| - j
    {
      assert KidShows(v, j);
      r := r.next;
      j := j + 1;
    }
    assert j < |ms| ==> KidShows(v, j) && ms[j].key == name;
    if r == null || r.name.None? {
      r := null;
    }
  }

  // ----- comparison -----

  lemma KidIsShallower(v: Json, i: nat)
    requires i < |Kids(v)|
    ensures Depth(Kids(v)[i]) < Depth(v)
  {
    match v
    case Array(items) => C.ItemsAreShallower(items, i);
    case Object(ms) => C.MembersAreShallower(ms, i);
  }

  /** What cJSON_Compare decides of two trees, which may share items: an item is the same as itself,
      whatever it contains. */
  ghost predicate Same(u: View, v: View)
    decreases Depth(u.value) + Depth(v.value), 2
  {
    u.shape.item == v.shape.item ||
    match (u.value, v.value)
    case (Null, Null) => true
    case (False, False) => true
    case (True, True) => true
    case (Number(m), Number(n)) => C.CompareDouble(m as real, n as real)
    case (String(x), String(y)) => x == y
    case (Array(_), Array(_)) => SameItems(u, v)
    case (Object(_), Object(_)) => SameMembers(u, v) && SameMembers(v, u)
    case _ => false
  }

  /** The children, one by one. */
  ghost predicate SameItems(u: View, v: View)
    decreases Depth(u.value) + Depth(v.value), 1
  {
    && Branches(u) && Branches(v) && |u.shape.kids| == |v.shape.kids|
    && forall i :: 0 <= i < |u.shape.kids| ==> SameKids(u, i, v, i)
  }

  ghost predicate SameKids(u: View, i: nat, v: View, j: nat)
    requires Branches(u) && Branches(v) && i < |u.shape.kids| && j < |v.shape.kids|
    decreases Depth(u.value) + Depth(v.value), 0, 0
  {
    KidIsShallower(u.value, i);
    KidIsShallower(v.value, j);
    Same(Kid(u, i), Kid(v, j))
  }

  /** Each member of u is the same as the first member of that name in v. */
  ghost predicate SameMembers(u: View, v: View)
    requires u.value.Object? && v.value.Object?
    decreases Depth(u.value) + Depth(v.value), 1
  {
    && Branches(u) && Branches(v)
    && forall i :: 0 <= i < |u.shape.kids| ==> MemberFound(u, i, v)
  }

  ghost predicate MemberFound(u: View, i: nat, v: View)
    requires Branches(u) && Branches(v) && u.value.Object? && v.value.Object? && i < |u.shape.kids|
    decreases Depth(u.value) + Depth(v.value), 0, 1
  {
    var j := C.Position(v.value.members, u.value.members[i].key);
    j < |v.shape.kids| && SameKids(u, i, v, j)
  }

  /** cJSON_Compare, whatever the two trees share. */
  method Compare(a: Item, b: Item, ghost u: View, ghost v: View) returns (r: bool)
    requires Shows(a, u) && Shows(b, v)
    ensures r == Same(u, v)
    ensures a == b ==> r
    ensures C.Compare(u.value, v.value) ==> r
    ensures Comparable(u, v) ==> r == C.Compare(u.value, v.value)
    decreases Depth(u.value) + Depth(v.value), 3
  {
    hide C.Compare, Comparable;
    SameIsCompare(u, v);
    r := CompareItem(a, b, u, v);
  }

  method CompareItem(a: Item, b: Item, ghost u: View, ghost v: View) returns (r: bool)
    requires Shows(a, u) && Shows(b, v)
    ensures r == Same(u, v)
    decreases Depth(u.value) + Depth(v.value), 2
  {
    hide SameItems, SameMembers;
    if a.kind != b.kind {
      return false;
    }
    if a == b {
      return true;
    }
    match a.kind
    case NullKind => r := true;
    case FalseKind => r := true;
    case TrueKind => r := true;
    case NumberKind => r := C.CompareDouble(a.valuedouble as real, b.valuedouble as real);
    case StringKind => r := a.valuestring == b.valuestring;
    case ArrayKind => r := CompareLists(a, b, u, v);
    case ObjectKind =>
      r := AllFound(a, b, u, v);
      if r {
        r := AllFound(b, a, v, u);
      }
  }

  /** The loop over two arrays. */
  method CompareLists(a: Item, b: Item, ghost u: View, ghost v: View) returns (r: bool)
    requires Shows(a, u) && Shows(b, v) && a.kind == ArrayKind && b.kind == ArrayKind
    ensures r == SameItems(u, v)
    decreases Depth(u.value) + Depth(v.value), 1
  {
    hide Same, Tree, Value, Chain, Comparable, C.Compare, Depth, Shows;
    KidsShow(a, u);
    KidsShow(b, v);
    ghost var n, m := |u.shape.kids|, |v.shape.kids|;
    var aElement, bElement := a.child, b.child;
    ghost var i := 0;
    while aElement != null && bElement != null
      invariant i <= n && i <= m
      invariant aElement == if i < n then u.shape.kids[i].item else null
      invariant bElement == if i < m then v.shape.kids[i].item else null
      invariant forall k :: 0 <= k < i ==> SameKids(u, k, v, k)
      decreases n - i
    {
      assert KidShows(u, i) && KidShows(v, i);
      KidIsShallower(u.value, i);
      KidIsShallower(v.value, i);
      r := Compare(aElement, bElement, Kid(u, i), Kid(v, i));
      assert r == SameKids(u, i, v, i);
      if !r {
        return;
      }
      aElement, bElement, i := aElement.next, bElement.next, i + 1;
    }
    return aElement == bElement;
  }

  /** One of the two loops over the members of an object. */
  method AllFound(a: Item, b: Item, ghost u: View, ghost v: View) returns (r: bool)
    requires Shows(a, u) && Shows(b, v) && a.kind == ObjectKind && b.kind == ObjectKind
    ensures u.value.Object? && v.value.Object? && r == SameMembers(u, v)
    decreases Depth(u.value) + Depth(v.value), 1
  {
    hide Same, MemberFound, Tree, Value, Chain, Comparable, C.Compare, Depth, Shows;
    KidsShow(a, u);
    KidsShow(b, v);
    ghost var n := |u.shape.kids|;
    var aElement := a.child;
    ghost var i := 0;
    while aElement != null
      invariant i <= n && aElement == if i < n then u.shape.kids[i].item else null
      invariant forall k :: 0 <= k < i ==> MemberFound(u, k, v)
      decreases n - i
    {
      assert KidShows(u, i);
      r := CompareNamed(aElement, b, u, i, v);
      if !r {
        return;
      }
      aElement, i := aElement.next, i + 1;
    }
    return true;
  }

  /** One round of it: a member, and the first of its name in the other object. */
  method CompareNamed(aElement: Item, b: Item, ghost u: View, ghost i: nat, ghost v: View) returns (r: bool)
    requires Branches(u) && u.value.Object? && i < |u.shape.kids| && KidShows(u, i)
    requires aElement == u.shape.kids[i].item && Shows(b, v) && b.kind == ObjectKind
    ensures Branches(v) && v.value.Object? && r == MemberFound(u, i, v)
    decreases Depth(u.value) + Depth(v.value), 0
  {
    hide Same, C.Position, Tree, Value, Chain, Comparable, C.Compare, Depth, Shows;
    KidsShow(b, v);
    var bElement := GetObjectItem(b, aElement.name.value, v);
    if bElement == null {
      return false;
    }
    ghost var j := C.Position(v.value.members, u.value.members[i].key);
    assert KidShows(v, j);
    KidIsShallower(u.value, i);
    KidIsShallower(v.value, j);
    r := Compare(aElement, bElement, Kid(u, i), Kid(v, j));
  }

  // ----- comparison and the values -----

  /** What is known of two trees: they share no item, or lookup in them is unambiguous. */
  ghost predicate Comparable(u: View, v: View) {
    || ({u.shape.item} + u.below) !! ({v.shape.item} + v.below)
    || (Unambiguous(u.value) && Unambiguous(v.value))
  }

  ghost predicate Unambiguous(v: Json) {
    C.Consistent(v) && C.SmallNumbers(v)
  }

  lemma KidsAreComparable(u: View, i: nat, v: View, j: nat)
    requires Comparable(u, v) && Branches(u) && Branches(v) && i < |u.shape.kids| && j < |v.shape.kids|
    requires u.shape.kids[i].item in u.below && v.shape.kids[j].item in v.below
    ensures Comparable(Kid(u, i), Kid(v, j))
  {
    if Unambiguous(u.value) && Unambiguous(v.value) {
      KidIsUnambiguous(u.value, i);
      KidIsUnambiguous(v.value, j);
    }
  }

  lemma KidIsUnambiguous(v: Json, i: nat)
    requires Unambiguous(v) && i < |Kids(v)|
    ensures Unambiguous(Kids(v)[i])
  {
    if v.Object? {
      assert Kids(v)[i] == v.members[i].value;
    }
  }

  /** Trees with equal values are always found the same; and if they share nothing, or are not
      ambiguous, only those are. */
  lemma {:induction false} SameIsCompare(u: View, v: View)
    requires Shows(u.shape.item, u) && Shows(v.shape.item, v)
    ensures C.Compare(u.value, v.value) ==> Same(u, v)
    ensures Comparable(u, v) ==> Same(u, v) == C.Compare(u.value, v.value)
    decreases Depth(u.value) + Depth(v.value), 2
  {
    if u.shape.item == v.shape.item {
      OneTree(u.shape, u.below, v.shape, v.below);
      if Unambiguous(u.value) {
        C.CopiesOfConsistentTrees(u.value);
      }
    } else if u.value.Array? && v.value.Array? {
      ItemsAreCompared(u, v);
    } else if u.value.Object? && v.value.Object? {
      MembersAreCompared(u, v);
      MembersAreCompared(v, u);
    }
  }

  lemma KidsAreCompared(u: View, i: nat, v: View, j: nat)
    requires Branches(u) && Branches(v) && i < |u.shape.kids| && j < |v.shape.kids|
    requires KidShows(u, i) && KidShows(v, j)
    ensures C.Compare(Kids(u.value)[i], Kids(v.value)[j]) ==> SameKids(u, i, v, j)
    ensures Comparable(u, v) ==> SameKids(u, i, v, j) == C.Compare(Kids(u.value)[i], Kids(v.value)[j])
    decreases Depth(u.value) + Depth(v.value), 0, 0
  {
    hide Same, C.Compare, Shows;
    KidIsShallower(u.value, i);
    KidIsShallower(v.value, j);
    SameIsCompare(Kid(u, i), Kid(v, j));
    if Comparable(u, v) {
      KidsAreComparable(u, i, v, j);
    }
  }

  lemma ItemsAreCompared(u: View, v: View)
    requires Shows(u.shape.item, u) && Shows(v.shape.item, v) && u.value.Array? && v.value.Array?
    ensures C.CompareItems(u.value.items, v.value.items) ==> SameItems(u, v)
    ensures Comparable(u, v) ==> SameItems(u, v) == C.CompareItems(u.value.items, v.value.items)
    decreases Depth(u.value) + Depth(v.value), 1
  {
    KidsShow(u.shape.item, u);
    KidsShow(v.shape.item, v);
    C.CompareItemsMeans(u.value.items, v.value.items);
    hide Same, SameKids, C.Compare, C.CompareItems, Comparable, Tree, Value, Shows, Depth;
    forall i | 0 <= i < |u.shape.kids| && i < |v.shape.kids|
      ensures C.Compare(u.value.items[i], v.value.items[i]) ==> SameKids(u, i, v, i)
      ensures Comparable(u, v) ==> SameKids(u, i, v, i) == C.Compare(u.value.items[i], v.value.items[i])
    {
      KidsAreCompared(u, i, v, i);
    }
  }

  lemma MembersAreCompared(u: View, v: View)
    requires Shows(u.shape.item, u) && Shows(v.shape.item, v) && u.value.Object? && v.value.Object?
    ensures C.AllFound(u.value.members, v.value.members) ==> SameMembers(u, v)
    ensures Comparable(u, v) || Comparable(v, u) ==> SameMembers(u, v) == C.AllFound(u.value.members, v.value.members)
    decreases Depth(u.value) + Depth(v.value), 1
  {
    KidsShow(u.shape.item, u);
    KidsShow(v.shape.item, v);
    var ms, ns := u.value.members, v.value.members;
    C.AllFoundMeans(ms, ns);
    assert Comparable(v, u) ==> Comparable(u, v);
    hide Same, MemberFound, C.Compare, C.AllFound, C.Find, Comparable, Tree, Value, Shows, Depth;
    forall i | 0 <= i < |ms|
      ensures var found := C.Find(ns, ms[i].key);
        && (found.Some? && C.Compare(ms[i].value, found.value) ==> MemberFound(u, i, v))
        && (Comparable(u, v) ==> MemberFound(u, i, v) == (found.Some? && C.Compare(ms[i].value, found.value)))
    {
      MemberIsCompared(u, i, v);
    }
  }

  lemma MemberIsCompared(u: View, i: nat, v: View)
    requires Branches(u) && Branches(v) && u.value.Object? && v.value.Object? && i < |u.shape.kids|
    requires KidShows(u, i) && forall j :: 0 <= j < |v.shape.kids| ==> KidShows(v, j)
    ensures var (m, found) := (u.value.members[i], C.Find(v.value.members, u.value.members[i].key));
      && (found.Some? && C.Compare(m.value, found.value) ==> MemberFound(u, i, v))
      && (Comparable(u, v) ==> MemberFound(u, i, v) == (found.Some? && C.Compare(m.value, found.value)))
    decreases Depth(u.value) + Depth(v.value), 0, 1
  {
    hide SameKids, C.Compare, C.Find, Comparable, KidShows, Depth;
    var j := C.Position(v.value.members, u.value.members[i].key);
    if j < |v.shape.kids| {
      KidsAreCompared(u, i, v, j);
    }
  }

  /** A recursive duplicate compares equal to its source exactly when no object in it gives different
      values to one name. */
  method CompareWithDuplicate(item: Item, ghost v: View) returns (equal: bool)
    requires Shows(item, v) && C.SmallNumbers(v.value)
    ensures equal <==> C.Consistent(v.value)
  {
    hide Tree, Value, C.Compare, C.Consistent;
    var copy, shape, all := Duplicate(item, true, v.shape, v.below, v.value);
    equal := Compare(item, copy, v, View(shape, all, v.value));
    C.CopiesOfConsistentTrees(v.value);
  }
}
