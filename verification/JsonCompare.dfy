/** cJSON_Compare of srv/lib/c_json.c, case sensitive, against equality up to the order of members. */
module JsonCompare {
  import opened Bytes
  import opened JsonText
  import opened Wrappers

  // ----- numbers -----

  const DBL_EPSILON: real := 1.0 / 4503599627370496.0   // 2 to the -52

  function Fabs(x: real): real { if x < 0.0 then -x else x }

  /** compare_double, in exact arithmetic. */
  predicate CompareDouble(a: real, b: real) {
    var maxVal := if Fabs(a) > Fabs(b) then Fabs(a) else Fabs(b);
    Fabs(a - b) <= maxVal * DBL_EPSILON
  }

  /** The tolerance never takes two integers of fewer than 52 bits for one. */
  lemma IntegersCompareExactly(m: int, n: int)
    requires -0x10_0000_0000_0000 < m < 0x10_0000_0000_0000 && -0x10_0000_0000_0000 < n < 0x10_0000_0000_0000
    ensures CompareDouble(m as real, n as real) <==> m == n
  {
    var a, b := m as real, n as real;
    var maxVal := if Fabs(a) > Fabs(b) then Fabs(a) else Fabs(b);
    assert 0.0 <= maxVal < 4503599627370496.0;
    assert maxVal * DBL_EPSILON == maxVal / 4503599627370496.0 < 1.0;
    if m != n {
      assert Fabs(a - b) == (if m < n then n - m else m - n) as real >= 1.0;
    }
  }

  // ----- lookup -----

  /** get_object_item: the first member of that name. */
  function Find(ms: seq<Member>, key: seq<byte>): (r: Option<Json>)
    ensures r.Some? ==> exists i :: 0 <= i < |ms| && ms[i] == Member(key, r.value)
    ensures r.None? ==> forall i :: 0 <= i < |ms| ==> ms[i].key != key
  {
    if ms == [] then None
    else if ms[0].key == key then assert ms[0] == Member(key, ms[0].value); Some(ms[0].value)
    else
      var r := Find(ms[1..], key);
      assert r.Some? ==> exists i :: 0 <= i < |ms| && ms[i] == Member(key, r.value) by {
        if r.Some? {
          var j :| 0 <= j < |ms[1..]| && ms[1..][j] == Member(key, r.value);
          assert ms[j + 1] == Member(key, r.value);
        }
      }
      r
  }

  /** Where that member stands. */
  function Position(ms: seq<Member>, key: seq<byte>): (i: nat)
    ensures i <= |ms| && forall k :: 0 <= k < i ==> ms[k].key != key
    ensures i < |ms| ==> ms[i].key == key
    ensures Find(ms, key) == if i < |ms| then Some(ms[i].value) else None
  {
    if ms == [] || ms[0].key == key then 0 else 1 + Position(ms[1..], key)
  }

  // ----- cJSON_Compare -----

  lemma {:induction false} ItemsAreShallower(items: seq<Json>, i: nat)
    requires i < |items|
    ensures Depth(items[i]) <= ItemsDepth(items)
    decreases items
  {
    if i > 0 {
      ItemsAreShallower(items[1..], i - 1);
    }
  }

  lemma {:induction false} MembersAreShallower(ms: seq<Member>, i: nat)
    requires i < |ms|
    ensures Depth(ms[i].value) <= MembersDepth(ms)
    decreases ms
  {
    if i > 0 {
      MembersAreShallower(ms[1..], i - 1);
    }
  }

  lemma FoundIsShallower(ms: seq<Member>, key: seq<byte>)
    requires Find(ms, key).Some?
    ensures Depth(Find(ms, key).value) <= MembersDepth(ms)
  {
    var i :| 0 <= i < |ms| && ms[i] == Member(key, Find(ms, key).value);
    MembersAreShallower(ms, i);
  }

  predicate Compare(a: Json, b: Json)
    decreases Depth(a) + Depth(b), 2, 0
  {
    match (a, b)
    case (Null, Null) => true
    case (False, False) => true
    case (True, True) => true
    case (Number(m), Number(n)) => CompareDouble(m as real, n as real)
    case (String(x), String(y)) => x == y
    case (Array(xs), Array(ys)) => CompareItems(xs, ys)
    case (Object(ms), Object(ns)) => AllFound(ms, ns) && AllFound(ns, ms)
    case _ => false
  }

  /** The two arrays, walked side by side. */
  predicate CompareItems(xs: seq<Json>, ys: seq<Json>)
    decreases ItemsDepth(xs) + ItemsDepth(ys), 3, |xs|
  {
    if xs == [] || ys == [] then xs == ys
    else Compare(xs[0], ys[0]) && CompareItems(xs[1..], ys[1..])
  }

  /** Each member of one object, compared with the first member of that name in the other. */
  predicate AllFound(ms: seq<Member>, ns: seq<Member>)
    decreases MembersDepth(ms) + MembersDepth(ns), 3, |ms|
  {
    ms == [] ||
    (var found := Find(ns, ms[0].key);
     && found.Some?
     && (FoundIsShallower(ns, ms[0].key); Compare(ms[0].value, found.value))
     && AllFound(ms[1..], ns))
  }

  // ----- equality up to the order of members -----

  /** A tree whose objects are maps. */
  datatype Canonical =
    | CNull
    | CFalse
    | CTrue
    | CNumber(n: int)
    | CString(text: seq<byte>)
    | CArray(items: seq<Canonical>)
    | CObject(members: map<seq<byte>, Canonical>)

  function Canon(v: Json): Canonical
    decreases v
  {
    match v
    case Null => CNull
    case False => CFalse
    case True => CTrue
    case Number(n) => CNumber(n)
    case String(x) => CString(x)
    case Array(items) => CArray(CanonItems(items))
    case Object(ms) => CObject(CanonMembers(ms))
  }

  function CanonItems(items: seq<Json>): (r: seq<Canonical>)
    decreases items
  {
    if items == [] then [] else [Canon(items[0])] + CanonItems(items[1..])
  }

  function CanonMembers(ms: seq<Member>): map<seq<byte>, Canonical>
    decreases ms
  {
    if ms == [] then map[] else CanonMembers(ms[1..])[ms[0].key := Canon(ms[0].value)]
  }

  /** Members of one object that share their name have equal values. */
  ghost predicate Consistent(v: Json)
    decreases v
  {
    match v
    case Array(items) => forall i :: 0 <= i < |items| ==> Consistent(items[i])
    case Object(ms) =>
      && (forall i :: 0 <= i < |ms| ==> Consistent(ms[i].value))
      && (forall i, j :: 0 <= i < j < |ms| && ms[i].key == ms[j].key ==> Canon(ms[i].value) == Canon(ms[j].value))
    case _ => true
  }

  /** In particular, names that are not repeated at all. */
  ghost predicate Distinct(v: Json)
    decreases v
  {
    match v
    case Array(items) => forall i :: 0 <= i < |items| ==> Distinct(items[i])
    case Object(ms) =>
      && (forall i :: 0 <= i < |ms| ==> Distinct(ms[i].value))
      && (forall i, j :: 0 <= i < j < |ms| ==> ms[i].key != ms[j].key)
    case _ => true
  }

  lemma {:induction false} DistinctIsConsistent(v: Json)
    requires Distinct(v)
    ensures Consistent(v)
    decreases v
  {
    match v
    case Array(items) =>
      forall i | 0 <= i < |items| ensures Consistent(items[i]) {
        DistinctIsConsistent(items[i]);
      }
    case Object(ms) =>
      forall i | 0 <= i < |ms| ensures Consistent(ms[i].value) {
        DistinctIsConsistent(ms[i].value);
      }
    case _ =>
  }

  /** Numbers of fewer than 52 bits, as all those that print as "%d". */
  ghost predicate SmallNumbers(v: Json)
    decreases v
  {
    match v
    case Number(n) => -0x10_0000_0000_0000 < n < 0x10_0000_0000_0000
    case Array(items) => forall i :: 0 <= i < |items| ==> SmallNumbers(items[i])
    case Object(ms) => forall i :: 0 <= i < |ms| ==> SmallNumbers(ms[i].value)
    case _ => true
  }

  lemma {:induction false} CanonMembersFinds(ms: seq<Member>, key: seq<byte>)
    ensures key in CanonMembers(ms) <==> Find(ms, key).Some?
    ensures key in CanonMembers(ms) ==> CanonMembers(ms)[key] == Canon(Find(ms, key).value)
    decreases ms
  {
    if ms != [] {
      CanonMembersFinds(ms[1..], key);
    }
  }

  /** Lookup finds a value equal to the member's own. */
  lemma FindsAnEqual(ms: seq<Member>, i: nat)
    requires i < |ms| && Consistent(Object(ms))
    ensures Find(ms, ms[i].key).Some? && Canon(Find(ms, ms[i].key).value) == Canon(ms[i].value)
  {
    hide Canon, Find;
    var found := Find(ms, ms[i].key);
    var j :| 0 <= j < |ms| && ms[j] == Member(ms[i].key, found.value);
    assert i < j || j < i || i == j;
  }

  lemma {:induction false} AllFoundMeans(ms: seq<Member>, ns: seq<Member>)
    ensures AllFound(ms, ns) <==>
              forall i :: 0 <= i < |ms| ==> Find(ns, ms[i].key).Some? && Compare(ms[i].value, Find(ns, ms[i].key).value)
    decreases ms
  {
    if ms != [] {
      AllFoundMeans(ms[1..], ns);
      assert forall i :: 0 < i < |ms| ==> ms[i] == ms[1..][i - 1];
      assert AllFound(ms, ns) <==> Find(ns, ms[0].key).Some? && Compare(ms[0].value, Find(ns, ms[0].key).value) &&
                                   AllFound(ms[1..], ns);
      if forall i :: 0 <= i < |ms| ==> Find(ns, ms[i].key).Some? && Compare(ms[i].value, Find(ns, ms[i].key).value) {
        forall i | 0 <= i < |ms[1..]|
          ensures Find(ns, ms[1..][i].key).Some? && Compare(ms[1..][i].value, Find(ns, ms[1..][i].key).value)
        {
          assert ms[1..][i] == ms[i + 1];
        }
      }
    }
  }

  lemma {:induction false} CompareItemsMeans(xs: seq<Json>, ys: seq<Json>)
    ensures CompareItems(xs, ys) <==> |xs| == |ys| && forall i :: 0 <= i < |xs| ==> Compare(xs[i], ys[i])
    decreases xs
  {
    if xs != [] && ys != [] {
      hide Compare;
      CompareItemsMeans(xs[1..], ys[1..]);
      assert forall i :: 0 < i < |xs| ==> xs[i] == xs[1..][i - 1];
      assert forall i :: 0 < i < |ys| ==> ys[i] == ys[1..][i - 1];
    }
  }

  // ----- the main results -----

  lemma {:induction false} CompareIsSymmetric(a: Json, b: Json)
    ensures Compare(a, b) == Compare(b, a)
    decreases a
  {
    match (a, b)
    case (Array(xs), Array(ys)) => ItemsAreSymmetric(xs, ys);
    case _ =>
  }

  lemma {:induction false} ItemsAreSymmetric(xs: seq<Json>, ys: seq<Json>)
    ensures CompareItems(xs, ys) == CompareItems(ys, xs)
    decreases xs
  {
    if xs != [] && ys != [] {
      CompareIsSymmetric(xs[0], ys[0]);
      ItemsAreSymmetric(xs[1..], ys[1..]);
    }
  }

  /** cJSON_Compare holds exactly of trees that are equal up to the order of object members, once one
      of them is consistent. */
  lemma {:induction false} CompareIsEqualityUpToOrder(a: Json, b: Json)
    requires Consistent(b) && SmallNumbers(a) && SmallNumbers(b)
    ensures Compare(a, b) <==> Consistent(a) && Canon(a) == Canon(b)
    decreases Depth(a) + Depth(b), 2, 0
  {
    match (a, b)
    case (Number(m), Number(n)) => IntegersCompareExactly(m, n);
    case (Array(xs), Array(ys)) => ItemsAreEqual(xs, ys);
    case (Object(ms), Object(ns)) => MembersAreEqual(ms, ns);
    case _ =>
  }

  lemma {:induction false} ItemsAreEqual(xs: seq<Json>, ys: seq<Json>)
    requires Consistent(Array(ys)) && SmallNumbers(Array(xs)) && SmallNumbers(Array(ys))
    ensures CompareItems(xs, ys) <==> Consistent(Array(xs)) && CanonItems(xs) == CanonItems(ys)
    decreases ItemsDepth(xs) + ItemsDepth(ys), 3, |xs|
  {
    if xs != [] && ys != [] {
      CompareIsEqualityUpToOrder(xs[0], ys[0]);
      ItemsAreEqual(xs[1..], ys[1..]);
      assert CanonItems(xs)[0] == Canon(xs[0]) && CanonItems(xs)[1..] == CanonItems(xs[1..]);
      assert CanonItems(ys)[0] == Canon(ys[0]) && CanonItems(ys)[1..] == CanonItems(ys[1..]);
      assert Consistent(Array(xs)) <==> Consistent(xs[0]) && Consistent(Array(xs[1..])) by {
        assert forall i :: 0 < i < |xs| ==> xs[i] == xs[1..][i - 1];
      }
    }
  }

  /** One member against the members of the other object. */
  ghost predicate Agrees(m: Member, canon: map<seq<byte>, Canonical>) {
    Consistent(m.value) && m.key in canon && Canon(m.value) == canon[m.key]
  }

  lemma {:induction false} MembersAreEqual(ms: seq<Member>, ns: seq<Member>)
    requires Consistent(Object(ns)) && SmallNumbers(Object(ms)) && SmallNumbers(Object(ns))
    ensures AllFound(ms, ns) && AllFound(ns, ms) <==>
              Consistent(Object(ms)) && CanonMembers(ms) == CanonMembers(ns)
    decreases MembersDepth(ms) + MembersDepth(ns), 3
  {
    hide Canon, CanonMembers, Compare, AllFound, Find;
    var cm, cn := CanonMembers(ms), CanonMembers(ns);
    AllFoundMeans(ms, ns);
    AllFoundMeans(ns, ms);
    forall i | 0 <= i < |ms|
      ensures Find(ns, ms[i].key).Some? && Compare(ms[i].value, Find(ns, ms[i].key).value) <==> Agrees(ms[i], cn)
    {
      MemberIsEqual(ms, ns, i);
    }
    forall j | 0 <= j < |ns|
      ensures Find(ms, ns[j].key).Some? && Compare(ns[j].value, Find(ms, ns[j].key).value) <==>
                Find(ms, ns[j].key).Some? && Agrees(Member(ns[j].key, Find(ms, ns[j].key).value), cn)
    {
      FoundIsEqual(ms, ns, j);
    }
    if Consistent(Object(ms)) && cm == cn {
      EqualMeansAgreeing(ms, cn);
      forall j | 0 <= j < |ns|
        ensures Find(ms, ns[j].key).Some? && Agrees(Member(ns[j].key, Find(ms, ns[j].key).value), cn)
      {
        CanonMembersFinds(ns, ns[j].key);
        FindsAnEqual(ns, j);
        CanonMembersFinds(ms, ns[j].key);
        var i :| 0 <= i < |ms| && ms[i] == Member(ns[j].key, Find(ms, ns[j].key).value);
      }
    }
    if (forall i :: 0 <= i < |ms| ==> Agrees(ms[i], cn)) && (forall j :: 0 <= j < |ns| ==> Find(ms, ns[j].key).Some?) {
      AgreeingMeansEqual(ms, ns);
    }
  }

  lemma EqualMeansAgreeing(ms: seq<Member>, canon: map<seq<byte>, Canonical>)
    requires Consistent(Object(ms)) && CanonMembers(ms) == canon
    ensures forall i :: 0 <= i < |ms| ==> Agrees(ms[i], canon)
  {
    hide Canon, CanonMembers, Find;
    forall i | 0 <= i < |ms| ensures Agrees(ms[i], canon) {
      FindsAnEqual(ms, i);
      CanonMembersFinds(ms, ms[i].key);
    }
  }

  lemma AgreeingMeansEqual(ms: seq<Member>, ns: seq<Member>)
    requires forall i :: 0 <= i < |ms| ==> Agrees(ms[i], CanonMembers(ns))
    requires forall j :: 0 <= j < |ns| ==> Find(ms, ns[j].key).Some?
    ensures Consistent(Object(ms)) && CanonMembers(ms) == CanonMembers(ns)
  {
    hide Canon, CanonMembers, Find;
    var cm, cn := CanonMembers(ms), CanonMembers(ns);
    forall key | key in cm ensures key in cn && cm[key] == cn[key] {
      CanonMembersFinds(ms, key);
      var i :| 0 <= i < |ms| && ms[i] == Member(key, Find(ms, key).value);
      assert Agrees(ms[i], cn);
    }
    forall key | key in cn ensures key in cm {
      CanonMembersFinds(ns, key);
      var j :| 0 <= j < |ns| && ns[j] == Member(key, Find(ns, key).value);
      CanonMembersFinds(ms, key);
    }
    forall i, j | 0 <= i < j < |ms| && ms[i].key == ms[j].key
      ensures Canon(ms[i].value) == Canon(ms[j].value)
    {
      assert Agrees(ms[i], cn) && Agrees(ms[j], cn);
    }
  }

  lemma {:induction false} MemberIsEqual(ms: seq<Member>, ns: seq<Member>, i: nat)
    requires i < |ms|
    requires Consistent(Object(ns)) && SmallNumbers(Object(ms)) && SmallNumbers(Object(ns))
    ensures Find(ns, ms[i].key).Some? && Compare(ms[i].value, Find(ns, ms[i].key).value) <==>
              Agrees(ms[i], CanonMembers(ns))
    decreases MembersDepth(ms) + MembersDepth(ns), 2, 1
  {
    hide Canon, CanonMembers, Compare, Find;
    var key := ms[i].key;
    CanonMembersFinds(ns, key);
    if Find(ns, key).Some? {
      MembersAreShallower(ms, i);
      FoundIsShallower(ns, key);
      var found := Find(ns, key).value;
      var j :| 0 <= j < |ns| && ns[j] == Member(key, found);
      CompareIsEqualityUpToOrder(ms[i].value, found);
    }
  }

  lemma {:induction false} FoundIsEqual(ms: seq<Member>, ns: seq<Member>, j: nat)
    requires j < |ns|
    requires Consistent(Object(ns)) && SmallNumbers(Object(ms)) && SmallNumbers(Object(ns))
    ensures Find(ms, ns[j].key).Some? && Compare(ns[j].value, Find(ms, ns[j].key).value) <==>
              Find(ms, ns[j].key).Some? && Agrees(Member(ns[j].key, Find(ms, ns[j].key).value), CanonMembers(ns))
    decreases MembersDepth(ms) + MembersDepth(ns), 2, 1
  {
    hide Canon, CanonMembers, Compare, Find;
    var key := ns[j].key;
    FindsAnEqual(ns, j);
    CanonMembersFinds(ns, key);
    if Find(ms, key).Some? {
      MembersAreShallower(ns, j);
      FoundIsShallower(ms, key);
      var found := Find(ms, key).value;
      var i :| 0 <= i < |ms| && ms[i] == Member(key, found);
      CompareIsSymmetric(ns[j].value, found);
      CompareIsEqualityUpToOrder(found, ns[j].value);
    }
  }

  /** A tree compares equal to a separate copy of it exactly when it is consistent: lookup finds the
      first member of a name only. (An item and itself are never looked into.) */
  lemma {:induction false} CopiesOfConsistentTrees(v: Json)
    requires SmallNumbers(v)
    ensures Compare(v, v) <==> Consistent(v)
    decreases Depth(v), 1
  {
    hide Canon;
    if Consistent(v) {
      CompareIsEqualityUpToOrder(v, v);
    } else {
      match v
      case Array(items) =>
        if CompareItems(items, items) {
          ItemsOfItself(items);
        }
      case Object(ms) =>
        if AllFound(ms, ms) {
          MembersOfItself(ms);
        }
    }
  }

  lemma {:induction false} ItemsOfItself(items: seq<Json>)
    requires SmallNumbers(Array(items)) && CompareItems(items, items)
    ensures forall i :: 0 <= i < |items| ==> Consistent(items[i])
    decreases ItemsDepth(items), 2, |items|
  {
    if items != [] {
      CopiesOfConsistentTrees(items[0]);
      ItemsOfItself(items[1..]);
      assert forall i :: 0 < i < |items| ==> items[i] == items[1..][i - 1];
    }
  }

  lemma {:induction false} MembersOfItself(ms: seq<Member>)
    requires SmallNumbers(Object(ms)) && AllFound(ms, ms)
    ensures Consistent(Object(ms))
    decreases MembersDepth(ms), 2
  {
    hide Canon, Compare, AllFound, Find;
    AllFoundMeans(ms, ms);
    forall i | 0 <= i < |ms|
      ensures Consistent(ms[i].value) && Canon(ms[i].value) == Canon(Find(ms, ms[i].key).value)
    {
      var found := Find(ms, ms[i].key).value;
      var j :| 0 <= j < |ms| && ms[j] == Member(ms[i].key, found);
      assert Compare(ms[j].value, found);
      MembersAreShallower(ms, j);
      CopiesOfConsistentTrees(found);
      CompareIsEqualityUpToOrder(ms[i].value, found);
    }
  }

  /** Among consistent trees it is an equivalence. */
  lemma CompareIsAnEquivalence(a: Json, b: Json, c: Json)
    requires Consistent(a) && Consistent(b) && Consistent(c) && SmallNumbers(a) && SmallNumbers(b) && SmallNumbers(c)
    ensures Compare(a, a)
    ensures Compare(a, b) ==> Compare(b, a)
    ensures Compare(a, b) && Compare(b, c) ==> Compare(a, c)
  {
    hide Compare, Consistent, SmallNumbers, Canon;
    CompareIsEqualityUpToOrder(a, a);
    CompareIsEqualityUpToOrder(a, b);
    CompareIsEqualityUpToOrder(b, a);
    CompareIsEqualityUpToOrder(b, c);
    CompareIsEqualityUpToOrder(a, c);
  }

  /** The members may stand in any order. */
  lemma ReorderedMembersCompareEqual(ms: seq<Member>, ns: seq<Member>)
    requires Consistent(Object(ms)) && SmallNumbers(Object(ms)) && multiset(ms) == multiset(ns)
    ensures Compare(Object(ms), Object(ns))
  {
    hide Canon, CanonMembers, Compare, Find;
    SameMembers(ms, ns);
    SameMembers(ns, ms);
    ConsistentReordered(ms, ns);
    forall i | 0 <= i < |ms| ensures Agrees(ms[i], CanonMembers(ns)) {
      var j :| 0 <= j < |ns| && ns[j] == ms[i];
      FindsAnEqual(ns, j);
      CanonMembersFinds(ns, ns[j].key);
    }
    forall j | 0 <= j < |ns| ensures Find(ms, ns[j].key).Some? {
      var i :| 0 <= i < |ms| && ms[i] == ns[j];
    }
    AgreeingMeansEqual(ms, ns);
    MembersAreEqual(ms, ns);
    BothFound(ms, ns);
  }

  lemma BothFound(ms: seq<Member>, ns: seq<Member>)
    requires AllFound(ms, ns) && AllFound(ns, ms)
    ensures Compare(Object(ms), Object(ns))
  {
  }

  lemma SameMembers(ms: seq<Member>, ns: seq<Member>)
    requires multiset(ms) == multiset(ns)
    ensures forall i :: 0 <= i < |ms| ==> ms[i] in ns
  {
    forall i | 0 <= i < |ms| ensures ms[i] in ns {
      assert ms[i] in multiset(ms);
    }
  }

  lemma ConsistentReordered(ms: seq<Member>, ns: seq<Member>)
    requires Consistent(Object(ms)) && SmallNumbers(Object(ms)) && forall j :: 0 <= j < |ns| ==> ns[j] in ms
    ensures Consistent(Object(ns)) && SmallNumbers(Object(ns))
  {
    forall i, j | 0 <= i < j < |ns| && ns[i].key == ns[j].key
      ensures Canon(ns[i].value) == Canon(ns[j].value)
    {
      var k :| 0 <= k < |ms| && ms[k] == ns[i];
      var l :| 0 <= l < |ms| && ms[l] == ns[j];
      assert k < l || l < k || k == l;
    }
  }
}
