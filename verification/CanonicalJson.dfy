/** Canonical JSON: `canonicalize_json` of src/internal/object/integrity.rs sorts the keys of every object. */
module CanonicalJson {
  import opened Basics
  import opened ByteOrder

  datatype Member = Member(key: bytes, value: Value)

  datatype Value =
    | Scalar(text: bytes)                 // null, booleans, numbers and strings
    | Array(items: seq<Value>)
    | Object(members: seq<Member>)

  // ---------------------------------------------------------------- keys

  ghost predicate DistinctKeys(ms: seq<Member>) {
    forall i, j :: 0 <= i < j < |ms| ==> ms[i].key != ms[j].key
  }

  /** No object at any depth has a key twice. */
  ghost predicate WellKeyed(v: Value) {
    match v
    case Scalar(_) => true
    case Array(items) => forall i :: 0 <= i < |items| ==> WellKeyed(items[i])
    case Object(ms) => DistinctKeys(ms) && forall i :: 0 <= i < |ms| ==> WellKeyed(ms[i].value)
  }

  ghost predicate SortedKeys(ms: seq<Member>) {
    forall i, j :: 0 <= i < j < |ms| ==> Less(ms[i].key, ms[j].key)
  }

  // ---------------------------------------------------------------- sorting

  /** Stable insertion by key, from the back. */
  function Place(ms: seq<Member>, m: Member): (r: seq<Member>)
    ensures |r| == |ms| + 1
  {
    if ms == [] || !Less(m.key, ms[|ms| - 1].key) then ms + [m]
    else Place(ms[..|ms| - 1], m) + [ms[|ms| - 1]]
  }

  function SortByKey(ms: seq<Member>): (r: seq<Member>)
    ensures |r| == |ms|
  {
    if ms == [] then [] else Place(SortByKey(ms[..|ms| - 1]), ms[|ms| - 1])
  }

  lemma {:induction false} PlaceKeeps(ms: seq<Member>, m: Member)
    ensures multiset(Place(ms, m)) == multiset(ms) + multiset{m}
  {
    if ms != [] && Less(m.key, ms[|ms| - 1].key) {
      PlaceKeeps(ms[..|ms| - 1], m);
      assert ms == ms[..|ms| - 1] + [ms[|ms| - 1]];
    }
  }

  lemma {:induction false} SortKeeps(ms: seq<Member>)
    ensures multiset(SortByKey(ms)) == multiset(ms)
  {
    if ms != [] {
      SortKeeps(ms[..|ms| - 1]);
      PlaceKeeps(SortByKey(ms[..|ms| - 1]), ms[|ms| - 1]);
      assert ms == ms[..|ms| - 1] + [ms[|ms| - 1]];
    }
  }

  ghost predicate AllBelow(ms: seq<Member>, key: bytes) {
    forall i :: 0 <= i < |ms| ==> Less(ms[i].key, key)
  }

  ghost predicate NoneHas(ms: seq<Member>, key: bytes) {
    forall i :: 0 <= i < |ms| ==> ms[i].key != key
  }

  lemma SortedSnoc(ms: seq<Member>, m: Member)
    ensures SortedKeys(ms + [m]) <==> SortedKeys(ms) && AllBelow(ms, m.key)
  {
    hide Less;
    var all := ms + [m];
    if SortedKeys(all) {
      forall i | 0 <= i < |ms| ensures Less(ms[i].key, m.key) { assert Less(all[i].key, all[|ms|].key); }
      forall i, j | 0 <= i < j < |ms| ensures Less(ms[i].key, ms[j].key) { assert Less(all[i].key, all[j].key); }
    }
  }

  lemma {:induction false} PlaceSorted(ms: seq<Member>, m: Member)
    requires SortedKeys(ms) && NoneHas(ms, m.key)
    ensures SortedKeys(Place(ms, m))
    ensures forall key :: AllBelow(ms, key) && Less(m.key, key) ==> AllBelow(Place(ms, m), key)
  {
    hide Less, SortedKeys;
    if ms == [] {
      OneSorted(m);
      assert [] + [m] == [m];
      return;
    }
    var n := |ms| - 1;
    var front, last := ms[..n], ms[n];
    assert ms == front + [last];
    SortedSnoc(front, last);
    if Less(m.key, last.key) {
      PlaceSorted(front, m);
      SortedSnoc(Place(front, m), last);
      forall key | AllBelow(ms, key) && Less(m.key, key) ensures AllBelow(Place(ms, m), key) {
        assert AllBelow(front, key) && Less(ms[n].key, key);
      }
    } else {
      LessTotal(m.key, last.key);
      BelowAll(front, last.key, m.key);
      SortedSnoc(ms, m);
    }
  }

  lemma OneSorted(m: Member)
    ensures SortedKeys([m]) && SortedKeys([])
  {
  }

  lemma BelowAll(ms: seq<Member>, a: bytes, b: bytes)
    requires AllBelow(ms, a) && Less(a, b)
    ensures AllBelow(ms, b)
  {
    hide Less;
    forall i | 0 <= i < |ms| ensures Less(ms[i].key, b) { LessTransitive(ms[i].key, a, b); }
  }

  lemma {:induction false} SortSorts(ms: seq<Member>)
    requires DistinctKeys(ms)
    ensures SortedKeys(SortByKey(ms))
  {
    hide Less;
    if ms != [] {
      var n := |ms| - 1;
      var front := SortByKey(ms[..n]);
      SortSorts(ms[..n]);
      SortKeeps(ms[..n]);
      forall i | 0 <= i < |front| ensures front[i].key != ms[n].key {
        assert front[i] in multiset(front);
        assert front[i] in ms[..n];
      }
      PlaceSorted(front, ms[n]);
    }
  }

  lemma WithoutLast(a: seq<Member>)
    requires a != []
    ensures a == a[..|a| - 1] + [a[|a| - 1]] && multiset(a[..|a| - 1]) == multiset(a) - multiset{a[|a| - 1]}
  {
    assert a == a[..|a| - 1] + [a[|a| - 1]];
  }

  /** Two sorted lists with the same members are the same list. */
  lemma {:induction false} SortedUnique(a: seq<Member>, b: seq<Member>)
    requires SortedKeys(a) && SortedKeys(b) && multiset(a) == multiset(b)
    ensures a == b
    decreases |a|
  {
    hide Less, SortedKeys, AllBelow;
    assert |a| == |multiset(a)| == |multiset(b)| == |b|;
    if a != [] {
      var n := |a| - 1;
      WithoutLast(a);
      WithoutLast(b);
      SortedSnoc(a[..n], a[n]);
      SortedSnoc(b[..n], b[n]);
      LastIsLargest(a, b);
      SortedUnique(a[..n], b[..n]);
    }
  }

  lemma LastIsLargest(a: seq<Member>, b: seq<Member>)
    requires |a| == |b| > 0 && multiset(a) == multiset(b)
    requires AllBelow(a[..|a| - 1], a[|a| - 1].key) && AllBelow(b[..|b| - 1], b[|b| - 1].key)
    ensures a[|a| - 1] == b[|b| - 1]
  {
    hide Less;
    var n := |a| - 1;
    var x, y := a[n], b[n];
    assert x in multiset(b) && y in multiset(a);
    var i :| 0 <= i < |b| && b[i] == x;
    var j :| 0 <= j < |a| && a[j] == y;
    if x != y {
      assert b[..n][i] == x && a[..n][j] == y;
      LessTransitive(x.key, y.key, x.key);
      LessIrreflexive(x.key);
      assert false;
    }
  }

  // ---------------------------------------------------------------- canonical form

  function Canon(v: Value): Value {
    match v
    case Scalar(_) => v
    case Array(items) => Array(seq(|items|, i requires 0 <= i < |items| => Canon(items[i])))
    case Object(ms) => Object(SortByKey(seq(|ms|, i requires 0 <= i < |ms| => Member(ms[i].key, Canon(ms[i].value)))))
  }

  /** The values differ in the order of object keys only, at any depth. */
  ghost predicate SameUpToOrder(v: Value, w: Value)
    decreases v
  {
    match v
    case Scalar(_) => v == w
    case Array(items) =>
      w.Array? && |items| == |w.items| && forall i :: 0 <= i < |items| ==> SameUpToOrder(items[i], w.items[i])
    case Object(ms) =>
      && w.Object? && |ms| == |w.members|
      && forall i :: 0 <= i < |ms| ==>
           exists j :: 0 <= j < |w.members| && ms[i].key == w.members[j].key && SameUpToOrder(ms[i].value, w.members[j].value)
  }

  /** The members with canonical values, in their own order. */
  function Mapped(ms: seq<Member>): (r: seq<Member>)
    ensures |r| == |ms| && forall i :: 0 <= i < |ms| ==> r[i] == Member(ms[i].key, Canon(ms[i].value))
  {
    seq(|ms|, i requires 0 <= i < |ms| => Member(ms[i].key, Canon(ms[i].value)))
  }

  lemma CanonObject(ms: seq<Member>)
    ensures Canon(Object(ms)) == Object(SortByKey(Mapped(ms)))
  {
    assert Mapped(ms) == seq(|ms|, i requires 0 <= i < |ms| => Member(ms[i].key, Canon(ms[i].value)));
  }

  lemma MappedDistinct(ms: seq<Member>)
    requires DistinctKeys(ms)
    ensures DistinctKeys(Mapped(ms))
  {
    var r := Mapped(ms);
    forall i, j | 0 <= i < j < |r| ensures r[i].key != r[j].key { assert ms[i].key != ms[j].key; }
  }

  lemma {:induction false} SameMembers(a: seq<Member>, b: seq<Member>)
    requires DistinctKeys(a) && |a| == |b| && forall i :: 0 <= i < |a| ==> a[i] in b
    ensures multiset(a) == multiset(b)
    decreases |a|
  {
    if a != [] {
      var n := |a| - 1;
      var j :| 0 <= j < |b| && b[j] == a[n];
      var b' := b[..j] + b[j + 1..];
      forall i | 0 <= i < n ensures a[..n][i] in b' {
        var k :| 0 <= k < |b| && b[k] == a[i];
        assert a[i].key != a[n].key;
        assert if k < j then b'[k] == a[i] else b'[k - 1] == a[i];
      }
      SameMembers(a[..n], b');
      WithLast(a);
      Without(b, j);
    }
  }

  lemma WithLast(a: seq<Member>)
    requires a != []
    ensures multiset(a) == multiset(a[..|a| - 1]) + multiset{a[|a| - 1]}
  {
    assert a == a[..|a| - 1] + [a[|a| - 1]];
  }

  lemma Without(b: seq<Member>, j: nat)
    requires j < |b|
    ensures multiset(b) == multiset(b[..j] + b[j + 1..]) + multiset{b[j]}
  {
    assert b == b[..j] + [b[j]] + b[j + 1..];
  }

  lemma SortMembers(ms: seq<Member>, m: Member)
    ensures m in SortByKey(ms) <==> m in ms
  {
    SortKeeps(ms);
    assert m in SortByKey(ms) <==> m in multiset(SortByKey(ms));
    assert m in ms <==> m in multiset(ms);
  }

  lemma SortedAgree(a: seq<Member>, b: seq<Member>)
    requires DistinctKeys(a) && DistinctKeys(b) && multiset(a) == multiset(b)
    ensures SortByKey(a) == SortByKey(b)
  {
    SortSorts(a); SortSorts(b);
    SortKeeps(a); SortKeeps(b);
    SortedUnique(SortByKey(a), SortByKey(b));
  }

  lemma {:induction false} OrderForgotten(v: Value, w: Value)
    requires WellKeyed(v) && WellKeyed(w) && SameUpToOrder(v, w)
    ensures Canon(v) == Canon(w)
    decreases v
  {
    match v
    case Scalar(_) =>
    case Array(items) =>
      forall i | 0 <= i < |items| ensures Canon(items[i]) == Canon(w.items[i]) { OrderForgotten(items[i], w.items[i]); }
    case Object(ms) =>
      var a, b := Mapped(ms), Mapped(w.members);
      forall i | 0 <= i < |ms| ensures a[i] in b {
        var j :| 0 <= j < |w.members| && ms[i].key == w.members[j].key && SameUpToOrder(ms[i].value, w.members[j].value);
        OrderForgotten(ms[i].value, w.members[j].value);
        assert b[j] == a[i];
      }
      MappedDistinct(ms); MappedDistinct(w.members);
      SameMembers(a, b);
      SortedAgree(a, b);
      CanonObject(ms); CanonObject(w.members);
  }

  lemma {:induction false} OnlyOrderForgotten(v: Value, w: Value)
    requires Canon(v) == Canon(w)
    ensures SameUpToOrder(v, w)
    decreases v
  {
    match v
    case Scalar(_) =>
    case Array(items) =>
      forall i | 0 <= i < |items| ensures SameUpToOrder(items[i], w.items[i]) {
        assert Canon(v).items[i] == Canon(w).items[i];
        OnlyOrderForgotten(items[i], w.items[i]);
      }
    case Object(ms) =>
      CanonObject(ms); CanonObject(w.members);
      forall i | 0 <= i < |ms|
        ensures exists j :: 0 <= j < |w.members| && ms[i].key == w.members[j].key && SameUpToOrder(ms[i].value, w.members[j].value)
      {
        var m := Mapped(ms)[i];
        SortMembers(Mapped(ms), m);
        SortMembers(Mapped(w.members), m);
        var j :| 0 <= j < |w.members| && Mapped(w.members)[j] == m;
        OnlyOrderForgotten(ms[i].value, w.members[j].value);
      }
  }

  /** Two values canonicalise to the same value exactly when they differ in key order only. */
  lemma CanonIffSame(v: Value, w: Value)
    requires WellKeyed(v) && WellKeyed(w)
    ensures Canon(v) == Canon(w) <==> SameUpToOrder(v, w)
  {
    if SameUpToOrder(v, w) { OrderForgotten(v, w); }
    if Canon(v) == Canon(w) { OnlyOrderForgotten(v, w); }
  }

  /** Keys are in ascending order in every object. */
  ghost predicate Ascending(v: Value) {
    match v
    case Scalar(_) => true
    case Array(items) => forall i :: 0 <= i < |items| ==> Ascending(items[i])
    case Object(ms) => SortedKeys(ms) && forall i :: 0 <= i < |ms| ==> Ascending(ms[i].value)
  }

  lemma SortedDistinct(ms: seq<Member>)
    requires SortedKeys(ms)
    ensures DistinctKeys(ms)
  {
    hide Less;
    forall i, j | 0 <= i < j < |ms| ensures ms[i].key != ms[j].key {
      assert Less(ms[i].key, ms[j].key);
      LessIrreflexive(ms[i].key);
    }
  }

  /** No key, value or array position is lost, and the result is sorted throughout. */
  lemma {:induction false} CanonKeeps(v: Value)
    requires WellKeyed(v)
    ensures SameUpToOrder(v, Canon(v)) && WellKeyed(Canon(v)) && Ascending(Canon(v))
    decreases v
  {
    match v
    case Scalar(_) =>
    case Array(items) =>
      forall i | 0 <= i < |items|
        ensures SameUpToOrder(items[i], Canon(items[i])) && WellKeyed(Canon(items[i])) && Ascending(Canon(items[i]))
      {
        CanonKeeps(items[i]);
      }
    case Object(ms) =>
      CanonObject(ms);
      CanonKeepsObject(ms);
  }

  lemma {:induction false} CanonKeepsObject(ms: seq<Member>)
    requires WellKeyed(Object(ms))
    ensures var w := Object(SortByKey(Mapped(ms))); SameUpToOrder(Object(ms), w) && WellKeyed(w) && Ascending(w)
    decreases ms
  {
    var a := Mapped(ms);
    var b := SortByKey(a);
    MappedDistinct(ms);
    SortSorts(a);
    SortedDistinct(b);
    forall i | 0 <= i < |ms|
      ensures exists j :: 0 <= j < |b| && ms[i].key == b[j].key && SameUpToOrder(ms[i].value, b[j].value)
    {
      CanonKeeps(ms[i].value);
      SortMembers(a, a[i]);
      var j :| 0 <= j < |b| && b[j] == a[i];
    }
    forall j | 0 <= j < |b| ensures WellKeyed(b[j].value) && Ascending(b[j].value) {
      SortMembers(a, b[j]);
      var i :| 0 <= i < |a| && a[i] == b[j];
      CanonKeeps(ms[i].value);
    }
  }

  lemma CanonIdempotent(v: Value)
    requires WellKeyed(v)
    ensures Canon(Canon(v)) == Canon(v)
  {
    CanonKeeps(v);
    OrderForgotten(v, Canon(v));
  }

  // ---------------------------------------------------------------- the code

  lemma {:induction false} PlaceMapped(ms: seq<Member>, m: Member)
    ensures Mapped(Place(ms, m)) == Place(Mapped(ms), Member(m.key, Canon(m.value)))
  {
    hide Less, Canon;
    if ms != [] && Less(m.key, ms[|ms| - 1].key) {
      PlaceMapped(ms[..|ms| - 1], m);
      assert Mapped(ms)[..|ms| - 1] == Mapped(ms[..|ms| - 1]);
    }
  }

  lemma {:induction false} SortMapped(ms: seq<Member>)
    ensures Mapped(SortByKey(ms)) == SortByKey(Mapped(ms))
  {
    hide Less, Canon, Place;
    if ms != [] {
      var n := |ms| - 1;
      SortMapped(ms[..n]);
      PlaceMapped(SortByKey(ms[..n]), ms[n]);
      assert Mapped(ms)[..n] == Mapped(ms[..n]);
    }
  }

  /** Sorts an object's members, then rewrites their values one by one; arrays keep their order. */
  method Canonicalize(v: Value) returns (r: Value)
    ensures r == Canon(v)
    decreases v
  {
    match v
    case Scalar(_) => r := v;
    case Array(items) =>
      var out: seq<Value> := [];
      for i := 0 to |items|
        invariant |out| == i && forall j :: 0 <= j < i ==> out[j] == Canon(items[j])
      {
        var item := Canonicalize(items[i]);
        out := out + [item];
      }
      r := Array(out);
    case Object(ms) =>
      var entries := SortByKey(ms);
      var sorted: seq<Member> := [];
      for i := 0 to |entries|
        invariant |sorted| == i && forall j :: 0 <= j < i ==> sorted[j] == Member(entries[j].key, Canon(entries[j].value))
      {
        SortMembers(ms, entries[i]);
        ghost var k :| 0 <= k < |ms| && ms[k] == entries[i];
        var value := Canonicalize(entries[i].value);
        sorted := sorted + [Member(entries[i].key, value)];
      }
      r := Object(sorted);
      assert sorted == Mapped(entries);
      SortMapped(ms);
      CanonObject(ms);
  }
}
