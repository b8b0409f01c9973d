/** Small vocabulary shared by every module: options, 64-bit integers, and
    enumerations of finite sets (the iteration order of an unordered map). */
module Prelude {

  datatype Option<+T> = None | Some(value: T) {
    function GetOr(default: T): T {
      match this
      case None => default
      case Some(v) => v
    }
  }

  const INT64_MIN: int := -0x8000_0000_0000_0000
  const INT64_MAX: int := 0x7FFF_FFFF_FFFF_FFFF

  /** The range of `long long`. */
  type Int64 = n: int | INT64_MIN <= n <= INT64_MAX witness 0

  predicate Distinct<T(==)>(s: seq<T>) {
    forall i, j :: 0 <= i < j < |s| ==> s[i] != s[j]
  }

  /** `order` lists the elements of `items`, each exactly once. */
  predicate Enumerates<T(==)>(order: seq<T>, items: set<T>) {
    && Distinct(order)
    && (forall x :: x in order ==> x in items)
    && (forall x :: x in items ==> x in order)
  }

  function Elements<T>(s: seq<T>): set<T> {
    set x | x in s
  }

  lemma ElementsExtended<T>(s: seq<T>, x: T)
    ensures Elements(s + [x]) == Elements(s) + {x}
  {
  }

  lemma {:induction false} ElementsBounded<T>(s: seq<T>)
    ensures |Elements(s)| <= |s|
  {
    if s != [] {
      var last := |s| - 1;
      assert s == s[..last] + [s[last]];
      ElementsExtended(s[..last], s[last]);
      ElementsBounded(s[..last]);
    } else {
      assert Elements(s) == {};
    }
  }

  lemma EnumerationExtended<T>(order: seq<T>, items: set<T>, x: T)
    requires Enumerates(order, items) && x !in items
    ensures Enumerates(order + [x], items + {x})
  {
  }

  /** An enumeration without its last element enumerates the rest. */
  lemma EnumerationPrefix<T>(order: seq<T>, items: set<T>)
    requires Enumerates(order, items) && order != []
    ensures Enumerates(order[..|order| - 1], items - {order[|order| - 1]})
  {
    var last := |order| - 1;
    assert order == order[..last] + [order[last]];
    forall x | x in items - {order[last]} ensures x in order[..last] {
      var i :| 0 <= i < |order| && order[i] == x;
      assert order[..last][i] == x;
    }
  }

  lemma {:induction false} EnumerationLength<T>(order: seq<T>, items: set<T>)
    requires Enumerates(order, items)
    ensures |order| == |items|
  {
    if order == [] {
      assert items == {};
    } else {
      EnumerationPrefix(order, items);
      EnumerationLength(order[..|order| - 1], items - {order[|order| - 1]});
    }
  }

  /** Every finite set can be enumerated. */
  lemma {:induction false} EnumerationExists<T>(items: set<T>) returns (order: seq<T>)
    ensures Enumerates(order, items)
    decreases |items|
  {
    if items == {} {
      order := [];
    } else {
      var x :| x in items;
      var rest := EnumerationExists(items - {x});
      EnumerationExtended(rest, items - {x}, x);
      assert items - {x} + {x} == items;
      order := rest + [x];
    }
  }
}
