/** sort.Slice by a string key, as insertion: the result depends on the elements only. */
module Sorting {
  import opened Text

  /** Strictly ascending keys. */
  ghost predicate Sorted<T>(ts: seq<T>, key: T -> string) {
    forall i, j :: 0 <= i < j < |ts| ==> Less(key(ts[i]), key(ts[j]))
  }

  ghost predicate DistinctBy<T>(ts: seq<T>, key: T -> string) {
    forall i, j :: 0 <= i < j < |ts| ==> key(ts[i]) != key(ts[j])
  }

  function Insert<T>(ts: seq<T>, t: T, key: T -> string): seq<T> {
    if ts == [] || Less(key(t), key(ts[0])) then [t] + ts else [ts[0]] + Insert(ts[1..], t, key)
  }

  function SortBy<T>(ts: seq<T>, key: T -> string): seq<T> {
    if ts == [] then [] else Insert(SortBy(ts[..|ts| - 1], key), ts[|ts| - 1], key)
  }

  lemma {:induction false} InsertSorted<T(!new)>(ts: seq<T>, t: T, key: T -> string)
    requires Sorted(ts, key) && forall x :: x in ts ==> key(x) != key(t)
    ensures Sorted(Insert(ts, t, key), key) && forall x :: x in Insert(ts, t, key) <==> x in ts || x == t
  {
    hide Less;
    if ts != [] && !Less(key(t), key(ts[0])) {
      LessTotal(key(t), key(ts[0]));
      assert ts[0] in ts;
      assert forall x :: x in ts <==> x == ts[0] || x in ts[1..];
      InsertSorted(ts[1..], t, key);
      SortedCons(ts[0], Insert(ts[1..], t, key), key);
    } else if ts != [] {
      forall i | 0 <= i < |ts| ensures Less(key(t), key(ts[i])) {
        if i > 0 {
          LessTransitive(key(t), key(ts[0]), key(ts[i]));
        }
      }
      SortedCons(t, ts, key);
    }
  }

  lemma SortedCons<T(!new)>(t: T, ts: seq<T>, key: T -> string)
    requires Sorted(ts, key) && forall x :: x in ts ==> Less(key(t), key(x))
    ensures Sorted([t] + ts, key)
  {
    hide Less;
  }

  lemma {:induction false} SortSorts<T(!new)>(ts: seq<T>, key: T -> string)
    requires DistinctBy(ts, key)
    ensures Sorted(SortBy(ts, key), key) && forall x :: x in SortBy(ts, key) <==> x in ts
  {
    hide Less, Insert;
    if ts != [] {
      var init, last := ts[..|ts| - 1], ts[|ts| - 1];
      SortSorts(init, key);
      assert forall x :: x in ts <==> x in init || x == last;
      InsertSorted(SortBy(init, key), last, key);
    }
  }

  lemma DistinctSnoc<T(!new)>(ts: seq<T>, t: T, key: T -> string)
    requires DistinctBy(ts, key) && forall x :: x in ts ==> key(x) != key(t)
    ensures DistinctBy(ts + [t], key)
    ensures forall x :: x in ts + [t] <==> x in ts || x == t
  {
    var more := ts + [t];
    forall i, j | 0 <= i < j < |more| ensures key(more[i]) != key(more[j]) {
      assert j == |ts| ==> more[i] in ts;
    }
  }
}
