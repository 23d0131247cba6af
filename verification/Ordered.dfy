/** Iteration in ascending key order, the order in which a `BTreeMap` is walked. */
module Ordered {

  ghost predicate Ascending(s: seq<int>) {
    forall i, j :: 0 <= i < j < |s| ==> s[i] < s[j]
  }

  lemma EmptyIfNoMember(s: set<int>)
    requires forall k :: k !in s
    ensures s == {}
  {
    assert forall k :: k in s <==> k in {};
  }

  lemma HasMember(s: set<int>)
    requires s != {}
    ensures exists k :: k in s
  {
    if forall k :: k !in s { EmptyIfNoMember(s); }
  }

  lemma {:induction false} MinimumExists(keys: set<int>)
    requires keys != {}
    ensures exists m :: m in keys && forall k :: k in keys ==> m <= k
  {
    HasMember(keys);
    var k :| k in keys;
    var rest := keys - {k};
    var least := k;
    if rest != {} {
      MinimumExists(rest);
      var m :| m in rest && forall j :: j in rest ==> m <= j;
      least := if m < k then m else k;
    }
    assert forall j :: j in keys ==> j == k || j in rest;
    assert least in keys && forall j :: j in keys ==> least <= j;
  }

  function Minimum(keys: set<int>): (m: int)
    requires keys != {}
    ensures m in keys && forall k :: k in keys ==> m <= k
  {
    MinimumExists(keys);
    var m :| m in keys && forall k :: k in keys ==> m <= k;
    m
  }

  /** A list of all members of a set, in ascending order. */
  ghost predicate Enumerates(list: seq<int>, keys: set<int>) {
    Ascending(list) && forall k :: k in list <==> k in keys
  }

  /** The keys of a map in the order its iterator yields them. */
  function SortedKeys(keys: set<int>): (r: seq<int>)
    ensures Enumerates(r, keys)
    ensures |r| == |keys|
  {
    if keys == {} then []
    else
      var m := Minimum(keys);
      [m] + SortedKeys(keys - {m})
  }

  lemma {:induction false} EnumerationLength(list: seq<int>, keys: set<int>)
    requires Enumerates(list, keys)
    ensures |list| == |keys|
  {
    if list == [] {
      EmptyIfNoMember(keys);
    } else {
      var front, last := list[..|list| - 1], list[|list| - 1];
      assert list == front + [last];
      assert last in list && last !in front;
      EnumerationLength(front, keys - {last});
    }
  }

  lemma {:induction false} SameAscending(s: seq<int>, t: seq<int>)
    requires Ascending(s) && Ascending(t) && |s| == |t|
    requires forall k :: k in s <==> k in t
    ensures s == t
  {
    if s != [] {
      assert s[0] in s && t[0] in t;
      assert s[0] in t && t[0] in s;
      assert s[0] == t[0];
      forall k ensures k in s[1..] <==> k in t[1..] {
        assert k in s <==> k == s[0] || k in s[1..];
        assert k in t <==> k == t[0] || k in t[1..];
      }
      SameAscending(s[1..], t[1..]);
    }
  }

  /** There is only one such list. */
  lemma SortedKeysOf(keys: set<int>, list: seq<int>)
    requires Enumerates(list, keys)
    ensures list == SortedKeys(keys)
  {
    EnumerationLength(list, keys);
    SameAscending(list, SortedKeys(keys));
  }
}
