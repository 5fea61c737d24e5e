/** Lists that hold one representative per value, grown by "find it or append it". The canonical
    tag sets (validator/include/metadata_cache.h, validator/riscv/meta_cache.cc) and the index
    lists (tagging_tools/metadata_index_map.h) are all built this way. */
module Interning {

  /** The first position of `x`, or the length of the list if `x` is absent. */
  function IndexOf<T(==)>(s: seq<T>, x: T): (i: nat)
    ensures i <= |s| && (i < |s| ==> s[i] == x)
  {
    if |s| == 0 then 0
    else if s[0] == x then 0
    else 1 + IndexOf(s[1..], x)
  }

  lemma IndexOfIsFirst<T>(s: seq<T>, x: T)
    ensures forall j | 0 <= j < IndexOf(s, x) :: s[j] != x
    ensures IndexOf(s, x) < |s| <==> x in s
  {}

  /** The list after looking up `x` and appending it if it is absent. */
  function Intern<T(==)>(s: seq<T>, x: T): (s': seq<T>)
    ensures |s| <= |s'| <= |s| + 1
    ensures IndexOf(s, x) < |s'| && s'[IndexOf(s, x)] == x
  {
    if IndexOf(s, x) < |s| then s else s + [x]
  }

  lemma InternExtends<T>(s: seq<T>, x: T)
    ensures s <= Intern(s, x)
  {}

  predicate NoDuplicates<T(==)>(s: seq<T>) {
    forall i, j | 0 <= i < j < |s| :: s[i] != s[j]
  }

  lemma InternKeepsDistinct<T>(s: seq<T>, x: T)
    requires NoDuplicates(s)
    ensures NoDuplicates(Intern(s, x))
  {
    IndexOfIsFirst(s, x);
  }

  /** In a list without duplicates, positions and values determine each other. */
  lemma UniquePosition<T>(s: seq<T>, i: nat, j: nat)
    requires NoDuplicates(s) && i < |s| && j < |s|
    ensures s[i] == s[j] <==> i == j
  {
    assert i < j ==> s[i] != s[j];
    assert j < i ==> s[j] != s[i];
  }

  /** The search loop, which appends the value when it is not found. */
  method FindOrAppend<T(==)>(list: seq<T>, x: T) returns (list': seq<T>, index: nat)
    ensures list' == Intern(list, x) && index == IndexOf(list, x)
  {
    var i := 0;
    while i < |list|
      invariant i <= |list| && forall j | 0 <= j < i :: list[j] != x
    {
      if list[i] == x {
        FirstPosition(list, x, i);
        return list, i;
      }
      i := i + 1;
    }
    IndexOfIsFirst(list, x);
    return list + [x], |list|;
  }

  lemma FirstPosition<T>(s: seq<T>, x: T, i: nat)
    requires i < |s| && s[i] == x && forall j | 0 <= j < i :: s[j] != x
    ensures IndexOf(s, x) == i
  {
    IndexOfIsFirst(s, x);
  }
}
