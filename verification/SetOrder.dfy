/** Iterating a `std::set` of numbers: its elements in increasing order. */
module SetOrder {

  predicate IsLeast(s: set<nat>, x: nat) {
    x in s && forall y | y in s :: x <= y
  }

  lemma {:induction false} HasLeast(s: set<nat>, x: nat)
    requires x in s
    ensures exists m: nat :: IsLeast(s, m)
    decreases x
  {
    if y :| y in s && y < x {
      HasLeast(s, y);
    } else {
      assert IsLeast(s, x);
    }
  }

  function Least(s: set<nat>): (x: nat)
    requires s != {}
    ensures x in s && forall y | y in s :: x <= y
  {
    var some: nat :| some in s;
    HasLeast(s, some);
    var x: nat :| x in s && IsLeast(s, x);
    x
  }

  function Elements(s: set<nat>): (es: seq<nat>)
    ensures |es| == |s|
    decreases |s|
  {
    if s == {} then []
    else
      var x := Least(s);
      [x] + Elements(s - {x})
  }

  /** Inserting a list's values one after another. */
  function ToSet(es: seq<nat>): set<nat> {
    if |es| == 0 then {} else {es[0]} + ToSet(es[1..])
  }

  lemma {:induction false} InToSet(es: seq<nat>, x: nat)
    ensures x in ToSet(es) <==> x in es
  {
    if |es| > 0 {
      InToSet(es[1..], x);
      assert es == [es[0]] + es[1..];
    }
  }

  /** Reading back the elements of a set gives the set. */
  lemma {:induction false} ElementsAreAll(s: set<nat>)
    ensures ToSet(Elements(s)) == s
    decreases |s|
  {
    if s != {} {
      var x := Least(s);
      ElementsAreAll(s - {x});
      assert Elements(s) == [x] + Elements(s - {x});
      assert ([x] + Elements(s - {x}))[1..] == Elements(s - {x});
    }
  }

  lemma {:induction false} ElementsAscend(s: set<nat>, i: nat, j: nat)
    requires i < j < |Elements(s)|
    ensures Elements(s)[i] < Elements(s)[j]
    decreases |s|
  {
    var x := Least(s);
    var rest := Elements(s - {x});
    if i > 0 {
      ElementsAscend(s - {x}, i - 1, j - 1);
    } else {
      ElementsAreAll(s - {x});
      InToSet(rest, rest[j - 1]);
    }
  }
}
