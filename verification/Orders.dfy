/** Strict total orders on strings, standing for the comparison functions the source sorts with. */
module Orders {
  import opened Prelude

  type Order = (string, string) -> bool

  ghost predicate StrictTotal(less: Order)
  {
    && (forall a: string :: !less(a, a))
    && (forall a: string, b: string, c: string :: less(a, b) && less(b, c) ==> less(a, c))
    && (forall a: string, b: string :: a != b ==> less(a, b) || less(b, a))
  }

  predicate IsFirst(less: Order, x: string, s: set<string>)
  {
    x in s && forall y :: y in s ==> y == x || less(x, y)
  }

  lemma {:induction false} HasFirst(less: Order, s: set<string>)
    requires StrictTotal(less) && s != {}
    ensures exists x :: IsFirst(less, x, s)
  {
    var x :| x in s;
    if s == {x} {
      assert IsFirst(less, x, s);
    } else {
      HasFirst(less, s - {x});
      var rest :| IsFirst(less, rest, s - {x});
      assert forall y :: y in s ==> y == x || y in s - {x};
      assert IsFirst(less, if less(x, rest) then x else rest, s);
    }
  }

  function First(less: Order, s: set<string>): (x: string)
    requires StrictTotal(less) && s != {}
    ensures IsFirst(less, x, s)
  {
    HasFirst(less, s);
    var x :| IsFirst(less, x, s);
    x
  }

  ghost predicate Ascending(less: Order, s: seq<string>)
  {
    forall i, j :: 0 <= i < j < |s| ==> less(s[i], s[j])
  }

  /** The elements of a set in order. */
  function Sorted(less: Order, s: set<string>): (r: seq<string>)
    requires StrictTotal(less)
    ensures forall x :: x in r <==> x in s
    ensures Ascending(less, r)
  {
    if s == {} then []
    else
      var x := First(less, s);
      [x] + Sorted(less, s - {x})
  }

  lemma AscendingNoDup(less: Order, s: seq<string>)
    requires StrictTotal(less) && Ascending(less, s)
    ensures NoDup(s)
  {
    forall i, j | 0 <= i < j < |s|
      ensures s[i] != s[j]
    {
      assert less(s[i], s[j]);
    }
  }
}
