/** The least element of a set of numbers. */
module Minimum {
  lemma {:induction false} LeastBelow(s: set<nat>, y: nat)
    requires exists x :: x in s && x < y
    ensures exists d :: d in s && forall x :: x in s ==> d <= x
  {
    var x :| x in s && x < y;
    if z :| z in s && z < x {
      LeastBelow(s, x);
    }
  }

  lemma LeastExists(s: set<nat>)
    requires s != {}
    ensures exists d :: d in s && forall x :: x in s ==> d <= x
  {
    var y :| y in s;
    if x :| x in s && x < y {
      LeastBelow(s, y);
    }
  }

  method Least(s: set<nat>) returns (d: nat)
    requires s != {}
    ensures d in s && forall x :: x in s ==> d <= x
  {
    LeastExists(s);
    d :| d in s && forall x :: x in s ==> d <= x;
  }
}
