/** When concatenations with parts in common are equal. */
module Sequences {

  lemma SplitEqual<T>(a: seq<T>, b: seq<T>, c: seq<T>, d: seq<T>)
    requires |a| == |c|
    ensures a + b == c + d <==> a == c && b == d
  {
    if a + b == c + d {
      assert a == (a + b)[..|a|] == (c + d)[..|a|] == c;
      assert b == (a + b)[|a|..] == (c + d)[|a|..] == d;
    }
  }

  lemma MiddleDecides<T>(head: seq<T>, p: seq<T>, q: seq<T>, tail: seq<T>)
    requires |p| == |q|
    ensures head + p + tail == head + q + tail <==> p == q
  {
    SplitEqual(head + p, tail, head + q, tail);
    SplitEqual(head, p, head, q);
  }
}
