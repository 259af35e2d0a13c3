/** Cutting a text at a separator. */
module Splitting {
  import opened Decimal

  function Before(s: Bytes, c: byte): (h: Bytes)
    ensures h <= s && c !in h
    ensures h == s || s[|h|] == c
  {
    if s == [] || s[0] == c then [] else [s[0]] + Before(s[1..], c)
  }

  function Split(s: Bytes, c: byte): (r: seq<Bytes>)
    ensures |r| >= 1
    decreases |s|
  {
    var h := Before(s, c);
    if |h| == |s| then [s] else [h] + Split(s[|h| + 1..], c)
  }

  lemma {:induction false} SplitAt(x: Bytes, c: byte, y: Bytes)
    ensures Split(x + ([c] + y), c) == Split(x, c) + Split(y, c)
    decreases |x|
  {
    var s := x + ([c] + y);
    BeforeExtends(x, c, [c] + y);
    FirstSplit(s, c);
    FirstSplit(x, c);
    hide Split, Before;
    if c in x {
      var h := Before(x, c);
      var x' := x[|h| + 1..];
      assert s[|h| + 1..] == x' + ([c] + y);
      SplitAt(x', c, y);
    } else {
      BeforeAt(c, y);
      assert Before(s, c) == x && s[|x|] == c && s[|x| + 1..] == y;
    }
  }

  lemma BeforeAt(c: byte, y: Bytes)
    ensures Before([c] + y, c) == []
  {
  }

  lemma FirstSplit(s: Bytes, c: byte)
    ensures var h := Before(s, c);
            if c in s then |h| < |s| && Split(s, c) == [h] + Split(s[|h| + 1..], c)
            else h == s && Split(s, c) == [s]
  {
    hide Before;
    var h := Before(s, c);
    if h != s {
      assert s[|h|] == c;
    }
  }

  /** The first `c` is found in the front part if it is there. */
  lemma {:induction false} BeforeExtends(x: Bytes, c: byte, y: Bytes)
    ensures c in x ==> Before(x + y, c) == Before(x, c) && |Before(x, c)| < |x|
    ensures c !in x ==> Before(x + y, c) == x + Before(y, c)
  {
    if x == [] {
      assert x + y == y;
    } else if x[0] != c {
      BeforeExtends(x[1..], c, y);
      assert (x + y)[1..] == x[1..] + y;
    }
  }
}
