/** The bounded first-in-first-out buffers of the simulation: the Lorenz path
    (at most 80 points) and each boid's trail (at most 10 points). Both push
    the new element and then drop the oldest one when the length exceeds the
    cap. */
module Fifo {

  /** The last `cap` elements of s (all of s when it is shorter). */
  function Window<T>(s: seq<T>, cap: nat): (w: seq<T>)
    ensures |w| <= cap || w == s
    ensures |s| <= cap ==> w == s
  {
    if |s| <= cap then s else s[|s| - cap..]
  }

  /** push then shift-if-too-long, one step. */
  function Pushed<T>(buf: seq<T>, x: T, cap: nat): (r: seq<T>)
    ensures |buf| <= cap ==> r == Window(buf + [x], cap)
  {
    var t := buf + [x];
    if |t| > cap then t[1..] else t
  }

  /** Pushing each element of xs in turn. */
  function PushAll<T>(buf: seq<T>, xs: seq<T>, cap: nat): seq<T>
    decreases |xs|
  {
    if xs == [] then buf else PushAll(Pushed(buf, xs[0], cap), xs[1..], cap)
  }

  /** The last n elements of p + u, when u has at least n, are those of u. */
  lemma SuffixOfAppend<T>(p: seq<T>, u: seq<T>, n: nat)
    requires n <= |u|
    ensures (p + u)[|p + u| - n..] == u[|u| - n..]
  {
    var v := p + u;
    var a, b := v[|v| - n..], u[|u| - n..];
    assert |a| == n == |b|;
    forall i | 0 <= i < n
      ensures a[i] == b[i]
    {
      assert v[|v| - n + i] == u[|u| - n + i];
    }
  }

  /** Taking a window twice is taking it once. */
  lemma WindowOfWindow<T>(s: seq<T>, t: seq<T>, cap: nat)
    ensures Window(Window(s, cap) + t, cap) == Window(s + t, cap)
  {
    if |s| > cap {
      var k := |s| - cap;
      var w := s[k..];
      assert s == s[..k] + w;
      assert s + t == s[..k] + (w + t);
      SuffixOfAppend(s[..k], w + t, cap);
      assert Window(s + t, cap) == (s + t)[|s + t| - cap..];
      if |w + t| > cap {
        assert Window(w + t, cap) == (w + t)[|w + t| - cap..];
      } else {
        assert w + t == (w + t)[|w + t| - cap..];
      }
    }
  }

  /** A buffer that never exceeded its cap holds exactly the last `cap`
      elements ever pushed, oldest first. */
  lemma {:induction false} PushAllIsWindow<T>(buf: seq<T>, xs: seq<T>, cap: nat)
    requires |buf| <= cap
    ensures PushAll(buf, xs, cap) == Window(buf + xs, cap)
    decreases |xs|
  {
    if xs != [] {
      var x, rest := xs[0], xs[1..];
      var b1 := Pushed(buf, x, cap);
      var bx := buf + [x];
      calc {
        PushAll(buf, xs, cap);
        PushAll(b1, rest, cap);
        { PushAllIsWindow(b1, rest, cap); }
        Window(b1 + rest, cap);
        { assert b1 == Window(bx, cap); }
        Window(Window(bx, cap) + rest, cap);
        { WindowOfWindow(bx, rest, cap); }
        Window(bx + rest, cap);
        { assert bx + rest == buf + xs; }
        Window(buf + xs, cap);
      }
    } else {
      assert buf + xs == buf;
    }
  }

  /** After a push into a buffer within its cap, the buffer is still within
      its cap, ends with the new element, and keeps the preceding elements in
      order. */
  lemma PushedBounds<T>(buf: seq<T>, x: T, cap: nat)
    requires |buf| <= cap && cap > 0
    ensures |Pushed(buf, x, cap)| <= cap
    ensures Pushed(buf, x, cap)[|Pushed(buf, x, cap)| - 1] == x
    ensures |buf| < cap ==> Pushed(buf, x, cap) == buf + [x]
    ensures |buf| == cap ==> Pushed(buf, x, cap) == buf[1..] + [x]
  {
  }
}
