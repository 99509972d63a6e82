/** Maps that replace each element of a sequence by a sequence, and when they can be undone. */
module Sequences {

  function FlatMap<T, U>(f: T -> seq<U>, s: seq<T>): seq<U> {
    if s == [] then [] else FlatMap(f, s[..|s| - 1]) + f(s[|s| - 1])
  }

  function Map<T, U>(f: T -> U, s: seq<T>): (r: seq<U>)
    ensures |r| == |s| && forall i | 0 <= i < |s| :: r[i] == f(s[i])
  {
    seq(|s|, i requires 0 <= i < |s| => f(s[i]))
  }

  lemma FlatMapLast<T, U>(f: T -> seq<U>, s: seq<T>, x: T)
    ensures FlatMap(f, s + [x]) == FlatMap(f, s) + f(x)
  {
    assert (s + [x])[..|s|] == s;
  }

  lemma {:induction false} FlatMapAppend<T, U>(f: T -> seq<U>, a: seq<T>, b: seq<T>)
    ensures FlatMap(f, a + b) == FlatMap(f, a) + FlatMap(f, b)
    decreases |b|
  {
    if b == [] {
      assert a + b == a;
    } else {
      var init, last := b[..|b| - 1], b[|b| - 1];
      FlatMapAppend(f, a, init);
      FlatMapLast(f, a + init, last);
      assert a + b == a + init + [last];
    }
  }

  lemma FlatMapFirst<T, U>(f: T -> seq<U>, x: T, s: seq<T>)
    ensures FlatMap(f, [x] + s) == f(x) + FlatMap(f, s)
  {
    FlatMapAppend(f, [x], s);
    FlatMapLast(f, [], x);
    assert [] + [x] == [x];
  }

  lemma MapFirst<T, U>(f: T -> U, x: T, s: seq<T>)
    ensures Map(f, [x] + s) == [f(x)] + Map(f, s)
  {
  }

  /** A reader that recovers g(x) from f(x), and the place where f(x) ends, recovers a whole sequence. */
  lemma {:induction false} ReadBack<T(!new), U(!new), V>(f: T -> seq<U>, g: T -> V, read: seq<U> -> seq<V>, s: seq<T>)
    requires read([]) == []
    requires forall x, rest {:trigger read(f(x) + rest)} :: read(f(x) + rest) == [g(x)] + read(rest)
    ensures read(FlatMap(f, s)) == Map(g, s)
    decreases |s|
  {
    if s != [] {
      var head, rest := s[0], s[1..];
      assert s == [head] + rest;
      ReadBack(f, g, read, rest);
      FlatMapFirst(f, head, rest);
      assert read(f(head) + FlatMap(f, rest)) == [g(head)] + read(FlatMap(f, rest));
      MapFirst(g, head, rest);
    }
  }

  /** A change of elements that f does not see changes nothing. */
  lemma {:induction false} FlatMapThrough<T(!new), U>(f: T -> seq<U>, g: T -> T, s: seq<T>)
    requires forall x :: f(g(x)) == f(x)
    ensures FlatMap(f, Map(g, s)) == FlatMap(f, s)
  {
    if s != [] {
      var init, last := s[..|s| - 1], s[|s| - 1];
      FlatMapThrough(f, g, init);
      FlatMapLast(f, Map(g, init), g(last));
      assert Map(g, s) == Map(g, init) + [g(last)];
    }
  }

  /** A text is cut in one way only at the first occurrence of a mark. */
  lemma CutAtMark<T>(mark: T, a: seq<T>, x: seq<T>, b: seq<T>, y: seq<T>)
    requires mark !in a && mark !in b
    requires a + [mark] + x == b + [mark] + y
    ensures a == b && x == y
  {
    var s := a + [mark] + x;
    assert s[|a|] == mark && s[|b|] == mark;
    assert |a| == |b|;
    assert a == s[..|a|] && b == s[..|b|];
    assert x == s[|a| + 1..] && y == s[|b| + 1..];
  }

  lemma CancelPrefix<T>(a: seq<T>, x: seq<T>, y: seq<T>)
    requires a + x == a + y
    ensures x == y
  {
    assert x == (a + x)[|a|..] && y == (a + y)[|a|..];
  }

  /** A function that one step extends, at a sequence of three. */
  lemma ThreeSteps<T(!new), S>(f: seq<T> -> S, step: (S, T) -> S, s: seq<T>, x: S, y: S, z: S)
    requires |s| == 3
    requires forall r, e {:trigger f(r + [e])} :: f(r + [e]) == step(f(r), e)
    requires step(f([]), s[0]) == x && step(x, s[1]) == y && step(y, s[2]) == z
    ensures f(s) == z
  {
    assert [] + [s[0]] == [s[0]];
    assert f([] + [s[0]]) == x;
    assert [s[0]] + [s[1]] == [s[0], s[1]];
    assert f([s[0]] + [s[1]]) == y;
    assert [s[0], s[1]] + [s[2]] == s;
    assert f([s[0], s[1]] + [s[2]]) == z;
  }
}
