/** Splitting a sequence at a separator, and joining the parts again. */
module Splitting {

  /** The parts between separators; there is always at least one. */
  function Split<T(==)>(s: seq<T>, sep: T): (parts: seq<seq<T>>)
    ensures |parts| > 0
  {
    if s == [] then [[]]
    else
      var rest := Split(s[1..], sep);
      if s[0] == sep then [[]] + rest else [[s[0]] + rest[0]] + rest[1..]
  }

  function Join<T>(parts: seq<seq<T>>, sep: T): seq<T>
    requires |parts| > 0
  {
    if |parts| == 1 then parts[0] else parts[0] + [sep] + Join(parts[1..], sep)
  }

  ghost predicate SeparatorFree<T>(parts: seq<seq<T>>, sep: T) {
    forall i :: 0 <= i < |parts| ==> sep !in parts[i]
  }

  /** Splitting yields the only separator-free parts that join to s. */
  lemma {:induction false} SplitThenJoin<T>(s: seq<T>, sep: T)
    ensures Join(Split(s, sep), sep) == s && SeparatorFree(Split(s, sep), sep)
  {
    if s != [] {
      SplitThenJoin(s[1..], sep);
      var rest := Split(s[1..], sep);
      var parts := Split(s, sep);
      if s[0] == sep {
        assert parts[1..] == rest;
      } else {
        assert parts[1..] == rest[1..];
        if |rest| > 1 {
          assert Join(parts, sep) == [s[0]] + (rest[0] + [sep] + Join(rest[1..], sep));
        }
      }
    }
  }

  lemma {:induction false} JoinThenSplit<T>(parts: seq<seq<T>>, sep: T)
    requires |parts| > 0 && SeparatorFree(parts, sep)
    ensures Split(Join(parts, sep), sep) == parts
  {
    if |parts| == 1 {
      SplitFree(parts[0], sep);
    } else {
      JoinThenSplit(parts[1..], sep);
      SplitFirst(parts[0], Join(parts[1..], sep), sep);
      assert parts[0] + [sep] + Join(parts[1..], sep) == parts[0] + ([sep] + Join(parts[1..], sep));
    }
  }

  lemma {:induction false} SplitFree<T>(s: seq<T>, sep: T)
    requires sep !in s
    ensures Split(s, sep) == [s]
  {
    if s != [] {
      SplitFree(s[1..], sep);
      assert [s[0]] + s[1..] == s;
    }
  }

  lemma {:induction false} SplitFirst<T>(head: seq<T>, tail: seq<T>, sep: T)
    requires sep !in head
    ensures Split(head + ([sep] + tail), sep) == [head] + Split(tail, sep)
  {
    var s := head + ([sep] + tail);
    if head == [] {
      assert s[1..] == tail;
    } else {
      assert s[1..] == head[1..] + ([sep] + tail);
      SplitFirst(head[1..], tail, sep);
      assert [head[0]] + head[1..] == head;
    }
  }

  /** A separator-free head and what follows its separator are read back uniquely. */
  lemma HeadIsUnique<T>(a: seq<T>, x: seq<T>, b: seq<T>, y: seq<T>, sep: T)
    requires sep !in a && sep !in b && a + ([sep] + x) == b + ([sep] + y)
    ensures a == b && x == y
  {
    SplitFirst(a, x, sep);
    SplitFirst(b, y, sep);
    assert a == Split(a + ([sep] + x), sep)[0] == b;
    assert a + [sep] + x == a + ([sep] + x) && b + [sep] + y == b + ([sep] + y);
    CancelHead(a + [sep], x, y);
  }

  lemma CancelHead<T>(head: seq<T>, x: seq<T>, y: seq<T>)
    requires head + x == head + y
    ensures x == y
  {
    assert x == (head + x)[|head|..];
    assert y == (head + y)[|head|..];
  }

  lemma CancelTail<T>(x: seq<T>, y: seq<T>, tail: seq<T>)
    requires x + tail == y + tail
    ensures x == y
  {
    assert |x| == |y|;
    assert x == (x + tail)[..|x|];
    assert y == (y + tail)[..|y|];
  }

  lemma SplitLast<T>(s: seq<T>)
    requires s != []
    ensures s[..|s| - 1] + [s[|s| - 1]] == s
  {
  }

  lemma SplitAt<T>(s: seq<T>, i: nat)
    requires i < |s|
    ensures s[..i] + [s[i]] + s[i + 1..] == s
  {
  }

  lemma ConcatIsAssociative<T>(a: seq<T>, b: seq<T>, c: seq<T>)
    ensures a + b + c == a + (b + c)
  {
  }

  /** The results of f on each of the first n elements, one after the other. */
  function FlatMapUpTo<T, U>(f: T -> seq<U>, xs: seq<T>, n: nat): seq<U>
    requires n <= |xs|
  {
    if n == 0 then [] else FlatMapUpTo(f, xs, n - 1) + f(xs[n - 1])
  }

  function FlatMap<T, U>(f: T -> seq<U>, xs: seq<T>): seq<U> {
    FlatMapUpTo(f, xs, |xs|)
  }

  lemma {:induction false} FlatMapPrefix<T, U>(f: T -> seq<U>, a: seq<T>, b: seq<T>, n: nat)
    requires n <= |a| <= |b| && a == b[..|a|]
    ensures FlatMapUpTo(f, a, n) == FlatMapUpTo(f, b, n)
  {
    if n > 0 {
      FlatMapPrefix(f, a, b, n - 1);
    }
  }

  lemma {:induction false} FlatMapSuffix<T, U>(f: T -> seq<U>, a: seq<T>, b: seq<T>, n: nat)
    requires n <= |b|
    ensures FlatMapUpTo(f, a + b, |a| + n) == FlatMap(f, a) + FlatMapUpTo(f, b, n)
  {
    if n == 0 {
      FlatMapPrefix(f, a, a + b, |a|);
    } else {
      FlatMapSuffix(f, a, b, n - 1);
    }
  }

  lemma FlatMapTogether<T, U>(f: T -> seq<U>, a: seq<T>, b: seq<T>)
    ensures FlatMap(f, a + b) == FlatMap(f, a) + FlatMap(f, b)
  {
    FlatMapSuffix(f, a, b, |b|);
  }

  lemma {:induction false} FlatMapOfSingletons<T, U>(f: T -> seq<U>, xs: seq<T>, ys: seq<U>, n: nat)
    requires n <= |xs| == |ys| && forall i :: 0 <= i < n ==> f(xs[i]) == [ys[i]]
    ensures FlatMapUpTo(f, xs, n) == ys[..n]
  {
    if n > 0 {
      FlatMapOfSingletons(f, xs, ys, n - 1);
      assert ys[..n] == ys[..n - 1] + [ys[n - 1]];
    }
  }

  lemma {:induction false} FlatMapOfNothing<T, U>(f: T -> seq<U>, xs: seq<T>, n: nat)
    requires n <= |xs| && forall i :: 0 <= i < n ==> f(xs[i]) == []
    ensures FlatMapUpTo(f, xs, n) == []
  {
    if n > 0 {
      FlatMapOfNothing(f, xs, n - 1);
    }
  }
}
