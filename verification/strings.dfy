/** String helpers shared by the parser, the slugifier and the assembler. */
module Strings {

  /** True when no character of `s` is `c`. */
  predicate NotIn(c: char, s: string) {
    forall k :: 0 <= k < |s| ==> s[k] != c
  }

  /** Splits `s` into its longest prefix of characters satisfying `ok` and
      the remainder: what a greedy `[class]*` consumes from the front. */
  function Span(s: string, ok: char -> bool): (r: (string, string))
    ensures r.0 + r.1 == s
    ensures forall k :: 0 <= k < |r.0| ==> ok(r.0[k])
    ensures r.1 == [] || !ok(r.1[0])
    ensures s != [] && ok(s[0]) ==> |r.1| < |s|
  {
    if s == [] || !ok(s[0]) then ([], s)
    else
      var t := Span(s[1..], ok);
      Cons(s, t.0, t.1);
      ConsOk(s[0], t.0, ok);
      ([s[0]] + t.0, t.1)
  }

  /** Putting back the first character of `s` in front of a split of its tail. */
  lemma Cons(s: string, a: string, b: string)
    requires s != [] && a + b == s[1..]
    ensures [s[0]] + a + b == s
  {
    assert [s[0]] + a + b == [s[0]] + (a + b);
  }

  lemma ConsOk(c: char, a: string, ok: char -> bool)
    requires ok(c) && forall k :: 0 <= k < |a| ==> ok(a[k])
    ensures forall k :: 0 <= k < |[c] + a| ==> ok(([c] + a)[k])
  {
    forall k | 0 <= k < |[c] + a| ensures ok(([c] + a)[k]) {
      if k > 0 {
        assert ([c] + a)[k] == a[k - 1];
      }
    }
  }

  /** The greedy split of `a + b` is `(a, b)` whenever `a` is all `ok` and
      `b` does not start with an `ok` character. */
  lemma {:induction false} SpanOf(a: string, b: string, ok: char -> bool)
    requires forall k :: 0 <= k < |a| ==> ok(a[k])
    requires b == [] || !ok(b[0])
    ensures Span(a + b, ok) == (a, b)
  {
    if a != [] {
      assert (a + b)[1..] == a[1..] + b;
      SpanOf(a[1..], b, ok);
      assert ok((a + b)[0]);
      assert [a[0]] + a[1..] == a;
    } else {
      assert a + b == b;
    }
  }

  /** Appending text that starts with a non-`ok` character leaves the
      greedy prefix unchanged. */
  lemma {:induction false} SpanAppend(a: string, b: string, ok: char -> bool)
    requires b == [] || !ok(b[0])
    ensures Span(a + b, ok) == (Span(a, ok).0, Span(a, ok).1 + b)
  {
    var t := Span(a, ok);
    assert a + b == t.0 + (t.1 + b);
    assert t.1 != [] ==> (t.1 + b)[0] == t.1[0];
    SpanOf(t.0, t.1 + b, ok);
  }

  /** `data.join('')`: the concatenation of all strings of `parts`, in order. */
  function Concat(parts: seq<string>): (r: string)
    ensures |parts| == 1 ==> r == parts[0]
  {
    if parts == [] then [] else Concat(parts[..|parts| - 1]) + parts[|parts| - 1]
  }

  lemma ConcatAppend(a: seq<string>, b: seq<string>)
    ensures Concat(a + b) == Concat(a) + Concat(b)
    decreases |b|
  {
    if b == [] {
      assert a + b == a;
    } else {
      assert (a + b)[..|a + b| - 1] == a + b[..|b| - 1];
      ConcatAppend(a, b[..|b| - 1]);
    }
  }

  /** Index of the first occurrence of `c` in `s`, or -1 (JavaScript's `indexOf`). */
  function IndexOf(s: string, c: char): (i: int)
    ensures -1 <= i < |s|
    ensures i == -1 <==> NotIn(c, s)
    ensures i >= 0 ==> s[i] == c && NotIn(c, s[..i])
  {
    if s == [] then -1
    else if s[0] == c then 0
    else
      var j := IndexOf(s[1..], c);
      assert j >= 0 ==> s[1..][..j] == s[1..j + 1];
      if j == -1 then -1 else j + 1
  }

  /** `s.replace(from, to)` with a one-character string pattern: only the
      first occurrence is replaced. */
  function ReplaceFirst(s: string, from: char, to: char): (r: string)
    ensures |r| == |s|
    ensures NotIn(from, s) ==> r == s
    ensures !NotIn(from, s) ==>
              var i := IndexOf(s, from); r == s[..i] + [to] + s[i + 1..]
  {
    var i := IndexOf(s, from);
    if i == -1 then s else s[..i] + [to] + s[i + 1..]
  }

  /** Splits `s` before its first `stop` (or at its end): what a greedy
      `[^stop]*` consumes from the front. */
  function Until(s: string, stop: char): (r: (string, string))
    ensures r.0 + r.1 == s
    ensures NotIn(stop, r.0)
    ensures r.1 == [] || r.1[0] == stop
  {
    if s == [] || s[0] == stop then ([], s)
    else
      var t := Until(s[1..], stop);
      Cons(s, t.0, t.1);
      NotInCons(stop, s[0], t.0);
      ([s[0]] + t.0, t.1)
  }

  lemma NotInCons(c: char, x: char, a: string)
    requires x != c && NotIn(c, a)
    ensures NotIn(c, [x] + a)
  {
    forall k | 0 <= k < |[x] + a| ensures ([x] + a)[k] != c {
      if k > 0 {
        assert ([x] + a)[k] == a[k - 1];
      }
    }
  }

  lemma {:induction false} UntilOf(a: string, b: string, stop: char)
    requires NotIn(stop, a)
    requires b == [] || b[0] == stop
    ensures Until(a + b, stop) == (a, b)
  {
    if a != [] {
      assert (a + b)[1..] == a[1..] + b;
      UntilOf(a[1..], b, stop);
      assert [a[0]] + a[1..] == a;
    } else {
      assert a + b == b;
    }
  }

  lemma UntilAppend(a: string, b: string, stop: char)
    requires b == [] || b[0] == stop
    ensures Until(a + b, stop) == (Until(a, stop).0, Until(a, stop).1 + b)
  {
    var t := Until(a, stop);
    assert a + b == t.0 + (t.1 + b);
    UntilOf(t.0, t.1 + b, stop);
  }

  /** Splits `s` at every `stop`: `s.split(stop)` in JavaScript. */
  function Split(s: string, stop: char): (r: seq<string>)
    ensures |r| >= 1
    ensures forall i :: 0 <= i < |r| ==> NotIn(stop, r[i])
    decreases |s|
  {
    var t := Until(s, stop);
    if t.1 == [] then [t.0] else [t.0] + Split(t.1[1..], stop)
  }

  /** A leading separator splits off an empty first piece. */
  lemma SplitAtStop(s: string, stop: char)
    requires s != [] && s[0] == stop
    ensures Split(s, stop) == [[]] + Split(s[1..], stop)
  {
    assert Until(s, stop) == ([], s);
  }

  /** The pieces of a split joined with the separator. */
  function JoinWith(parts: seq<string>, sep: char): string
    requires |parts| >= 1
  {
    if |parts| == 1 then parts[0] else parts[0] + [sep] + JoinWith(parts[1..], sep)
  }

  /** Joining the pieces of a split with the separator restores the string. */
  lemma {:induction false} SplitJoin(s: string, sep: char)
    ensures JoinWith(Split(s, sep), sep) == s
    decreases |s|
  {
    var t := Until(s, sep);
    if t.1 != [] {
      SplitJoin(t.1[1..], sep);
      assert t.1 == [sep] + t.1[1..];
    }
  }

  /** Splitting a join of separator-free pieces gives the pieces back. */
  lemma {:induction false} JoinSplit(parts: seq<string>, sep: char)
    requires |parts| >= 1
    requires forall i :: 0 <= i < |parts| ==> NotIn(sep, parts[i])
    ensures Split(JoinWith(parts, sep), sep) == parts
    decreases |parts|
  {
    if |parts| == 1 {
      UntilOf(parts[0], [], sep);
      assert parts[0] + [] == parts[0];
    } else {
      var rest := JoinWith(parts[1..], sep);
      assert JoinWith(parts, sep) == parts[0] + ([sep] + rest);
      UntilOf(parts[0], [sep] + rest, sep);
      assert ([sep] + rest)[1..] == rest;
      JoinSplit(parts[1..], sep);
      assert [parts[0]] + parts[1..] == parts;
    }
  }

  lemma NotInAppend(c: char, a: string, b: string)
    ensures NotIn(c, a + b) <==> NotIn(c, a) && NotIn(c, b)
  {
    if NotIn(c, a) && NotIn(c, b) {
      forall k | 0 <= k < |a + b| ensures (a + b)[k] != c {
        if k >= |a| {
          assert (a + b)[k] == b[k - |a|];
        }
      }
    }
    if NotIn(c, a + b) {
      forall k | 0 <= k < |a| ensures a[k] != c {
        assert (a + b)[k] == a[k];
      }
      forall k | 0 <= k < |b| ensures b[k] != c {
        assert (a + b)[|a| + k] == b[k];
      }
    }
  }
}
