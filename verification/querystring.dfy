/** The `queryKey` object that `parseUrl` builds from the query string with
    `query.replace(/(?:^|&)([^&=]*)=?([^&]*)/g, cb)`, where the callback
    assigns `queryKey[$1] = $2` for every match with a non-empty `$1`.

    The global replace visits the matches left to right. A match that
    starts at position 0 uses the `^` branch; every later one starts at a
    `&`. When the query is empty or begins with `&`, the match at position 0
    is empty, the search resumes one character further on, and so the piece
    right after that leading `&` is never matched. */
module QueryString {
  import opened Wrappers
  import opened Strings

  /** One `key`/`value` capture of the query pattern. */
  datatype Pair = Pair(key: string, value: string)

  /** `[^&=]` */
  predicate IsKeyChar(c: char) {
    c != '&' && c != '='
  }

  /** The captures of `([^&=]*)=?([^&]*)` at the front of `t`, and the text
      after the match. */
  function MatchAt(t: string): (m: (Pair, string))
    ensures |m.1| <= |t|
    ensures m.1 == [] || m.1[0] == '&'
  {
    var k := Span(t, IsKeyChar);
    if k.1 != [] && k.1[0] == '=' then
      var v := Until(k.1[1..], '&');
      (Pair(k.0, v.0), v.1)
    else (Pair(k.0, []), k.1)
  }

  /** Matches found when the search starts past position 0: only the `&`
      branch can match, at the first `&` from the start of `t` on. */
  function MatchesFrom(t: string): seq<Pair>
    decreases |t|
  {
    var skipped := Until(t, '&').1;
    if skipped == [] then []
    else
      var m := MatchAt(skipped[1..]);
      [m.0] + MatchesFrom(m.1)
  }

  /** Every match of the global query pattern, in order. */
  function QueryMatches(q: string): seq<Pair> {
    if q == [] then [Pair([], [])]
    else if q[0] == '&' then [Pair([], [])] + MatchesFrom(q[1..])
    else
      var m := MatchAt(q);
      [m.0] + MatchesFrom(m.1)
  }

  // ----- the same matches, read off the `&`-separated pieces -----

  /** The captures for one `&`-free piece: the text before its first `=`,
      and everything after that `=` (or "" when there is none). */
  function PairOf(piece: string): Pair {
    MatchAt(piece).0
  }

  function PairsOf(pieces: seq<string>): (r: seq<Pair>)
    ensures |r| == |pieces|
  {
    if pieces == [] then [] else [PairOf(pieces[0])] + PairsOf(pieces[1..])
  }

  lemma {:induction false} PairsOfAt(pieces: seq<string>, i: nat)
    requires i < |pieces|
    ensures PairsOf(pieces)[i] == PairOf(pieces[i])
  {
    if i > 0 {
      PairsOfAt(pieces[1..], i - 1);
    }
  }

  /** The pieces the global replace visits: all of them, except that after
      a leading empty piece the next one is skipped. */
  function Visited(pieces: seq<string>): seq<string> {
    if |pieces| >= 2 && pieces[0] == [] then [pieces[0]] + pieces[2..] else pieces
  }

  lemma MatchAtWithValue(k: string, v: string, after: string)
    requires forall i :: 0 <= i < |k| ==> IsKeyChar(k[i])
    requires NotIn('&', v)
    requires after == [] || after[0] == '&'
    ensures MatchAt(k + "=" + v + after) == (Pair(k, v), after)
  {
    var t := k + "=" + v + after;
    assert t == k + ("=" + v + after);
    SpanOf(k, "=" + v + after, IsKeyChar);
    assert ("=" + v + after)[1..] == v + after;
    UntilOf(v, after, '&');
  }

  lemma MatchAtNoValue(k: string, after: string)
    requires forall i :: 0 <= i < |k| ==> IsKeyChar(k[i])
    requires after == [] || after[0] == '&'
    ensures MatchAt(k + after) == (Pair(k, []), after)
  {
    SpanOf(k, after, IsKeyChar);
  }

  /** A piece is read the same whether or not the rest of the query follows it. */
  lemma MatchAtPiece(t: string)
    ensures MatchAt(t).0 == PairOf(Until(t, '&').0)
    ensures MatchAt(t).1 == Until(t, '&').1
  {
    var u := Until(t, '&');
    var piece, after := u.0, u.1;
    var k := Span(piece, IsKeyChar);
    if k.1 != [] {
      assert piece[|k.0|] == k.1[0];
      var v := k.1[1..];
      assert NotIn('&', v) by {
        forall j | 0 <= j < |v| ensures v[j] != '&' {
          assert v[j] == piece[|k.0| + 1 + j];
        }
      }
      assert piece == k.0 + "=" + v;
      MatchAtWithValue(k.0, v, after);
      MatchAtWithValue(k.0, v, []);
      assert k.0 + "=" + v + [] == piece;
    } else {
      assert piece == k.0;
      MatchAtNoValue(k.0, after);
      MatchAtNoValue(k.0, []);
      assert k.0 + [] == piece;
    }
  }

  lemma {:induction false} MatchesFromPieces(t: string)
    ensures MatchesFrom(t) == PairsOf(Split(t, '&')[1..])
    decreases |t|
  {
    var u := Until(t, '&');
    if u.1 != [] {
      var rest := u.1[1..];
      MatchAtPiece(rest);
      MatchesFromPieces(MatchAt(rest).1);
      var v := Until(rest, '&');
      assert Split(t, '&')[1..] == Split(rest, '&');
      if v.1 == [] {
        assert Split(rest, '&') == [v.0];
        assert MatchesFrom(v.1) == [];
      } else {
        assert Split(rest, '&') == [v.0] + Split(v.1[1..], '&');
        SplitAtStop(v.1, '&');
      }
    }
  }

  /** The matches are exactly the visited `&`-separated pieces, each read as
      key before the first `=` and value after it. */
  lemma QueryMatchesArePieces(q: string)
    ensures QueryMatches(q) == PairsOf(Visited(Split(q, '&')))
  {
    if q == [] {
      assert Split(q, '&') == [[]];
    } else if q[0] == '&' {
      AmpLedPieces(q);
    } else {
      PlainLedPieces(q);
    }
  }

  lemma AmpLedPieces(q: string)
    requires q != [] && q[0] == '&'
    ensures QueryMatches(q) == PairsOf(Visited(Split(q, '&')))
  {
    var ps, xs := Split(q, '&'), Split(q[1..], '&')[1..];
    SplitAtStop(q, '&');
    MatchesFromPieces(q[1..]);
    assert ps[2..] == xs;
    assert Visited(ps) == [[]] + xs;
    PairsOfCons([], xs);
    assert PairOf([]) == Pair([], []);
  }

  lemma PairsOfCons(p: string, xs: seq<string>)
    ensures PairsOf([p] + xs) == [PairOf(p)] + PairsOf(xs)
  {
    assert ([p] + xs)[1..] == xs;
  }

  lemma PlainLedPieces(q: string)
    requires q != [] && q[0] != '&'
    ensures QueryMatches(q) == PairsOf(Visited(Split(q, '&')))
  {
    MatchAtPiece(q);
    var u := Until(q, '&');
    MatchesFromPieces(u.1);
    assert u.0 != [];
    if u.1 == [] {
      assert MatchesFrom(u.1) == [];
    } else {
      SplitAtStop(u.1, '&');
    }
  }

  // ----- the queryKey object -----

  /** The keys of an insertion-ordered object, in enumeration order. */
  function Keys(m: seq<Pair>): seq<string> {
    seq(|m|, i requires 0 <= i < |m| => m[i].key)
  }

  predicate DistinctKeys(m: seq<Pair>) {
    forall i, j :: 0 <= i < j < |m| ==> m[i].key != m[j].key
  }

  /** The position of the first entry with key `k`, or |ms|. */
  function FirstIndex(ms: seq<Pair>, k: string): (i: nat)
    ensures i <= |ms|
    ensures forall j :: 0 <= j < i ==> ms[j].key != k
    ensures i < |ms| ==> ms[i].key == k
  {
    if ms == [] then 0
    else if ms[0].key == k then 0
    else FirstIndex(ms[1..], k) + 1
  }

  /** `m[k]`, or None when `k` is not a key. */
  function Get(m: seq<Pair>, k: string): Option<string> {
    var i := FirstIndex(m, k);
    if i < |m| then Some(m[i].value) else None
  }

  /** `m[k] = v` on an object: an existing key keeps its place and takes the
      new value; a new key goes at the end. */
  function Assign(m: seq<Pair>, k: string, v: string): (r: seq<Pair>)
    ensures DistinctKeys(m) ==> DistinctKeys(r)
    ensures k in Keys(m) ==> Keys(r) == Keys(m)
    ensures k !in Keys(m) ==> Keys(r) == Keys(m) + [k]
    ensures Get(r, k) == Some(v)
    ensures forall k' :: k' != k ==> Get(r, k') == Get(m, k')
  {
    var i := FirstIndex(m, k);
    if i < |m| then
      var r := m[i := Pair(k, v)];
      assert Keys(r) == Keys(m);
      assert Keys(m)[i] == k;
      FirstIndexSameKeys(m, r, k);
      assert forall k' :: k' != k ==> FirstIndex(r, k') == FirstIndex(m, k') by {
        forall k' | k' != k ensures FirstIndex(r, k') == FirstIndex(m, k') {
          FirstIndexSameKeys(m, r, k');
        }
      }
      r
    else
      var r := m + [Pair(k, v)];
      assert Keys(r) == Keys(m) + [k];
      assert k !in Keys(m);
      FirstIndexAppend(m, Pair(k, v), k);
      assert forall k' :: k' != k ==> Get(r, k') == Get(m, k') by {
        forall k' | k' != k ensures Get(r, k') == Get(m, k') {
          FirstIndexAppend(m, Pair(k, v), k');
          if FirstIndex(m, k') < |m| {
            assert r[FirstIndex(m, k')] == m[FirstIndex(m, k')];
          }
        }
      }
      r
  }

  lemma {:induction false} FirstIndexSameKeys(m: seq<Pair>, r: seq<Pair>, k: string)
    requires Keys(m) == Keys(r)
    ensures FirstIndex(m, k) == FirstIndex(r, k)
  {
    assert |m| == |Keys(m)| == |Keys(r)| == |r|;
    if m != [] {
      assert m[0].key == Keys(m)[0] == Keys(r)[0] == r[0].key;
      assert Keys(m[1..]) == Keys(m)[1..] == Keys(r)[1..] == Keys(r[1..]);
      FirstIndexSameKeys(m[1..], r[1..], k);
    }
  }

  lemma {:induction false} FirstIndexAppend(ms: seq<Pair>, p: Pair, k: string)
    ensures FirstIndex(ms + [p], k) ==
              if FirstIndex(ms, k) < |ms| then FirstIndex(ms, k) else if p.key == k then |ms| else |ms| + 1
  {
    if ms != [] && ms[0].key != k {
      assert (ms + [p])[1..] == ms[1..] + [p];
      FirstIndexAppend(ms[1..], p, k);
    }
  }

  /** The callback: `if ($1) uri.queryKey[$1] = $2`. */
  function Record(m: seq<Pair>, p: Pair): seq<Pair> {
    if p.key != [] then Assign(m, p.key, p.value) else m
  }

  /** The object after the callback has run on every match, left to right. */
  function Collect(ms: seq<Pair>): seq<Pair> {
    if ms == [] then [] else Record(Collect(ms[..|ms| - 1]), ms[|ms| - 1])
  }

  /** `uri.queryKey` for the query string `q`. */
  function QueryKey(q: string): seq<Pair> {
    Collect(QueryMatches(q))
  }

  /** The value of the last match with key `k`. */
  function LastValue(ms: seq<Pair>, k: string): Option<string> {
    if ms == [] then None
    else if ms[|ms| - 1].key == k then Some(ms[|ms| - 1].value)
    else LastValue(ms[..|ms| - 1], k)
  }

  /** The keys of the object are distinct. */
  lemma {:induction false} CollectDistinct(ms: seq<Pair>)
    ensures DistinctKeys(Collect(ms))
  {
    if ms != [] {
      CollectDistinct(ms[..|ms| - 1]);
    }
  }

  /** Each key holds the value of its last match; the empty key is never set. */
  lemma {:induction false} CollectValues(ms: seq<Pair>)
    ensures forall k :: k != [] ==> Get(Collect(ms), k) == LastValue(ms, k)
    ensures Get(Collect(ms), []) == None
  {
    if ms != [] {
      CollectValues(ms[..|ms| - 1]);
    }
  }

  /** The keys are exactly the non-empty keys of the matches. */
  lemma {:induction false} CollectKeys(ms: seq<Pair>)
    ensures forall k :: k in Keys(Collect(ms)) <==>
              k != [] && exists i :: 0 <= i < |ms| && ms[i].key == k
  {
    if ms != [] {
      var init, p := ms[..|ms| - 1], ms[|ms| - 1];
      CollectKeys(init);
      var m := Collect(init);
      forall k ensures k in Keys(Collect(ms)) <==> k != [] && exists i :: 0 <= i < |ms| && ms[i].key == k
      {
        if k != [] && exists i :: 0 <= i < |ms| && ms[i].key == k {
          var i :| 0 <= i < |ms| && ms[i].key == k;
          if i < |init| {
            assert init[i].key == k;
          }
        }
        if k in Keys(m) {
          var i :| 0 <= i < |init| && init[i].key == k;
          assert ms[i].key == k;
        }
      }
    }
  }

  /** The entries of `m` come in order of their keys' first match in `ms`. */
  predicate InMatchOrder(m: seq<Pair>, ms: seq<Pair>) {
    forall i, j :: 0 <= i < j < |m| ==> FirstIndex(ms, m[i].key) < FirstIndex(ms, m[j].key)
  }

  lemma SameKeysOrder(m: seq<Pair>, r: seq<Pair>, ms: seq<Pair>)
    requires Keys(r) == Keys(m) && InMatchOrder(m, ms)
    ensures InMatchOrder(r, ms)
  {
    forall i, j | 0 <= i < j < |r| ensures FirstIndex(ms, r[i].key) < FirstIndex(ms, r[j].key) {
      assert r[i].key == Keys(r)[i] == Keys(m)[i] == m[i].key;
      assert r[j].key == Keys(r)[j] == Keys(m)[j] == m[j].key;
    }
  }

  lemma AppendedKeyOrder(m: seq<Pair>, r: seq<Pair>, ms: seq<Pair>, k: string)
    requires Keys(r) == Keys(m) + [k] && InMatchOrder(m, ms)
    requires forall i :: 0 <= i < |m| ==> FirstIndex(ms, m[i].key) < FirstIndex(ms, k)
    ensures InMatchOrder(r, ms)
  {
    forall i, j | 0 <= i < j < |r| ensures FirstIndex(ms, r[i].key) < FirstIndex(ms, r[j].key) {
      assert r[i].key == Keys(r)[i] == Keys(m)[i] == m[i].key;
      if j < |m| {
        assert r[j].key == Keys(r)[j] == Keys(m)[j] == m[j].key;
      } else {
        assert r[j].key == Keys(r)[j] == k;
      }
    }
  }

  lemma OrderExtends(m: seq<Pair>, init: seq<Pair>, p: Pair)
    requires InMatchOrder(m, init)
    requires forall i :: 0 <= i < |m| ==> FirstIndex(init, m[i].key) < |init|
    ensures forall i :: 0 <= i < |m| ==> FirstIndex(init + [p], m[i].key) == FirstIndex(init, m[i].key)
    ensures InMatchOrder(m, init + [p])
  {
    forall i | 0 <= i < |m| ensures FirstIndex(init + [p], m[i].key) == FirstIndex(init, m[i].key) {
      FirstIndexAppend(init, p, m[i].key);
    }
  }

  lemma NewKeyFirstSeenLast(m: seq<Pair>, init: seq<Pair>, p: Pair)
    requires forall i :: 0 <= i < |init| && init[i].key != [] ==> init[i].key in Keys(m)
    requires p.key != [] && p.key !in Keys(m)
    ensures FirstIndex(init + [p], p.key) == |init|
  {
    FirstIndexAppend(init, p, p.key);
  }

  lemma RecordKeepsOrder(m: seq<Pair>, init: seq<Pair>, p: Pair)
    requires InMatchOrder(m, init)
    requires forall i :: 0 <= i < |m| ==> FirstIndex(init, m[i].key) < |init|
    requires forall i :: 0 <= i < |init| && init[i].key != [] ==> init[i].key in Keys(m)
    ensures InMatchOrder(Record(m, p), init + [p])
  {
    var ms := init + [p];
    OrderExtends(m, init, p);
    if p.key != [] && p.key !in Keys(m) {
      NewKeyFirstSeenLast(m, init, p);
      var r := Assign(m, p.key, p.value);
      AppendedKeyOrder(m, r, ms, p.key);
    } else if p.key != [] {
      SameKeysOrder(m, Assign(m, p.key, p.value), ms);
    }
  }

  /** The keys come in order of their first match. */
  lemma {:induction false} CollectOrder(ms: seq<Pair>)
    ensures InMatchOrder(Collect(ms), ms)
  {
    if ms != [] {
      var init, p := ms[..|ms| - 1], ms[|ms| - 1];
      assert ms == init + [p];
      CollectOrder(init);
      CollectKeys(init);
      var m := Collect(init);
      forall i | 0 <= i < |m| ensures FirstIndex(init, m[i].key) < |init| {
        assert m[i].key == Keys(m)[i] && m[i].key in Keys(m);
        var x :| 0 <= x < |init| && init[x].key == m[i].key;
      }
      forall i | 0 <= i < |init| && init[i].key != [] ensures init[i].key in Keys(m) {
      }
      RecordKeepsOrder(m, init, p);
    }
  }

  // ----- small queries -----

  /** A query of one pair with a non-empty key gives that one entry. */
  lemma OnePair(k: string, v: string)
    requires k != [] && forall i :: 0 <= i < |k| ==> IsKeyChar(k[i])
    requires NotIn('&', v)
    ensures QueryKey(k + "=" + v) == [Pair(k, v)]
  {
    MatchAtWithValue(k, v, []);
    assert k + "=" + v + [] == k + "=" + v;
    assert Until([], '&') == ([], []);
    assert QueryMatches(k + "=" + v) == [Pair(k, v)];
    assert Collect([Pair(k, v)][..0]) == [];
  }

  /** With a leading `&`, the first pair is never read: only the second
      one reaches the object. */
  lemma LeadingAmpSkipsFirst(k1: string, v1: string, k2: string, v2: string)
    requires forall i :: 0 <= i < |k1| ==> IsKeyChar(k1[i])
    requires k2 != [] && forall i :: 0 <= i < |k2| ==> IsKeyChar(k2[i])
    requires NotIn('&', v1) && NotIn('&', v2)
    ensures QueryKey("&" + k1 + "=" + v1 + "&" + k2 + "=" + v2) == [Pair(k2, v2)]
  {
    var q := "&" + k1 + "=" + v1 + "&" + k2 + "=" + v2;
    var first, second := k1 + "=" + v1, "&" + (k2 + "=" + v2);
    assert q[1..] == first + second;
    assert NotIn('&', first) by {
      NotInAppend('&', k1, "=");
      NotInAppend('&', k1 + "=", v1);
    }
    UntilOf(first, second, '&');
    MatchAtWithValue(k2, v2, []);
    assert second[1..] == k2 + "=" + v2 + [];
    assert Until([], '&') == ([], []);
    assert MatchesFrom([]) == [];
    assert MatchesFrom(q[1..]) == [Pair(k2, v2)];
    var ms := QueryMatches(q);
    assert ms == [Pair([], []), Pair(k2, v2)];
    assert Collect(ms[..1]) == [];
  }
}
