/** The cartesian combiner: `cartesianValues`. Every way of picking one
    fragment per position, each pick concatenated in position order, listed
    with the last position varying fastest (an odometer). */
module Cartesian {
  import opened Strings

  /** The product of a list of counts; 1 for the empty list. */
  function Product(ns: seq<nat>): nat {
    if ns == [] then 1 else ns[0] * Product(ns[1..])
  }

  /** The length of every inner list. */
  function Lengths(ls: seq<seq<string>>): (r: seq<nat>)
    ensures |r| == |ls| && forall i :: 0 <= i < |ls| ==> r[i] == |ls[i]|
  {
    if ls == [] then [] else [|ls[0]|] + Lengths(ls[1..])
  }

  /** `x` in front of every string of `tails`. */
  function Prefixed(x: string, tails: seq<string>): seq<string> {
    seq(|tails|, k requires 0 <= k < |tails| => x + tails[k])
  }

  /** For each `x` of `heads` in turn, `x` in front of every string of `tails`. */
  function Blocks(heads: seq<string>, tails: seq<string>): (r: seq<string>)
    ensures |r| == |heads| * |tails|
  {
    if heads == [] then []
    else
      var rest := Blocks(heads[1..], tails);
      assert |heads| * |tails| == |tails| + (|heads| - 1) * |tails|;
      Prefixed(heads[0], tails) + rest
  }

  /** All combinations, in the order the generator yields them. */
  function Combinations(ls: seq<seq<string>>): (r: seq<string>)
    ensures |r| == Product(Lengths(ls))
  {
    if ls == [] then [""]
    else
      assert Lengths(ls)[1..] == Lengths(ls[1..]);
      Blocks(ls[0], Combinations(ls[1..]))
  }

  // ----- the generator, with its shared buffer -----

  lemma PrefixedAssoc(a: string, b: string, tails: seq<string>)
    ensures Prefixed(a + b, tails) == Prefixed(a, Prefixed(b, tails))
  {
    assert forall k :: 0 <= k < |tails| ==> (a + b) + tails[k] == a + (b + tails[k]);
  }

  lemma PrefixedAppend(x: string, a: seq<string>, b: seq<string>)
    ensures Prefixed(x, a + b) == Prefixed(x, a) + Prefixed(x, b)
  {
  }

  lemma {:induction false} BlocksSnoc(heads: seq<string>, tails: seq<string>)
    requires heads != []
    ensures Blocks(heads, tails) == Blocks(heads[..|heads| - 1], tails) + Prefixed(heads[|heads| - 1], tails)
  {
    if |heads| > 1 {
      BlocksSnoc(heads[1..], tails);
      assert heads[1..][..|heads[1..]| - 1] == heads[..|heads| - 1][1..];
    }
  }

  /** The recursive generator of the source at position `pos`, with the
      buffer `data` whose first `pos` slots are already chosen: it yields
      those slots' concatenation in front of every combination of the
      remaining positions. */
  method Recursive(arr: seq<seq<string>>, pos: nat, data: seq<string>) returns (out: seq<string>)
    requires pos <= |arr| == |data|
    ensures out == Prefixed(Concat(data[..pos]), Combinations(arr[pos..]))
    decreases |arr| - pos
  {
    if pos == |arr| {
      out := [Concat(data)];
      assert data[..pos] == data;
      assert arr[pos..] == [];
      assert Concat(data) + "" == Concat(data);
    } else {
      var tails := Combinations(arr[pos + 1..]);
      assert arr[pos..][1..] == arr[pos + 1..];
      out := [];
      var i := 0;
      while i < |arr[pos]|
        invariant 0 <= i <= |arr[pos]|
        invariant out == Prefixed(Concat(data[..pos]), Blocks(arr[pos][..i], tails))
      {
        var buffer := data[pos := arr[pos][i]];
        var more := Recursive(arr, pos + 1, buffer);
        assert buffer[..pos + 1] == data[..pos] + [arr[pos][i]];
        ConcatAppend(data[..pos], [arr[pos][i]]);
        PrefixedAssoc(Concat(data[..pos]), arr[pos][i], tails);
        BlocksSnoc(arr[pos][..i + 1], tails);
        assert arr[pos][..i + 1][..i] == arr[pos][..i];
        PrefixedAppend(Concat(data[..pos]), Blocks(arr[pos][..i], tails), Prefixed(arr[pos][i], tails));
        out := out + more;
        i := i + 1;
      }
      assert arr[pos][..i] == arr[pos];
      assert arr[pos..][0] == arr[pos];
      assert Combinations(arr[pos..]) == Blocks(arr[pos], tails);
    }
  }

  /** `[...cartesianValues(arr)]`: the generator run to completion. */
  method CartesianValues(arr: seq<seq<string>>) returns (out: seq<string>)
    ensures out == Combinations(arr)
    ensures |out| == Product(Lengths(arr))
  {
    var data := seq(|arr|, _ => "");
    out := Recursive(arr, 0, data);
    assert data[..0] == [];
    assert arr[0..] == arr;
    assert Concat(data[..0]) == "";
    assert forall k :: 0 <= k < |out| ==> out[k] == "" + Combinations(arr)[k];
    assert forall k :: 0 <= k < |out| ==> out[k] == Combinations(arr)[k];
  }

  // ----- counting -----

  /** No positions: exactly one, empty, combination. */
  lemma NoPositions()
    ensures Combinations([]) == [""]
  {
  }

  /** A position with no fragments leaves nothing to yield. */
  lemma {:induction false} EmptyPositionEmpties(ls: seq<seq<string>>, i: nat)
    requires i < |ls| && ls[i] == []
    ensures Combinations(ls) == []
  {
    if i > 0 {
      EmptyPositionEmpties(ls[1..], i - 1);
    }
  }

  // ----- the odometer -----

  /** A choice of one index per position. */
  predicate ValidIndex(ls: seq<seq<string>>, idx: seq<nat>) {
    |idx| == |ls| && forall j :: 0 <= j < |ls| ==> idx[j] < |ls[j]|
  }

  /** The chosen fragments concatenated in position order. */
  function Pick(ls: seq<seq<string>>, idx: seq<nat>): string
    requires ValidIndex(ls, idx)
  {
    if ls == [] then "" else ls[0][idx[0]] + Pick(ls[1..], idx[1..])
  }

  /** The mixed-radix number of a choice, last position least significant. */
  function Rank(ls: seq<seq<string>>, idx: seq<nat>): nat
    requires ValidIndex(ls, idx)
  {
    if ls == [] then 0 else idx[0] * Product(Lengths(ls[1..])) + Rank(ls[1..], idx[1..])
  }

  /** Lexicographic order on choices. */
  predicate LexLess(a: seq<nat>, b: seq<nat>)
    requires |a| == |b|
  {
    |a| > 0 && (a[0] < b[0] || (a[0] == b[0] && LexLess(a[1..], b[1..])))
  }

  lemma {:induction false} RankBound(ls: seq<seq<string>>, idx: seq<nat>)
    requires ValidIndex(ls, idx)
    ensures Rank(ls, idx) < Product(Lengths(ls))
  {
    if ls != [] {
      var p := Product(Lengths(ls[1..]));
      RankBound(ls[1..], idx[1..]);
      assert Lengths(ls)[1..] == Lengths(ls[1..]);
      assert idx[0] + 1 <= |ls[0]|;
      assert (idx[0] + 1) * p <= |ls[0]| * p;
    }
  }

  lemma {:induction false} BlocksAt(heads: seq<string>, tails: seq<string>, i: nat, r: nat)
    requires i < |heads| && r < |tails|
    ensures i * |tails| + r < |Blocks(heads, tails)|
    ensures Blocks(heads, tails)[i * |tails| + r] == heads[i] + tails[r]
  {
    if i > 0 {
      BlocksAt(heads[1..], tails, i - 1, r);
      assert i * |tails| + r == |tails| + ((i - 1) * |tails| + r);
    }
  }

  /** The combination at a choice's rank is that choice's pick: each output
      concatenates one fragment per position, in position order. */
  lemma {:induction false} CombinationAt(ls: seq<seq<string>>, idx: seq<nat>)
    requires ValidIndex(ls, idx)
    ensures Rank(ls, idx) < |Combinations(ls)|
    ensures Combinations(ls)[Rank(ls, idx)] == Pick(ls, idx)
  {
    RankBound(ls, idx);
    if ls != [] {
      CombinationAt(ls[1..], idx[1..]);
      BlocksAt(ls[0], Combinations(ls[1..]), idx[0], Rank(ls[1..], idx[1..]));
    }
  }

  lemma MulMono(a: nat, b: nat, p: nat)
    requires a <= b
    ensures a * p <= b * p
  {
  }

  lemma DivSplit(k: nat, p: nat, n: nat)
    requires p > 0 && k < n * p
    ensures 0 <= k / p < n && 0 <= k % p < p && k == (k / p) * p + k % p
  {
    if k / p >= n {
      MulMono(n, k / p, p);
    }
  }

  /** Every output position is reached by some choice. */
  lemma {:induction false} Unrank(ls: seq<seq<string>>, k: nat) returns (idx: seq<nat>)
    requires k < |Combinations(ls)|
    ensures ValidIndex(ls, idx) && Rank(ls, idx) == k
  {
    if ls == [] {
      idx := [];
    } else {
      var p := Product(Lengths(ls[1..]));
      assert Lengths(ls)[1..] == Lengths(ls[1..]);
      assert |Combinations(ls)| == |ls[0]| * p;
      DivSplit(k, p, |ls[0]|);
      var i: nat, r: nat := k / p, k % p;
      var rest := Unrank(ls[1..], r);
      idx := [i] + rest;
      ConsIndex(ls, i, rest);
    }
  }

  lemma ConsIndex(ls: seq<seq<string>>, i: nat, rest: seq<nat>)
    requires ls != [] && i < |ls[0]| && ValidIndex(ls[1..], rest)
    ensures ValidIndex(ls, [i] + rest)
    ensures Rank(ls, [i] + rest) == i * Product(Lengths(ls[1..])) + Rank(ls[1..], rest)
  {
    var idx := [i] + rest;
    assert idx[1..] == rest;
    forall j | 1 <= j < |ls| ensures idx[j] < |ls[j]| {
      assert idx[j] == rest[j - 1] && ls[j] == ls[1..][j - 1];
    }
  }

  /** Outputs come in lexicographic order of their choices, so the last
      position varies fastest. */
  lemma {:induction false} RankOrdered(ls: seq<seq<string>>, a: seq<nat>, b: seq<nat>)
    requires ValidIndex(ls, a) && ValidIndex(ls, b)
    requires LexLess(a, b)
    ensures Rank(ls, a) < Rank(ls, b)
  {
    var p := Product(Lengths(ls[1..]));
    if a[0] < b[0] {
      RankBound(ls[1..], a[1..]);
      assert (a[0] + 1) * p <= b[0] * p;
    } else {
      RankOrdered(ls[1..], a[1..], b[1..]);
    }
  }
}
