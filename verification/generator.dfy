/** `create` and `search`, with the helpers `makeUrl`, `makeSlug`, `getHash`
    and `unshiftParams`.

    `search(params)` lists one query string per combination of the
    parameters' values. `create({url, params, slug})` first parses `url`,
    puts one single-valued parameter per existing query key in front of
    `params`, and then builds one URL per combination: the scheme, host and
    port of `url`, its path and the optional slug, the query string, and
    `url`'s fragment. */
module Generator {
  import opened Wrappers
  import opened Strings
  import opened Percent
  import opened Params
  import opened Cartesian
  import opened QueryString
  import opened UrlParse
  import opened Slugify

  // ----- helpers -----

  /** `getHash(url)`: the text from the first `#` on, or "" without one. */
  function GetHash(url: string): (r: string)
    ensures |r| <= |url| && url[|url| - |r|..] == r
    ensures r == [] <==> NotIn('#', url)
    ensures r != [] ==> r[0] == '#' && NotIn('#', url[..|url| - |r|])
  {
    var i := IndexOf(url, '#');
    if i == -1 then [] else url[i..]
  }

  lemma {:induction false} IndexOfAfter(a: string, b: string, c: char)
    requires NotIn(c, a) && b != [] && b[0] == c
    ensures IndexOf(a + b, c) == |a|
  {
    if a != [] {
      assert (a + b)[1..] == a[1..] + b;
      IndexOfAfter(a[1..], b, c);
    }
  }

  /** The fragment is found after any text without a `#`. */
  lemma GetHashAfter(a: string, b: string)
    requires NotIn('#', a) && (b == [] || b[0] == '#')
    ensures GetHash(a + b) == b
  {
    if b == [] {
      assert a + b == a;
    } else {
      IndexOfAfter(a, b, '#');
      assert (a + b)[|a|..] == b;
    }
  }

  /** `makeSlug(path, str)`: the path, then `/` and the slug of `str` when
      `str` is non-empty, even if that slug is empty. */
  function MakeSlug(path: string, str: string): (r: string)
    ensures |r| >= |path| && r[..|path|] == path
    ensures str == [] <==> r == path
    ensures str != [] ==> r[|path|] == '/' && IsSlug(r[|path| + 1..])
  {
    if str != [] then
      var r := path + "/" + Slug(str);
      assert r[|path| + 1..] == Slug(str);
      r
    else path
  }

  /** Everything a created URL has before its query string:
      `protocol://host[:port]path[/slug]`. A port of "" adds nothing. */
  function Base(pu: ParsedUrl, str: string): string {
    pu.protocol + "://" + pu.host + (if pu.port != [] then ":" + pu.port else []) + MakeSlug(pu.path, str)
  }

  /** `makeUrl(search, urlDetails, str)` */
  function MakeUrl(search: string, pu: ParsedUrl, str: string): string {
    Base(pu, str) + search + GetHash(pu.source)
  }

  /** The spec `unshiftParams` adds for an existing query key: its one value,
      as a plain element, with no skip flag. */
  function KeySpec(p: Pair): ParamSpec {
    ParamSpec(p.key, Many([Raw(p.value)]), None)
  }

  /** `unshiftParams(params, queryKey)`: each key, in enumeration order, is
      put at the front, so the keys end up before `params` in reverse. */
  function UnshiftParams(params: seq<ParamSpec>, query: seq<Pair>): (r: seq<ParamSpec>)
    ensures |r| == |query| + |params|
    ensures forall i :: 0 <= i < |query| ==> r[i] == KeySpec(query[|query| - 1 - i])
    ensures r[|query|..] == params
    decreases |query|
  {
    if query == [] then params
    else
      var front := [KeySpec(query[0])] + params;
      var r := UnshiftParams(front, query[1..]);
      assert r[|query| - 1] == r[|query[1..]|..][0] == KeySpec(query[0]);
      assert r[|query|..] == r[|query[1..]|..][1..];
      r
  }

  // ----- combinations -----

  /** The number of values of each spec. */
  function ValueCounts(specs: seq<ParamSpec>): (r: seq<nat>)
    ensures |r| == |specs| && forall i :: 0 <= i < |specs| ==> r[i] == ValueCount(specs[i])
  {
    if specs == [] then [] else [ValueCount(specs[0])] + ValueCounts(specs[1..])
  }

  lemma {:induction false} LengthsOfMapValues(specs: seq<ParamSpec>)
    ensures Lengths(MapValues(specs)) == ValueCounts(specs)
  {
  }

  /** `[...cartesianValues(mapValues(specs))].map(i => i.replace('&', '?'))` */
  function Queries(specs: seq<ParamSpec>): (r: seq<string>)
    ensures |r| == Product(ValueCounts(specs))
  {
    LengthsOfMapValues(specs);
    var c := Combinations(MapValues(specs));
    seq(|c|, i requires 0 <= i < |c| => ReplaceFirst(c[i], '&', '?'))
  }

  /** `search(params)`: one query string per combination of values. */
  function Search(params: seq<ParamSpec>): (r: seq<string>)
    ensures |r| == Product(ValueCounts(params))
  {
    Queries(params)
  }

  lemma {:induction false} ProductOfOnes(n: nat, ns: seq<nat>, ms: seq<nat>)
    requires |ns| == n + |ms|
    requires forall i :: 0 <= i < n ==> ns[i] == 1
    requires ns[n..] == ms
    ensures Product(ns) == Product(ms)
  {
    if n > 0 {
      assert ns[1..][n - 1..] == ns[n..];
      ProductOfOnes(n - 1, ns[1..], ms);
    } else {
      assert ns == ns[0..];
    }
  }

  /** Existing query keys bring one value each, so they do not change the count. */
  lemma UnshiftKeepsCount(params: seq<ParamSpec>, query: seq<Pair>)
    ensures Product(ValueCounts(UnshiftParams(params, query))) == Product(ValueCounts(params))
  {
    var all := UnshiftParams(params, query);
    var ns := ValueCounts(all);
    assert ns[|query|..] == ValueCounts(params) by {
      assert all[|query|..] == params;
      forall i | 0 <= i < |params| ensures ns[|query|..][i] == ValueCounts(params)[i] {
        assert all[|query| + i] == params[i];
      }
    }
    ProductOfOnes(|query|, ns, ValueCounts(params));
  }

  /** `create({url, params, slug})`: as many URLs as there are combinations
      of the caller's values. */
  function Create(url: string, params: seq<ParamSpec>, str: string): (r: seq<string>)
    ensures |r| == Product(ValueCounts(params))
  {
    Build(ParseUrl(url), params, str)
  }

  /** What `create` does once `url` is parsed. */
  function Build(pu: ParsedUrl, params: seq<ParamSpec>, str: string): (r: seq<string>)
    ensures |r| == Product(ValueCounts(params))
  {
    UnshiftKeepsCount(params, pu.queryKey);
    var qs := Queries(UnshiftParams(params, pu.queryKey));
    seq(|qs|, i requires 0 <= i < |qs| => MakeUrl(qs[i], pu, str))
  }

  // ----- which query string each output carries -----

  /** A choice of one value per spec. */
  predicate IsChoice(specs: seq<ParamSpec>, idx: seq<nat>) {
    |idx| == |specs| && forall i :: 0 <= i < |specs| ==> idx[i] < ValueCount(specs[i])
  }

  /** `key=value` for the chosen value of a spec. */
  function Piece(p: ParamSpec, j: nat): string
    requires j < ValueCount(p)
  {
    p.key + "=" + ValueText(Elements(p.value)[j], p)
  }

  function Pieces(specs: seq<ParamSpec>, idx: seq<nat>): (r: seq<string>)
    requires IsChoice(specs, idx)
    ensures |r| == |specs|
  {
    seq(|specs|, i requires 0 <= i < |specs| => Piece(specs[i], idx[i]))
  }

  /** The query string of a choice: "" with no specs, otherwise `?` and the
      chosen `key=value` pieces joined with `&`. */
  function QueryText(specs: seq<ParamSpec>, idx: seq<nat>): string
    requires IsChoice(specs, idx)
  {
    if specs == [] then [] else "?" + JoinWith(Pieces(specs, idx), '&')
  }

  lemma ChoiceIsIndex(specs: seq<ParamSpec>, idx: seq<nat>)
    ensures IsChoice(specs, idx) <==> ValidIndex(MapValues(specs), idx)
  {
  }

  /** Where a choice's query string comes in the output. */
  function Position(specs: seq<ParamSpec>, idx: seq<nat>): nat
    requires IsChoice(specs, idx)
  {
    ChoiceIsIndex(specs, idx);
    Rank(MapValues(specs), idx)
  }

  lemma FragmentIsPiece(specs: seq<ParamSpec>, idx: seq<nat>)
    requires IsChoice(specs, idx) && specs != []
    ensures MapValues(specs)[0][idx[0]] == "&" + Piece(specs[0], idx[0])
    ensures MapValues(specs)[1..] == MapValues(specs[1..])
  {
  }

  lemma JoinFront(p: string, rest: seq<string>)
    requires rest != []
    ensures "&" + p + ("&" + JoinWith(rest, '&')) == "&" + JoinWith([p] + rest, '&')
  {
    assert ([p] + rest)[1..] == rest;
  }

  lemma PiecesFront(specs: seq<ParamSpec>, idx: seq<nat>)
    requires IsChoice(specs, idx) && specs != []
    ensures IsChoice(specs[1..], idx[1..])
    ensures Pieces(specs, idx) == [Piece(specs[0], idx[0])] + Pieces(specs[1..], idx[1..])
  {
    assert IsChoice(specs[1..], idx[1..]);
  }

  lemma PickFront(ls: seq<seq<string>>, idx: seq<nat>)
    requires ValidIndex(ls, idx) && ls != []
    ensures ValidIndex(ls[1..], idx[1..])
    ensures Pick(ls, idx) == ls[0][idx[0]] + Pick(ls[1..], idx[1..])
  {
  }

  /** The fragments picked by a choice, concatenated, are `&` before each piece. */
  lemma {:induction false} PickIsPieces(specs: seq<ParamSpec>, idx: seq<nat>)
    requires IsChoice(specs, idx) && specs != []
    ensures ValidIndex(MapValues(specs), idx)
    ensures Pick(MapValues(specs), idx) == "&" + JoinWith(Pieces(specs, idx), '&')
  {
    ChoiceIsIndex(specs, idx);
    var ls := MapValues(specs);
    FragmentIsPiece(specs, idx);
    PickFront(ls, idx);
    PiecesFront(specs, idx);
    var rest, p := specs[1..], Piece(specs[0], idx[0]);
    ChoiceIsIndex(rest, idx[1..]);
    if |specs| > 1 {
      PickIsPieces(rest, idx[1..]);
      JoinFront(p, Pieces(rest, idx[1..]));
    } else {
      assert Pieces(specs, idx) == [p];
      assert Pick(ls[1..], idx[1..]) == "";
    }
  }

  lemma ReplaceLeadingAmp(x: string)
    ensures ReplaceFirst("&" + x, '&', '?') == "?" + x
  {
    assert IndexOf("&" + x, '&') == 0;
  }

  /** Each choice's query string is in the output, at the choice's position. */
  lemma QueriesAt(specs: seq<ParamSpec>, idx: seq<nat>)
    requires IsChoice(specs, idx)
    ensures Position(specs, idx) < |Queries(specs)|
    ensures Queries(specs)[Position(specs, idx)] == QueryText(specs, idx)
  {
    ChoiceIsIndex(specs, idx);
    CombinationAt(MapValues(specs), idx);
    if specs != [] {
      PickIsPieces(specs, idx);
      ReplaceLeadingAmp(JoinWith(Pieces(specs, idx), '&'));
    }
  }

  /** Every output is the query string of some choice. */
  lemma QueriesOnlyChoices(specs: seq<ParamSpec>, k: nat) returns (idx: seq<nat>)
    requires k < |Queries(specs)|
    ensures IsChoice(specs, idx) && Position(specs, idx) == k
    ensures Queries(specs)[k] == QueryText(specs, idx)
  {
    LengthsOfMapValues(specs);
    idx := Unrank(MapValues(specs), k);
    ChoiceIsIndex(specs, idx);
    QueriesAt(specs, idx);
  }

  /** The outputs follow the lexicographic order of the choices: the last
      spec's value varies fastest. */
  lemma QueriesOrdered(specs: seq<ParamSpec>, a: seq<nat>, b: seq<nat>)
    requires IsChoice(specs, a) && IsChoice(specs, b) && LexLess(a, b)
    ensures Position(specs, a) < Position(specs, b)
  {
    ChoiceIsIndex(specs, a);
    ChoiceIsIndex(specs, b);
    RankOrdered(MapValues(specs), a, b);
  }

  /** `search`: the output at a choice's position is `?` followed by the
      chosen `key=value` pieces joined with `&`; only the first `&` of the
      combined fragments became `?`. */
  lemma SearchAt(params: seq<ParamSpec>, idx: seq<nat>)
    requires IsChoice(params, idx) && params != []
    ensures Position(params, idx) < |Search(params)|
    ensures Search(params)[Position(params, idx)] == "?" + JoinWith(Pieces(params, idx), '&')
  {
    QueriesAt(params, idx);
  }

  /** With no parameters `search` yields one empty string. */
  lemma SearchNoParams()
    ensures Search([]) == [""]
  {
    assert Combinations(MapValues([])) == [""];
  }

  /** The value written for a spec's chosen element. */
  function Chosen(specs: seq<ParamSpec>, idx: seq<nat>, i: nat): string
    requires IsChoice(specs, idx) && i < |specs|
  {
    ValueText(Elements(specs[i].value)[idx[i]], specs[i])
  }

  /** Each spec's key with its chosen written value, in spec order. */
  function ChosenPairs(specs: seq<ParamSpec>, idx: seq<nat>): seq<Pair>
    requires IsChoice(specs, idx)
  {
    seq(|specs|, i requires 0 <= i < |specs| => Pair(specs[i].key, Chosen(specs, idx, i)))
  }

  /** Keys the `queryKey` pattern reads back whole. */
  predicate PlainKeys(specs: seq<ParamSpec>) {
    forall i :: 0 <= i < |specs| ==> NotIn('&', specs[i].key) && NotIn('=', specs[i].key)
  }

  lemma PieceNoAmp(k: string, v: string)
    requires NotIn('&', k) && NotIn('&', v)
    ensures NotIn('&', k + "=" + v)
  {
    NotInAppend('&', k, "=");
    NotInAppend('&', k + "=", v);
  }

  lemma PiecesNoAmp(specs: seq<ParamSpec>, idx: seq<nat>)
    requires IsChoice(specs, idx) && PlainKeys(specs)
    requires forall i :: 0 <= i < |specs| ==> NotIn('&', Chosen(specs, idx, i))
    ensures forall i :: 0 <= i < |specs| ==> NotIn('&', Pieces(specs, idx)[i])
  {
    var ps := Pieces(specs, idx);
    forall i | 0 <= i < |specs| ensures NotIn('&', ps[i]) {
      PieceNoAmp(specs[i].key, Chosen(specs, idx, i));
    }
  }

  /** Reading a search string back with the `queryKey` pattern gives the
      chosen keys and written values, in order, provided no key holds `&`
      or `=` and no written value holds `&` (an encoded value never does). */
  lemma SearchReadsBack(params: seq<ParamSpec>, idx: seq<nat>)
    requires IsChoice(params, idx) && params != [] && PlainKeys(params)
    requires forall i :: 0 <= i < |params| ==> NotIn('&', Chosen(params, idx, i))
    ensures Position(params, idx) < |Search(params)| && Search(params)[Position(params, idx)] != []
    ensures QueryMatches(Search(params)[Position(params, idx)][1..]) ==
            ChosenPairs(params, idx)
  {
    SearchAt(params, idx);
    var ps := Pieces(params, idx);
    var q := JoinWith(ps, '&');
    assert ("?" + q)[1..] == q;
    PiecesNoAmp(params, idx);
    JoinSplit(ps, '&');
    QueryMatchesArePieces(q);
    assert ps[0] != [];
    assert Visited(ps) == ps;
    PairsOfPieces(params, idx);
  }

  /** A piece `key=value` reads back as that key and value. */
  lemma PairOfPiece(params: seq<ParamSpec>, idx: seq<nat>, i: nat)
    requires IsChoice(params, idx) && PlainKeys(params) && i < |params|
    requires NotIn('&', Chosen(params, idx, i))
    ensures PairOf(Pieces(params, idx)[i]) == Pair(params[i].key, Chosen(params, idx, i))
  {
    var k, v := params[i].key, Chosen(params, idx, i);
    assert forall j :: 0 <= j < |k| ==> IsKeyChar(k[j]);
    MatchAtWithValue(k, v, []);
    assert k + "=" + v + [] == Pieces(params, idx)[i];
  }

  lemma PairsOfPieces(params: seq<ParamSpec>, idx: seq<nat>)
    requires IsChoice(params, idx) && PlainKeys(params)
    requires forall i :: 0 <= i < |params| ==> NotIn('&', Chosen(params, idx, i))
    ensures PairsOf(Pieces(params, idx)) ==
            ChosenPairs(params, idx)
  {
    var ps := Pieces(params, idx);
    forall i | 0 <= i < |params| ensures PairsOf(ps)[i] == Pair(params[i].key, Chosen(params, idx, i)) {
      PairsOfAt(ps, i);
      PairOfPiece(params, idx, i);
    }
  }

  // ----- create -----

  /** The specs `create` combines: one per existing query key, then the caller's. */
  function AllSpecs(url: string, params: seq<ParamSpec>): seq<ParamSpec> {
    UnshiftParams(params, ParseUrl(url).queryKey)
  }

  /** Every created URL is the base, the query string of its choice, and
      the fragment of `url`; the choices cover the existing query keys first. */
  lemma CreateAt(url: string, params: seq<ParamSpec>, str: string, idx: seq<nat>)
    requires IsChoice(AllSpecs(url, params), idx)
    ensures Position(AllSpecs(url, params), idx) < |Create(url, params, str)|
    ensures Create(url, params, str)[Position(AllSpecs(url, params), idx)] ==
            Base(ParseUrl(url), str) + QueryText(AllSpecs(url, params), idx) + GetHash(ParseUrl(url).source)
  {
    QueriesAt(AllSpecs(url, params), idx);
  }

  /** Each existing query key comes before the caller's parameters, in
      reverse order of the keys, and its value is percent-encoded again. */
  lemma ExistingKeysFirst(params: seq<ParamSpec>, qk: seq<Pair>, idx: seq<nat>)
    requires IsChoice(UnshiftParams(params, qk), idx)
    ensures forall i :: 0 <= i < |qk| ==>
              Pieces(UnshiftParams(params, qk), idx)[i] ==
              qk[|qk| - 1 - i].key + "=" + EncodeUriComponent(qk[|qk| - 1 - i].value)
  {
    var all := UnshiftParams(params, qk);
    forall i | 0 <= i < |qk|
      ensures Pieces(all, idx)[i] == qk[|qk| - 1 - i].key + "=" + EncodeUriComponent(qk[|qk| - 1 - i].value)
    {
      var p := qk[|qk| - 1 - i];
      assert all[i] == KeySpec(p);
      assert Elements(all[i].value) == [Raw(p.value)];
    }
  }

  /** The caller's parameters follow, each with its chosen value. */
  lemma CallerParamsAfter(params: seq<ParamSpec>, qk: seq<Pair>, idx: seq<nat>)
    requires IsChoice(UnshiftParams(params, qk), idx)
    ensures forall i :: 0 <= i < |params| ==>
              idx[|qk| + i] < ValueCount(params[i]) &&
              Pieces(UnshiftParams(params, qk), idx)[|qk| + i] == Piece(params[i], idx[|qk| + i])
  {
    forall i | 0 <= i < |params|
      ensures idx[|qk| + i] < ValueCount(params[i]) &&
              Pieces(UnshiftParams(params, qk), idx)[|qk| + i] == Piece(params[i], idx[|qk| + i])
    {
      CallerParamAt(params, qk, idx, i);
    }
  }

  lemma CallerParamAt(params: seq<ParamSpec>, qk: seq<Pair>, idx: seq<nat>, i: nat)
    requires IsChoice(UnshiftParams(params, qk), idx) && i < |params|
    ensures idx[|qk| + i] < ValueCount(params[i])
    ensures Pieces(UnshiftParams(params, qk), idx)[|qk| + i] == Piece(params[i], idx[|qk| + i])
  {
    var all := UnshiftParams(params, qk);
    assert all[|qk| + i] == all[|qk|..][i] == params[i];
    PieceAt(all, idx, |qk| + i, params[i]);
  }

  lemma PieceAt(specs: seq<ParamSpec>, idx: seq<nat>, j: nat, p: ParamSpec)
    requires IsChoice(specs, idx) && j < |specs| && specs[j] == p
    ensures idx[j] < ValueCount(p) && Pieces(specs, idx)[j] == Piece(p, idx[j])
  {
  }

  /** With no parameters and no query key in `url`, `create` yields the
      single URL made of the base and the fragment. */
  lemma CreateNoParams(url: string, str: string)
    requires ParseUrl(url).queryKey == []
    ensures Create(url, [], str) == [Base(ParseUrl(url), str) + GetHash(ParseUrl(url).source)]
  {
    BuildNoParams(ParseUrl(url), str);
  }

  lemma BuildNoParams(pu: ParsedUrl, str: string)
    requires pu.queryKey == []
    ensures Build(pu, [], str) == [Base(pu, str) + GetHash(pu.source)]
  {
    SearchNoParams();
    assert Queries(UnshiftParams([], pu.queryKey)) == [""];
    assert MakeUrl("", pu, str) == Base(pu, str) + GetHash(pu.source);
  }

  /** The empty query sets no key. */
  lemma EmptyQueryNoKeys()
    ensures QueryKey([]) == []
  {
  }

  /** The text of a URL before its fragment, when it has no query. */
  function Head(u: UrlParts): string {
    u.scheme + "://" + u.host + Opt(":", u.port) + u.path
  }

  lemma RenderIsHead(u: UrlParts)
    requires u.query.None?
    ensures Render(u) == Head(u) + Opt("#", u.fragment)
  {
  }

  lemma BaseIsHead(pu: ParsedUrl, u: UrlParts)
    requires pu.protocol == u.scheme && pu.host == u.host && pu.path == u.path
    requires pu.port == u.port.GetOr([]) && u.port != Some([])
    ensures Base(pu, []) == Head(u)
  {
  }

  /** What `create` reads from a well-formed URL without a query or an
      empty port: no query key, and a base and fragment that make up the
      whole URL. */
  lemma CreateReadsRender(u: UrlParts)
    requires WellFormed(u) && u.query.None? && u.port != Some([])
    ensures ParseUrl(Render(u)).queryKey == []
    ensures Base(ParseUrl(Render(u)), []) + GetHash(ParseUrl(Render(u)).source) == Render(u)
  {
    var pu := ParseUrl(Render(u));
    ParseRender(u);
    ParseRenderWhole(u);
    EmptyQueryNoKeys();
    BaseIsHead(pu, u);
    RenderIsHead(u);
    HeadNoHash(u);
    GetHashAfter(Head(u), Opt("#", u.fragment));
  }

  /** A well-formed URL without a query or an empty port comes back
      unchanged from `create` with no parameters and no slug. */
  lemma CreateIdentity(u: UrlParts)
    requires WellFormed(u) && u.query.None? && u.port != Some([])
    ensures Create(Render(u), [], []) == [Render(u)]
  {
    CreateReadsRender(u);
    CreateNoParams(Render(u), []);
  }

  /** With one existing query pair and one caller parameter, the `j`-th
      URL is the base, `?`, the existing pair with its value encoded again,
      `&`, the parameter's `j`-th piece, and the fragment. */
  lemma BuildOneExisting(pu: ParsedUrl, k0: string, v0: string, p: ParamSpec, j: nat, str: string)
    requires pu.queryKey == [Pair(k0, v0)] && j < ValueCount(p)
    ensures j < |Build(pu, [p], str)|
    ensures Build(pu, [p], str)[j] ==
            Base(pu, str) + "?" + k0 + "=" + EncodeUriComponent(v0) + "&" + Piece(p, j) + GetHash(pu.source)
  {
    var specs := UnshiftParams([p], pu.queryKey);
    var q := "?" + (k0 + "=" + EncodeUriComponent(v0)) + "&" + Piece(p, j);
    assert j < |Queries(specs)| && Queries(specs)[j] == q by {
      UnshiftOne(p, Pair(k0, v0));
      QueryOfPair(specs, j);
    }
    BuildAt(pu, [p], str, j);
    Reassociate(Base(pu, str), k0, EncodeUriComponent(v0), Piece(p, j), GetHash(pu.source));
  }

  /** The `j`-th URL `create` builds is the base, the `j`-th query string and the fragment. */
  lemma BuildAt(pu: ParsedUrl, params: seq<ParamSpec>, str: string, j: nat)
    requires j < |Queries(UnshiftParams(params, pu.queryKey))|
    ensures j < |Build(pu, params, str)|
    ensures Build(pu, params, str)[j] == Base(pu, str) + Queries(UnshiftParams(params, pu.queryKey))[j] + GetHash(pu.source)
  {
    UnshiftKeepsCount(params, pu.queryKey);
  }

  lemma Reassociate(b: string, k: string, v: string, pc: string, h: string)
    ensures b + ("?" + (k + "=" + v) + "&" + pc) + h == b + "?" + k + "=" + v + "&" + pc + h
  {
  }

  lemma UnshiftOne(p: ParamSpec, q: Pair)
    ensures UnshiftParams([p], [q]) == [KeySpec(q), p]
  {
    var r := UnshiftParams([p], [q]);
    assert r[1..] == [p];
  }

  /** Two specs, the first with one value: the `j`-th query string is the
      first spec's piece and the second spec's `j`-th piece. */
  lemma QueryOfPair(specs: seq<ParamSpec>, j: nat)
    requires |specs| == 2 && ValueCount(specs[0]) == 1 && j < ValueCount(specs[1])
    ensures j < |Queries(specs)|
    ensures Queries(specs)[j] == "?" + Piece(specs[0], 0) + "&" + Piece(specs[1], j)
  {
    var idx: seq<nat> := [0, j];
    PositionOfPair(specs, j);
    QueriesAt(specs, idx);
    var pieces := Pieces(specs, idx);
    assert pieces == [Piece(specs[0], 0), Piece(specs[1], j)];
    assert JoinWith(pieces, '&') == pieces[0] + "&" + JoinWith(pieces[1..], '&');
  }

  /** In two specs where the first has one value, choice `[0, j]` comes `j`-th. */
  lemma PositionOfPair(specs: seq<ParamSpec>, j: nat)
    requires |specs| == 2 && ValueCount(specs[0]) == 1 && j < ValueCount(specs[1])
    ensures IsChoice(specs, [0, j]) && Position(specs, [0, j]) == j
  {
    var idx: seq<nat> := [0, j];
    var ls := MapValues(specs);
    ChoiceIsIndex(specs, idx);
    assert ls[1..][1..] == [];
    assert idx[1..] == [j] && idx[1..][1..] == [];
    assert Rank(ls[1..], [j]) == j * Product(Lengths(ls[1..][1..])) + Rank(ls[1..][1..], []);
  }

  /** `create` on a well-formed URL whose query is one `key=value` pair,
      with one parameter: the `j`-th URL keeps scheme, host, port and path,
      adds the slug, then `?key=` and the value encoded again, then `&` and
      the parameter's `j`-th piece, then the fragment. */
  lemma CreateOneExisting(u: UrlParts, k0: string, v0: string, p: ParamSpec, j: nat, str: string)
    requires WellFormed(u) && u.port != Some([]) && u.query == Some(k0 + "=" + v0)
    requires k0 != [] && (forall i :: 0 <= i < |k0| ==> IsKeyChar(k0[i])) && NotIn('&', v0)
    requires j < ValueCount(p)
    ensures j < |Create(Render(u), [p], str)|
    ensures Create(Render(u), [p], str)[j] ==
            u.scheme + "://" + u.host + Opt(":", u.port) + MakeSlug(u.path, str)
            + "?" + k0 + "=" + EncodeUriComponent(v0) + "&" + Piece(p, j) + Opt("#", u.fragment)
  {
    var pu := ParseUrl(Render(u));
    assert pu.queryKey == [Pair(k0, v0)] && GetHash(pu.source) == Opt("#", u.fragment)
        && Base(pu, str) == u.scheme + "://" + u.host + Opt(":", u.port) + MakeSlug(u.path, str) by {
      ParseRender(u);
      ParseRenderWhole(u);
      OnePair(k0, v0);
      RenderHash(u);
    }
    BuildOneExisting(pu, k0, v0, p, j, str);
  }

  /** With no existing query key and one parameter, the `j`-th URL is the
      base, `?`, the parameter's `j`-th piece, and the fragment. */
  lemma BuildNoExisting(pu: ParsedUrl, p: ParamSpec, j: nat, str: string)
    requires pu.queryKey == [] && j < ValueCount(p)
    ensures j < |Build(pu, [p], str)|
    ensures Build(pu, [p], str)[j] == Base(pu, str) + "?" + Piece(p, j) + GetHash(pu.source)
  {
    var specs := UnshiftParams([p], pu.queryKey);
    assert j < |Queries(specs)| && Queries(specs)[j] == "?" + Piece(p, j) by {
      assert specs == [p];
      QueryOfOne(p, j);
    }
    assert Build(pu, [p], str)[j] == MakeUrl(Queries(specs)[j], pu, str);
  }

  /** One spec: its `j`-th query string is `?` and its `j`-th piece. */
  lemma QueryOfOne(p: ParamSpec, j: nat)
    requires j < ValueCount(p)
    ensures j < |Queries([p])| && Queries([p])[j] == "?" + Piece(p, j)
  {
    var idx: seq<nat> := [j];
    var ls := MapValues([p]);
    ChoiceIsIndex([p], idx);
    assert ls[1..] == [] && idx[1..] == [];
    assert Rank(ls, idx) == j * Product(Lengths(ls[1..])) + Rank(ls[1..], idx[1..]);
    QueriesAt([p], idx);
    assert Pieces([p], idx) == [Piece(p, j)];
  }

  /** `create` on a well-formed URL without a query, with one parameter. */
  lemma CreateNoExisting(u: UrlParts, p: ParamSpec, j: nat, str: string)
    requires WellFormed(u) && u.port != Some([]) && u.query.None?
    requires j < ValueCount(p)
    ensures j < |Create(Render(u), [p], str)|
    ensures Create(Render(u), [p], str)[j] ==
            u.scheme + "://" + u.host + Opt(":", u.port) + MakeSlug(u.path, str)
            + "?" + Piece(p, j) + Opt("#", u.fragment)
  {
    var pu := ParseUrl(Render(u));
    assert pu.queryKey == [] && GetHash(pu.source) == Opt("#", u.fragment)
        && Base(pu, str) == u.scheme + "://" + u.host + Opt(":", u.port) + MakeSlug(u.path, str) by {
      ParseRender(u);
      ParseRenderWhole(u);
      EmptyQueryNoKeys();
      RenderHash(u);
    }
    BuildNoExisting(pu, p, j, str);
  }

  /** The fragment of a well-formed URL is what `getHash` finds in it. */
  lemma RenderHash(u: UrlParts)
    requires WellFormed(u)
    ensures GetHash(Render(u)) == Opt("#", u.fragment)
  {
    var a := Head(u) + Opt("?", u.query);
    assert Render(u) == a + Opt("#", u.fragment);
    HeadNoHash(u);
    NotInOpt('#', "?", u.query);
    NotInAppend('#', Head(u), Opt("?", u.query));
    GetHashAfter(a, Opt("#", u.fragment));
  }

  lemma HeadNoHash(u: UrlParts)
    requires WellFormed(u)
    ensures NotIn('#', Head(u))
  {
    if u.port.Some? {
      assert forall k :: 0 <= k < |u.port.value| ==> IsDigit(u.port.value[k]);
    }
    NotInOpt('#', ":", u.port);
    NotInAppend('#', u.scheme, "://");
    NotInAppend('#', u.scheme + "://", u.host);
    NotInAppend('#', u.scheme + "://" + u.host, Opt(":", u.port));
    NotInAppend('#', u.scheme + "://" + u.host + Opt(":", u.port), u.path);
  }
}
