/** The parameter expander: `mapValues` and `returnValues`. Each parameter
    spec becomes the ordered list of `&key=value` fragments, one per value,
    with the value percent-encoded unless a skip flag says otherwise. */
module Params {
  import opened Wrappers
  import opened Percent

  /** One element of a parameter's value: a plain string, or an object with
      its own `value` and optional `skipEncoding` flag. */
  datatype ValueElem = Raw(text: string) | WithOpts(value: string, skip: Option<bool>)

  /** A parameter's `value`: a single element, or an array of elements. */
  datatype ParamValue = One(elem: ValueElem) | Many(elems: seq<ValueElem>)

  /** `{ key, value, skipEncoding? }` as the caller passes it. */
  datatype ParamSpec = ParamSpec(key: string, value: ParamValue, skipEncoding: Option<bool>)

  /** What `returnValues` hands back: the skip flag (possibly undefined) and
      the raw value. */
  datatype Choice = Choice(skip: Option<bool>, val: string)

  /** JavaScript truthiness of an optional boolean. */
  predicate Truthy(b: Option<bool>) {
    b == Some(true)
  }

  /** `Array.isArray(param.value) ? param.value : [param.value]` */
  function Elements(v: ParamValue): seq<ValueElem> {
    match v
    case One(e) => [e]
    case Many(es) => es
  }

  /** How many values a parameter contributes. */
  function ValueCount(p: ParamSpec): nat {
    |Elements(p.value)|
  }

  /** The raw text of an element, whichever shape it has. */
  function RawValue(e: ValueElem): string {
    match e
    case Raw(t) => t
    case WithOpts(v, _) => v
  }

  /** `returnValues(value, param)`: an object element brings its own flag;
      a plain element takes the parameter's flag. */
  function ReturnValues(value: ValueElem, param: ParamSpec): (r: Choice)
    ensures r.val == RawValue(value)
  {
    match value
    case WithOpts(v, s) => Choice(s, v)
    case Raw(t) => Choice(param.skipEncoding, t)
  }

  /** The text written after `=` for one element: `skip ? val : encodeURIComponent(val)`. */
  function ValueText(value: ValueElem, param: ParamSpec): string {
    var c := ReturnValues(value, param);
    if Truthy(c.skip) then c.val else EncodeUriComponent(c.val)
  }

  /** One query fragment, `&key=value`; the key is never encoded. */
  function Fragment(key: string, v: string): string {
    "&" + key + "=" + v
  }

  function MapParam(param: ParamSpec): seq<string> {
    var res := Elements(param.value);
    seq(|res|, j requires 0 <= j < |res| => Fragment(param.key, ValueText(res[j], param)))
  }

  /** `mapValues(arr)`: one list of fragments per spec, in spec order, each
      list in the order of the spec's values. */
  function MapValues(arr: seq<ParamSpec>): (r: seq<seq<string>>)
    ensures |r| == |arr|
    ensures forall i :: 0 <= i < |arr| ==> |r[i]| == ValueCount(arr[i])
    ensures forall i, j :: 0 <= i < |arr| && 0 <= j < ValueCount(arr[i]) ==>
              r[i][j] == Fragment(arr[i].key, ValueText(Elements(arr[i].value)[j], arr[i]))
  {
    if arr == [] then [] else [MapParam(arr[0])] + MapValues(arr[1..])
  }

  /** Whether the element's value is written as it is. */
  predicate Skips(value: ValueElem, param: ParamSpec) {
    Truthy(ReturnValues(value, param).skip)
  }

  /** The written value is the raw value when skipped, and otherwise a string
      that decodes back to the raw value and holds no `&`, `=`, `#` or `?`. */
  lemma ValueTextMeaning(value: ValueElem, param: ParamSpec)
    ensures Skips(value, param) ==> ValueText(value, param) == RawValue(value)
    ensures !Skips(value, param) ==>
              && DecodeUriComponent(ValueText(value, param)) == Some(RawValue(value))
              && forall k :: 0 <= k < |ValueText(value, param)| ==>
                   ValueText(value, param)[k] !in {'&', '=', '#', '?'}
  {
    if !Skips(value, param) {
      DecodeEncode(RawValue(value));
      EncodedNoDelimiters(RawValue(value));
    }
  }

  lemma EncodedNoDelimiters(s: string)
    ensures forall k :: 0 <= k < |EncodeUriComponent(s)| ==> EncodeUriComponent(s)[k] !in {'&', '=', '#', '?'}
  {
    var e := EncodeUriComponent(s);
    forall k | 0 <= k < |e| ensures e[k] !in {'&', '=', '#', '?'} {
      assert IsUnreserved(e[k]) || e[k] == '%';
    }
  }

  /** An object element follows only its own flag: the parameter's flag
      changes nothing, and an absent own flag means "encode". */
  lemma ObjectFlagOnly(v: string, s: Option<bool>, param: ParamSpec, flag: Option<bool>)
    ensures ValueText(WithOpts(v, s), param) == ValueText(WithOpts(v, s), param.(skipEncoding := flag))
    ensures ValueText(WithOpts(v, None), param) == EncodeUriComponent(v)
  {
  }

  /** A plain element follows the parameter's flag. */
  lemma PlainFollowsParam(t: string, key: string, value: ParamValue)
    ensures ValueText(Raw(t), ParamSpec(key, value, Some(true))) == t
    ensures ValueText(Raw(t), ParamSpec(key, value, Some(false))) == EncodeUriComponent(t)
    ensures ValueText(Raw(t), ParamSpec(key, value, None)) == EncodeUriComponent(t)
  {
  }

  /** A non-array value expands exactly like a one-element array. */
  lemma SingleIsSingleton(key: string, e: ValueElem, skip: Option<bool>)
    ensures MapValues([ParamSpec(key, One(e), skip)]) == MapValues([ParamSpec(key, Many([e]), skip)])
  {
    var p1, p2 := ParamSpec(key, One(e), skip), ParamSpec(key, Many([e]), skip);
    assert ValueText(e, p1) == ValueText(e, p2);
    assert MapParam(p1) == MapParam(p2);
  }
}
