# url-generator, modelled in Dafny

A model of the `url-generator` library (`node_modules/url-generator/src/index.js`),
which turns a base URL and a list of parameter specs into every URL (or
query string) that picks one value per parameter.

The pieces, one module each:

- `Strings`: the string helpers the others share (`indexOf`, the first-only
  `replace('&', '?')`, splitting and joining on a separator, character runs).
- `Percent`: `encodeURIComponent`, following ECMA-262 (6th edition, section
  18.2.6.5). Letters, digits and `- _ . ! ~ * ' ( )` pass through. Every
  other character is written as the upper-case `%XX` escapes of its UTF-8
  bytes. A strict percent-decoder is its partner, and the round trip is proved.
- `Params`: `returnValues` and `mapValues`. A value element is a tagged union,
  `Raw(text)` or `WithOpts(value, skip)`. A parameter value is one element or
  an array of them.
- `Cartesian`: `cartesianValues`. The recursive generator is a method. The
  source shares one mutable `data` array across all levels of the recursion
  and writes slot `pos` in place. The method does not share it. Each turn
  passes on a new buffer, `data[pos := arr[pos][i]]`. The outputs are the
  same: when a leaf joins the buffer, every slot it joins was written on the
  current path of calls, after any write from an earlier branch. A
  functional `Combinations` is the reference definition, and the odometer
  order is proved through a mixed-radix rank.
- `QueryString`: the `queryKey` object that `parseUrl` builds from the query
  with the global pattern `(?:^|&)([^&=]*)=?([^&]*)`. It is modelled as a
  sequence of key/value pairs in the order JavaScript enumerates the object.
- `UrlParse`: `parseUrl`, with the parseUri pattern read as a deterministic
  left-to-right scanner. `UrlParts`/`Render` are the restricted grammar
  `scheme://host[:digits][path][?query][#fragment]` with no `@`. For that
  grammar, parsing the rendered URL gives back every part.
- `Slugify`: `slug`, as its five regular-expression passes.
- `Generator`: `create`, `search`, `makeUrl`, `makeSlug`, `getHash` and
  `unshiftParams`.
- `Scenarios`: the concrete examples the library's tests rely on for
  encoding, slugs and parsing, proved from the general lemmas.
- `CreateExamples`: the library's test cases for `mapValues`, `create` and
  `search`, each proved for every index of the three campaign values.
  The slug cases are proved for any non-empty slug argument.
  `Scenarios.SlugDropsPunctuation` gives the slug of "Hello World!?!".

Behaviour of the code worth knowing:

- The `queryKey` pattern skips a pair. When the query starts with `&` (or is
  empty), the first match is empty. The regular-expression engine then steps
  one character on, so the pair right after a leading `&` is never recorded.
  `QueryString.LeadingAmpSkipsFirst` states this. So the recorded pairs are
  not simply the `&`-separated pieces.
- `create` puts the existing query keys in front of the caller's parameters
  in reverse order. It percent-encodes their already-encoded values a second
  time, so `%20` becomes `%2520`.
- `makeUrl` writes `:port` only for a non-empty port. A URL with an empty port
  (`http://h:/p`) loses its colon.
- `parseUrl` is modelled for every input, not only the restricted grammar.
  Userinfo, the protocol lookahead, paths without a leading `/` and anchors
  that stop at a line terminator are all covered. The fields that are not
  modelled are listed under "Left out".

## Model

| member | source | states |
|---|---|---|
| Percent.EncodeUriComponent | node_modules/url-generator/src/index.js:57 | the encoding is never shorter than its input and uses only unreserved characters and `%` |
| Percent.EncodeChar | node_modules/url-generator/src/index.js:57 | an unreserved character is kept as it is; any other character becomes 3 to 12 characters that start with `%`, all of them unreserved characters or `%` |
| Percent.DecodeEncode | node_modules/url-generator/src/index.js:57 | percent-decoding the encoding of any string gives that string back (round trip with the partner decoder) |
| Percent.EncodeInjective | node_modules/url-generator/src/index.js:57 | two strings with the same encoding are equal, so distinct values give distinct fragments |
| Percent.EncodeFixedIff | node_modules/url-generator/src/index.js:57 | the encoding leaves a string unchanged exactly when every character of it is unreserved (both directions) |
| Percent.EncodeAppend | node_modules/url-generator/src/index.js:57 | encoding distributes over concatenation |
| Percent.DecodeEncodeChar | node_modules/url-generator/src/index.js:57 | decoding one encoded character, followed by any text, yields that character in front of the decoding of the text |
| Percent.Utf8Decodes | node_modules/url-generator/src/index.js:57 | the UTF-8 bytes an escape is made from decode back to the same character, with a lead byte that announces their count |
| Params.ReturnValues | node_modules/url-generator/src/index.js:71-84 | the value handed back is the element's own text, whichever shape the element has |
| Params.MapValues | node_modules/url-generator/src/index.js:52-61 | one list per spec, in spec order; each list has one fragment per value, in value order, and each fragment is `&key=` followed by that value's text, with the key never encoded |
| Params.ValueTextMeaning | node_modules/url-generator/src/index.js:56-57 | a skipped value is written as it is; any other value is written as text that decodes back to it and holds no `&`, `=`, `#` or `?` |
| Params.ObjectFlagOnly | node_modules/url-generator/src/index.js:75-77 | an object element follows only its own `skipEncoding`, whatever the parameter's flag; without its own flag it is encoded |
| Params.PlainFollowsParam | node_modules/url-generator/src/index.js:78-81 | a plain element is written raw when the parameter's flag is true and encoded when the flag is false or absent |
| Params.SingleIsSingleton | node_modules/url-generator/src/index.js:54 | a non-array value expands exactly like a one-element array |
| Params.EncodedNoDelimiters | node_modules/url-generator/src/index.js:57 | an encoded value contains none of the query delimiters `&`, `=`, `#`, `?` |
| Cartesian.Recursive | node_modules/url-generator/src/index.js:96-102 | the generator at position `pos` yields the buffer's chosen prefix in front of every combination of the remaining positions, in the reference order |
| Cartesian.CartesianValues | node_modules/url-generator/src/index.js:94-103 | the generator run to completion yields the reference combinations, as many as the product of the list lengths |
| Cartesian.Combinations | node_modules/url-generator/src/index.js:94-103 | the number of combinations is the product of the inner-list lengths |
| Cartesian.NoPositions | node_modules/url-generator/src/index.js:97 | with no positions there is exactly one combination, the empty string |
| Cartesian.EmptyPositionEmpties | node_modules/url-generator/src/index.js:98 | a position with no fragments leaves nothing to yield |
| Cartesian.CombinationAt | node_modules/url-generator/src/index.js:96-102 | the output at a choice's mixed-radix rank concatenates the chosen fragment of each position, in position order |
| Cartesian.Unrank | node_modules/url-generator/src/index.js:96-102 | every output position is the rank of some valid choice, so every output is such a concatenation |
| Cartesian.RankOrdered | node_modules/url-generator/src/index.js:98-100 | lexicographically smaller choices come earlier, so the last position varies fastest |
| Cartesian.RankBound | node_modules/url-generator/src/index.js:96-102 | every choice's rank is below the number of combinations |
| Cartesian.BlocksSnoc | node_modules/url-generator/src/index.js:98-101 | one more loop turn appends one more block of combinations to the yielded ones |
| QueryString.MatchAt | node_modules/url-generator/src/index.js:9 | one match leaves a rest no longer than the text, which is empty or starts at an `&` |
| QueryString.QueryMatchesArePieces | node_modules/url-generator/src/index.js:9 | the matches of the query pattern are the key/value readings of its `&`-separated pieces, except the piece after a leading empty one |
| QueryString.MatchesFromPieces | node_modules/url-generator/src/index.js:9 | after the first match, each further match is one `&`-separated piece |
| QueryString.MatchAtPiece | node_modules/url-generator/src/index.js:9 | a match reads the same pair from the text as from its first `&`-free piece alone, and what it leaves starts where that piece ends |
| QueryString.MatchAtWithValue | node_modules/url-generator/src/index.js:9 | a piece `key=value`, with `=` and `&` absent from the key and `&` from the value, matches as that key with everything after the first `=` |
| QueryString.MatchAtNoValue | node_modules/url-generator/src/index.js:9 | a piece without `=` matches as that key with the empty value |
| QueryString.Assign | node_modules/url-generator/src/index.js:39 | assigning to the object keeps key order for an existing key and appends a new key; the key then reads the new value and all other keys read as before |
| QueryString.CollectValues | node_modules/url-generator/src/index.js:37-40 | every non-empty key reads the value of its last match; the empty key is never recorded |
| QueryString.CollectKeys | node_modules/url-generator/src/index.js:37-40 | the recorded keys are exactly the non-empty keys of the matches (both directions) |
| QueryString.CollectDistinct | node_modules/url-generator/src/index.js:37-40 | each key is recorded once |
| QueryString.CollectOrder | node_modules/url-generator/src/index.js:37-40 | keys are enumerated in the order of their first appearance |
| QueryString.OnePair | node_modules/url-generator/src/index.js:37-40 | a query of one `key=value` piece gives exactly that pair |
| QueryString.LeadingAmpSkipsFirst | node_modules/url-generator/src/index.js:9 | after a leading `&`, the first pair is skipped and only the second is recorded |
| UrlParse.Scan | node_modules/url-generator/src/index.js:8 | the groups, written back with their delimiters, are a prefix of the input; each group keeps to its character class; the unmatched rest starts where the pattern stops |
| UrlParse.ScanAuthority | node_modules/url-generator/src/index.js:8 | userinfo, host and port re-assemble the text they were read from; the host has no `:/?#`, the port is digits, and without a port the rest starts the path, query or anchor |
| UrlParse.ScanRelative | node_modules/url-generator/src/index.js:8 | path, query and anchor re-assemble the text they were read from; the path holds no `?` or `#` and the query no `#` |
| UrlParse.ParseUrl | node_modules/url-generator/src/index.js:31-42 | `source` is a prefix of the input, and protocol, host, port, path and query keep to their classes |
| UrlParse.ParseRender | node_modules/url-generator/src/index.js:31-42 | for a URL of the restricted grammar, parsing gives back the scheme, host, port (or ""), path, query (or ""), fragment (or "") and the query's keys |
| UrlParse.ParseRenderWhole | node_modules/url-generator/src/index.js:31-36 | for such a URL, `source` is the whole URL, there is no userinfo, and authority and relative are the host-and-port and the rest |
| UrlParse.ScanRender | node_modules/url-generator/src/index.js:8 | the pattern matches a rendered well-formed URL entirely, with the parts it was rendered from |
| UrlParse.NoAtNoCredentials | node_modules/url-generator/src/index.js:8 | without an `@` the userinfo group never matches |
| UrlParse.ProtocolOfRender | node_modules/url-generator/src/index.js:8 | the scheme of a well-formed URL is read as its protocol |
| UrlParse.PortOfRender | node_modules/url-generator/src/index.js:8 | the port of a well-formed URL is read back, and nothing is read when there is none |
| UrlParse.PathOfRender | node_modules/url-generator/src/index.js:8 | the path runs up to the first `?` or `#` |
| UrlParse.QueryOfRender | node_modules/url-generator/src/index.js:8 | the query is the text between `?` and `#` |
| Slugify.Slug | node_modules/url-generator/src/index.js:195-202 | the slug uses only lower-case letters, digits, `_` and `-`, does not start or end with `-` and has no `--` |
| Slugify.SlugKeepsWordChars | node_modules/url-generator/src/index.js:195-202 | the slug keeps every word character of the input, lower-cased and in order, and adds only `-` |
| Slugify.SlugFixedIff | node_modules/url-generator/src/index.js:195-202 | a string is its own slug exactly when it is a valid slug (both directions) |
| Slugify.SlugIdempotent | node_modules/url-generator/src/index.js:195-202 | slugifying twice gives the same as slugifying once |
| Slugify.SlugTwoWords | node_modules/url-generator/src/index.js:195-202 | two words separated by whitespace and followed by punctuation become the lower-cased words joined by one `-` |
| Slugify.DashSpaces | node_modules/url-generator/src/index.js:197 | after the second pass no whitespace is left, and every character is a `-` or one of the input's |
| Slugify.StripNonWord | node_modules/url-generator/src/index.js:198 | after the third pass only word characters and `-` are left, all from the input |
| Slugify.CollapseDashes | node_modules/url-generator/src/index.js:199 | after the fourth pass there is no `--`, the first character is kept, and every character comes from the input |
| Slugify.TrimLeading | node_modules/url-generator/src/index.js:200 | the fifth pass removes only leading dashes, and the result does not start with `-` |
| Slugify.TrimTrailing | node_modules/url-generator/src/index.js:201 | the last pass removes only trailing dashes, and the result does not end with `-` |
| Slugify.Lower | node_modules/url-generator/src/index.js:196 | lower-casing keeps the length and leaves no upper-case letter |
| Slugify.DashSpacesRun | node_modules/url-generator/src/index.js:197 | a run of whitespace becomes one `-` |
| Generator.GetHash | node_modules/url-generator/src/index.js:246-251 | the result is a suffix of the URL; it is empty exactly when the URL has no `#`, and otherwise it starts at the first `#` |
| Generator.GetHashAfter | node_modules/url-generator/src/index.js:246-251 | the fragment after any `#`-free text is found unchanged |
| Generator.MakeSlug | node_modules/url-generator/src/index.js:233-238 | the path comes first; a non-empty slug argument always adds `/`, followed by a valid slug, which may be empty; an empty argument adds nothing |
| Generator.UnshiftParams | node_modules/url-generator/src/index.js:260-267 | the existing keys come first, in reverse order, each as a one-value plain spec, followed by the caller's specs unchanged |
| Generator.UnshiftKeepsCount | node_modules/url-generator/src/index.js:260-267 | the prepended one-value specs do not change the number of combinations |
| Generator.Search | node_modules/url-generator/src/index.js:177-181 | `search` returns as many query strings as the product of the value counts |
| Generator.SearchAt | node_modules/url-generator/src/index.js:177-181 | the query string of a choice is `?` followed by the chosen `key=value` pieces joined with `&` |
| Generator.SearchNoParams | node_modules/url-generator/src/index.js:177-181 | with no parameters `search` returns one empty query string |
| Generator.SearchReadsBack | node_modules/url-generator/src/index.js:177-181 | with `&`/`=`-free keys and `&`-free chosen texts, the pairs matched in a query string are the chosen keys with their chosen texts |
| Generator.QueriesAt | node_modules/url-generator/src/index.js:142-143 | each choice's query string sits at its rank, with only the first `&` turned into `?` |
| Generator.QueriesOnlyChoices | node_modules/url-generator/src/index.js:142-143 | every query string is the query string of some choice |
| Generator.QueriesOrdered | node_modules/url-generator/src/index.js:142-143 | query strings come in the odometer order of their choices |
| Generator.PickIsPieces | node_modules/url-generator/src/index.js:142-143 | a combination of fragments is `&` followed by the chosen pieces joined with `&` |
| Generator.Create | node_modules/url-generator/src/index.js:138-145 | `create` returns as many URLs as the product of the caller's value counts |
| Generator.CreateAt | node_modules/url-generator/src/index.js:138-145 | every created URL is the base, then the query string of its choice, then the fragment of the input URL |
| Generator.ExistingKeysFirst | node_modules/url-generator/src/index.js:141 | the query string starts with the existing pairs in reverse order, each value percent-encoded again |
| Generator.CallerParamsAfter | node_modules/url-generator/src/index.js:141-143 | after the existing pairs come the caller's parameters, each with one of its own values |
| Generator.CreateNoParams | node_modules/url-generator/src/index.js:138-145 | with no parameters and no existing query keys, `create` returns the single base URL with its fragment |
| Generator.CreateIdentity | node_modules/url-generator/src/index.js:213-224 | for a well-formed URL without a query or an empty port, `create` with no parameters and no slug returns that URL |
| Generator.CreateReadsRender | node_modules/url-generator/src/index.js:213-224 | the parts `makeUrl` writes for such a URL, followed by its fragment, give back the URL |
| Generator.BuildAt | node_modules/url-generator/src/index.js:142-143 | the j-th created URL is the base, the j-th query string of the combined specs and the input's fragment |
| Generator.RenderHash | node_modules/url-generator/src/index.js:246-251 | the fragment `getHash` takes from a well-formed URL's text is `#` and its fragment, or nothing when it has none |
| Generator.CreateNoExisting | node_modules/url-generator/src/index.js:138-145 | for a well-formed URL without a query, the j-th URL made for one parameter is its base, `?`, that parameter's j-th `key=value` piece and its fragment |
| Generator.CreateOneExisting | node_modules/url-generator/src/index.js:138-145 | for a well-formed URL whose query is one `key=value` pair, the j-th URL made for one parameter is its base, `?`, that pair with its value encoded again, `&`, the parameter's j-th piece and the fragment |
| Generator.BaseIsHead | node_modules/url-generator/src/index.js:213-220 | with no slug argument, the text before the query is `scheme://host`, then `:port` when the port is non-empty, then the path |
| Scenarios.EncodeSpace | node_modules/url-generator/test/specs/url_generator.spec.js:64-68 | "Hello World" encodes to "Hello%20World" |
| Scenarios.EncodeBraces | node_modules/url-generator/test/specs/url_generator.spec.js:77-93 | "{twitter}" encodes to "%7Btwitter%7D" |
| Scenarios.EncodeTwice | node_modules/url-generator/src/index.js:141 | re-encoding "%20" gives "%2520" |
| Scenarios.SlugHelloWorld | node_modules/url-generator/test/specs/url_generator.spec.js:41-44 | "Hello World" slugifies to "hello-world" |
| Scenarios.SlugDropsPunctuation | node_modules/url-generator/test/specs/url_generator.spec.js:186-201 | "Hello World!?!" slugifies to "hello-world" |
| Scenarios.QueryKeyOnePair | node_modules/url-generator/test/specs/url_generator.spec.js:246-253 | the query "test=true" gives the one pair test → true |
| Scenarios.QueryKeyLeadingAmp | node_modules/url-generator/src/index.js:9 | the query "&a=1&b=2" records only b → 2 |
| Scenarios.ParseGoogle | node_modules/url-generator/test/specs/url_generator.spec.js:246-253 | "http://www.google.com/home?test=true" parses to protocol "http", host "www.google.com", path "/home", query "test=true" and test → true |
| CreateExamples.MapSingleValue | node_modules/url-generator/test/specs/url_generator.spec.js:52-55 | a single "google" value for utm_campaign maps to "&utm_campaign=google" |
| CreateExamples.MapCampaigns | node_modules/url-generator/test/specs/url_generator.spec.js:57-62 | the values google, twitter, facebook map, in that order, to one `&utm_campaign=` fragment each |
| CreateExamples.MapSkipped | node_modules/url-generator/test/specs/url_generator.spec.js:70-75 | with the parameter's skip flag set, "{creativeID}" is written as it is |
| CreateExamples.MapMixedSkipped | node_modules/url-generator/test/specs/url_generator.spec.js:77-93 | an object value with its own skip flag set is written as it is: "&utm_campaign={google}" |
| CreateExamples.MapMixedEncoded | node_modules/url-generator/test/specs/url_generator.spec.js:77-93 | an object value whose own flag is false is encoded: "&utm_campaign=%7Btwitter%7D" |
| CreateExamples.MapMixedNoFlag | node_modules/url-generator/test/specs/url_generator.spec.js:77-93 | an object value with no flag of its own is encoded: "&utm_campaign=%7Bfacebook%7D" |
| CreateExamples.CreatePlain | node_modules/url-generator/test/specs/url_generator.spec.js:123-137 | for "http://www.google.com" the three campaign values give "http://www.google.com?utm_campaign=" and the value, in order |
| CreateExamples.CreateNothing | node_modules/url-generator/test/specs/url_generator.spec.js:139-152 | with no parameters, "http://www.google.com" comes back as the only URL |
| CreateExamples.CreateExistingQuery | node_modules/url-generator/test/specs/url_generator.spec.js:154-168 | the existing "test=true" stays first and each campaign follows it after `&` |
| CreateExamples.CreateKeepsHash | node_modules/url-generator/test/specs/url_generator.spec.js:170-184 | the path "/test" stays and the fragment "#home" moves after the added parameter |
| CreateExamples.CreateWithSlug | node_modules/url-generator/test/specs/url_generator.spec.js:186-201 | a non-empty slug argument puts "/" and its slug between the host and the query ("hello-world" for "Hello World!?!") |
| CreateExamples.CreateLocalhost | node_modules/url-generator/test/specs/url_generator.spec.js:203-219 | the port ":8080" is kept, with the slug after it |
| CreateExamples.SearchCampaigns | node_modules/url-generator/test/specs/url_generator.spec.js:227-238 | `search` on the three campaign values gives "?utm_campaign=" and each value, in order |

## Left out

- The `directory`, `file` and `hash` fields of `parseUrl`. The path is modelled whole. The source never assigns `hash`, because its loop stops at index 13.
- The `async` wrappers of `create` and `search`, and the lazy generator. Both are modelled as pure functions returning a sequence.
- The application's Express handler, the QR-code library, template rendering and the build and test configuration files. These are I/O and foreign calls.
- Slugify.Lower: `toLowerCase` is modelled for ASCII letters only. Other letters are kept as they are.
- QueryString.Collect: integer-like keys are not enumerated before other keys. Keys keep insertion order, which is how JavaScript enumerates non-numeric keys. A key such as `__proto__` is treated as an ordinary key. A key named `hasOwnProperty` (as in `http://h?hasOwnProperty=1`) shadows the method of that name. The source's `query.hasOwnProperty(key)` (node_modules/url-generator/src/index.js:263) then throws a `TypeError` and `create` rejects, while the model returns URLs.
- Generator.UnshiftParams: `params.unshift` changes the caller's array in place. The model returns a new sequence instead. For a query key named `hasOwnProperty`, the source throws at node_modules/url-generator/src/index.js:263; the model does not model that error.
- Values that are not strings are not modelled. A missing slug argument is the empty string.
- Percent.EncodeUriComponent: lone surrogates, which make the source throw `URIError`, cannot occur in a Dafny string.
- The usage examples in the doc comments of `create` and `search` are not modelled. They list the same URL three times, which the library's tests contradict.
