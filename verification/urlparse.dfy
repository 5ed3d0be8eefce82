/** `parseUrl`: the parseUri pattern applied to a URL, followed by the
    `queryKey` extraction.

    The pattern is anchored at the start, and every group after the protocol
    is optional with no end anchor, so the first greedy choice at each step
    always leads to a match. The pattern therefore behaves as a left-to-right
    scanner: each stage takes the longest run its character class allows and
    hands the rest on. The one place that looks ahead is the protocol, which
    is skipped when the input starts like `user:password@`. */
module UrlParse {
  import opened Wrappers
  import opened Strings
  import opened QueryString

  // ----- character classes of the pattern -----

  /** `[^:\/?#.]`, the protocol. */
  predicate IsSchemeChar(c: char) {
    c != ':' && c != '/' && c != '?' && c != '#' && c != '.'
  }

  /** `[^:@]`, the user and the password. */
  predicate IsUserChar(c: char) {
    c != ':' && c != '@'
  }

  /** `[^:@\/]`, the password in the protocol's lookahead. */
  predicate IsLookChar(c: char) {
    c != ':' && c != '@' && c != '/'
  }

  /** `[^:\/?#]`, the host. */
  predicate IsHostChar(c: char) {
    c != ':' && c != '/' && c != '?' && c != '#'
  }

  /** `\d` */
  predicate IsDigit(c: char) {
    '0' <= c <= '9'
  }

  /** `[^?#]`, a path that starts with `/`. */
  predicate IsPathChar(c: char) {
    c != '?' && c != '#'
  }

  /** `[^?#\/]`, a path that does not start with `/` (the file group alone). */
  predicate IsFileChar(c: char) {
    c != '?' && c != '#' && c != '/'
  }

  /** `.`: any character but a line terminator. */
  predicate IsAnchorChar(c: char) {
    c != '\n' && c != '\r' && c != '\U{2028}' && c != '\U{2029}'
  }

  predicate All(s: string, ok: char -> bool) {
    forall k :: 0 <= k < |s| ==> ok(s[k])
  }

  // ----- what the pattern captures -----

  /** The `user(:password)?@` group. */
  datatype Credentials = Credentials(user: string, password: Option<string>)

  /** The groups of one match; None where a group did not take part. */
  datatype Match = Match(
    protocol: Option<string>,
    slashes: bool,
    credentials: Option<Credentials>,
    host: string,
    port: Option<string>,
    path: string,
    query: Option<string>,
    anchor: Option<string>)

  /** `prefix + x` when the group matched `x`, otherwise nothing. */
  function Opt(prefix: string, o: Option<string>): string {
    match o
    case None => []
    case Some(x) => prefix + x
  }

  /** The userInfo group: the user, then `:` and the password if there is one. */
  function UserInfoText(c: Credentials): string {
    c.user + Opt(":", c.password)
  }

  /** The userinfo text with its `@`, or nothing. */
  function CredentialsText(c: Option<Credentials>): string {
    match c case None => [] case Some(x) => UserInfoText(x) + "@"
  }

  /** The relative group: path, `?query`, `#anchor`. */
  function RelativeText(m: Match): string {
    m.path + Opt("?", m.query) + Opt("#", m.anchor)
  }

  /** The authority group: `userInfo@`, host, `:port`. */
  function AuthorityText(m: Match): string {
    CredentialsText(m.credentials) + m.host + Opt(":", m.port)
  }

  /** The protocol group with its `:`, or nothing. */
  function ProtocolText(o: Option<string>): string {
    match o case None => [] case Some(p) => p + ":"
  }

  function SlashesText(b: bool): string {
    if b then "//" else []
  }

  /** The whole matched text. */
  function Text(m: Match): string {
    ProtocolText(m.protocol) + SlashesText(m.slashes) + AuthorityText(m) + RelativeText(m)
  }

  // ----- the stages of the scan -----

  /** The greedy run of a class keeps to the class. */
  lemma SpanAll(s: string, ok: char -> bool)
    ensures All(Span(s, ok).0, ok)
  {
  }

  /** `s` split at a mark `c` that starts `b`, where `a + b == s`. */
  lemma AtMark(s: string, a: string, b: string, c: char)
    requires a + b == s && b != [] && b[0] == c
    ensures s == a + [c] + b[1..]
  {
    assert b == [c] + b[1..];
  }

  /** A mark `c`, then the greedy run of a class, then the rest. */
  lemma MarkThenSpan(s: string, c: char, ok: char -> bool)
    requires s != [] && s[0] == c
    ensures s == [c] + Span(s[1..], ok).0 + Span(s[1..], ok).1
    ensures All(Span(s[1..], ok).0, ok)
  {
    var d := Span(s[1..], ok);
    Cons(s, d.0, d.1);
    SpanAll(s[1..], ok);
  }

  /** A mark `c`, then everything up to `stop`, then the rest. */
  lemma MarkThenUntil(s: string, c: char, stop: char)
    requires s != [] && s[0] == c
    ensures s == [c] + Until(s[1..], stop).0 + Until(s[1..], stop).1
  {
    var d := Until(s[1..], stop);
    Cons(s, d.0, d.1);
  }

  /** The lookahead `(?![^:@]+:[^:@\/]*@)` holds when this is false: the
      input starts with a non-empty user, `:`, a slash-free password and `@`. */
  predicate LooksLikeUserInfo(s: string) {
    var x := Span(s, IsUserChar);
    x.0 != [] && x.1 != [] && x.1[0] == ':' &&
    var y := Span(x.1[1..], IsLookChar);
    y.1 != [] && y.1[0] == '@'
  }

  /** `(?:(?!…)([^:\/?#.]+):)?` */
  function ProtocolPart(s: string): (r: (Option<string>, string))
    ensures s == ProtocolText(r.0) + r.1
    ensures r.0.Some? ==> r.0.value != [] && All(r.0.value, IsSchemeChar)
  {
    if LooksLikeUserInfo(s) then (None, s)
    else
      var p := Span(s, IsSchemeChar);
      if p.0 != [] && p.1 != [] && p.1[0] == ':' then
        AtMark(s, p.0, p.1, ':');
        SpanAll(s, IsSchemeChar);
        (Some(p.0), p.1[1..])
      else (None, s)
  }

  /** `(?:\/\/)?` */
  function SlashesPart(s: string): (r: (bool, string))
    ensures s == SlashesText(r.0) + r.1
  {
    if |s| >= 2 && s[0] == '/' && s[1] == '/' then
      assert s == "//" + s[2..];
      (true, s[2..])
    else (false, s)
  }

  lemma UserOnlyText(user: string)
    ensures CredentialsText(Some(Credentials(user, None))) == user + "@"
  {
    assert user + [] == user;
  }

  lemma UserPasswordText(user: string, password: string)
    ensures CredentialsText(Some(Credentials(user, Some(password)))) == user + ":" + password + "@"
  {
  }

  /** The `:password@` continuation after a user, when an `@` ends it. */
  function PasswordPart(s: string, user: string, t: string): (r: (Option<Credentials>, string))
    requires s == user + ":" + t && All(user, IsUserChar)
    ensures s == CredentialsText(r.0) + r.1
    ensures r.0.Some? ==> r.0.value.user == user && All(r.0.value.password.GetOr([]), IsUserChar)
  {
    var p := Span(t, IsUserChar);
    if p.1 != [] && p.1[0] == '@' then
      AtMark(t, p.0, p.1, '@');
      SpanAll(t, IsUserChar);
      UserPasswordText(user, p.0);
      Tile3(s, user + ":", t, p.0, p.1, "@", p.1[1..]);
      (Some(Credentials(user, Some(p.0))), p.1[1..])
    else (None, s)
  }

  /** `(?:(([^:@]*)(?::([^:@]*))?)?@)?`: taken only when an `@` ends it. */
  function CredentialsPart(s: string): (r: (Option<Credentials>, string))
    ensures s == CredentialsText(r.0) + r.1
    ensures r.0.Some? ==> All(r.0.value.user, IsUserChar) && All(r.0.value.password.GetOr([]), IsUserChar)
  {
    var u := Span(s, IsUserChar);
    SpanAll(s, IsUserChar);
    if u.1 != [] && u.1[0] == '@' then
      AtMark(s, u.0, u.1, '@');
      UserOnlyText(u.0);
      (Some(Credentials(u.0, None)), u.1[1..])
    else if u.1 != [] && u.1[0] == ':' then
      AtMark(s, u.0, u.1, ':');
      PasswordPart(s, u.0, u.1[1..])
    else (None, s)
  }

  /** `(?::(\d*))?`: a `:` is taken even when no digit follows it. */
  function PortPart(s: string): (r: (Option<string>, string))
    ensures s == Opt(":", r.0) + r.1
    ensures r.0.Some? ==> All(r.0.value, IsDigit)
    ensures r.0.None? <==> s == [] || s[0] != ':'
  {
    if s != [] && s[0] == ':' then
      MarkThenSpan(s, ':', IsDigit);
      var d := Span(s[1..], IsDigit);
      (Some(d.0), d.1)
    else (None, s)
  }

  /** The path group: directory then file. A directory starts with `/` and
      the two together then run to the first `?` or `#`; without one the
      file alone cannot cross a `/`. */
  function PathPart(s: string): (r: (string, string))
    ensures r.0 + r.1 == s
    ensures NotIn('?', r.0) && NotIn('#', r.0)
    ensures r.0 == [] || r.0[0] == '/' || NotIn('/', r.0)
    ensures r.1 == [] || r.1[0] == '?' || r.1[0] == '#' || (r.1[0] == '/' && (r.0 == [] || r.0[0] != '/'))
  {
    if s != [] && s[0] == '/' then Span(s, IsPathChar) else Span(s, IsFileChar)
  }

  /** `(?:\?([^#]*))?` */
  function QueryPart(s: string): (r: (Option<string>, string))
    ensures s == Opt("?", r.0) + r.1
    ensures r.0.Some? ==> NotIn('#', r.0.value) && (r.1 == [] || r.1[0] == '#')
    ensures r.0.None? <==> s == [] || s[0] != '?'
  {
    if s != [] && s[0] == '?' then
      MarkThenUntil(s, '?', '#');
      var q := Until(s[1..], '#');
      (Some(q.0), q.1)
    else (None, s)
  }

  /** `(?:#(.*))?` */
  function AnchorPart(s: string): (r: (Option<string>, string))
    ensures s == Opt("#", r.0) + r.1
    ensures r.0.Some? ==> All(r.0.value, IsAnchorChar) && (r.1 == [] || !IsAnchorChar(r.1[0]))
    ensures r.0.None? <==> s == [] || s[0] != '#'
  {
    if s != [] && s[0] == '#' then
      MarkThenSpan(s, '#', IsAnchorChar);
      var a := Span(s[1..], IsAnchorChar);
      (Some(a.0), a.1)
    else (None, s)
  }

  lemma Tile(url: string, a: string, s1: string, b: string, s2: string, c: string, s3: string, d: string, rest: string)
    requires url == a + s1 && s1 == b + s2 && s2 == c + s3 && s3 == d + rest
    ensures url == a + b + c + d + rest
  {
  }

  lemma Tile3(s: string, a: string, s1: string, b: string, s2: string, c: string, rest: string)
    requires s == a + s1 && s1 == b + s2 && s2 == c + rest
    ensures s == a + b + c + rest
  {
  }

  /** The authority groups and the text after them. */
  datatype AuthorityScan = AuthorityScan(credentials: Option<Credentials>, host: string, port: Option<string>, rest: string)

  /** Userinfo, host and port, read from the text after the slashes. */
  function ScanAuthority(s: string): (r: AuthorityScan)
    ensures CredentialsText(r.credentials) + r.host + Opt(":", r.port) + r.rest == s
    ensures All(r.host, IsHostChar)
    ensures r.port.Some? ==> All(r.port.value, IsDigit)
    ensures r.port.None? ==> r.rest == [] || r.rest[0] == '/' || r.rest[0] == '?' || r.rest[0] == '#'
  {
    var c := CredentialsPart(s);
    var h := Span(c.1, IsHostChar);
    var p := PortPart(h.1);
    assert h.1 == [] || !IsHostChar(h.1[0]);
    Tile3(s, CredentialsText(c.0), c.1, h.0, h.1, Opt(":", p.0), p.1);
    AuthorityScan(c.0, h.0, p.0, p.1)
  }

  /** The relative groups and the text after them. */
  datatype RelativeScan = RelativeScan(path: string, query: Option<string>, anchor: Option<string>, rest: string)

  /** Path, query and anchor, read from the text after the port. */
  function ScanRelative(s: string): (r: RelativeScan)
    ensures r.path + Opt("?", r.query) + Opt("#", r.anchor) + r.rest == s
    ensures NotIn('?', r.path) && NotIn('#', r.path)
    ensures r.query.Some? ==> NotIn('#', r.query.value)
    ensures r.anchor.Some? ==> All(r.anchor.value, IsAnchorChar)
    ensures r.rest == [] || (r.anchor.Some? && !IsAnchorChar(r.rest[0]))
                         || (r.anchor.None? && r.query.None? && r.rest[0] == '/' && (r.path == [] || r.path[0] != '/'))
  {
    var p := PathPart(s);
    var q := QueryPart(p.1);
    var a := AnchorPart(q.1);
    Tile3(s, p.0, p.1, Opt("?", q.0), q.1, Opt("#", a.0), a.1);
    RelativeScan(p.0, q.0, a.0, a.1)
  }

  /** The match of the pattern against `url`, and the text after it. The
      groups tile the matched text in order, the match is a prefix of the
      input, and it stops early only at a line terminator inside the anchor
      or at a `/` after a path that did not start with one. */
  function Scan(url: string): (r: (Match, string))
    ensures Text(r.0) + r.1 == url
    ensures r.0.protocol.Some? ==> r.0.protocol.value != [] && All(r.0.protocol.value, IsSchemeChar)
    ensures All(r.0.host, IsHostChar)
    ensures r.0.port.Some? ==> All(r.0.port.value, IsDigit)
    ensures NotIn('?', r.0.path) && NotIn('#', r.0.path)
    ensures r.0.query.Some? ==> NotIn('#', r.0.query.value)
    ensures r.0.anchor.Some? ==> All(r.0.anchor.value, IsAnchorChar)
    ensures r.1 == [] || (r.0.anchor.Some? && !IsAnchorChar(r.1[0]))
                      || (r.0.anchor.None? && r.0.query.None? && r.1[0] == '/')
  {
    var p := ProtocolPart(url);
    var s := SlashesPart(p.1);
    var a := ScanAuthority(s.1);
    var b := ScanRelative(a.rest);
    var m := Match(p.0, s.0, a.credentials, a.host, a.port, b.path, b.query, b.anchor);
    Tile(url, ProtocolText(p.0), p.1, SlashesText(s.0), s.1, AuthorityText(m), a.rest, RelativeText(m), b.rest);
    (m, b.rest)
  }

  // ----- the parsed object -----

  /** The object `parseUrl` returns. Every field is a string, "" where its
      group did not take part. (The `directory` and `file` groups are not
      part of this model; `hash` is never assigned.) */
  datatype ParsedUrl = ParsedUrl(
    source: string,
    protocol: string,
    authority: string,
    userInfo: string,
    user: string,
    password: string,
    host: string,
    port: string,
    relative: string,
    path: string,
    query: string,
    anchor: string,
    queryKey: seq<Pair>)

  /** `uri[key[i]] = match[i] || ''` for every group, then the `queryKey`
      object built from the query field. */
  function Fields(m: Match): ParsedUrl {
    var c := m.credentials;
    ParsedUrl(
      Text(m),
      m.protocol.GetOr([]),
      AuthorityText(m),
      match c case None => [] case Some(x) => UserInfoText(x),
      match c case None => [] case Some(x) => x.user,
      match c case None => [] case Some(x) => x.password.GetOr([]),
      m.host,
      m.port.GetOr([]),
      RelativeText(m),
      m.path,
      m.query.GetOr([]),
      m.anchor.GetOr([]),
      QueryKey(m.query.GetOr([])))
  }

  /** `parseUrl(url)`: the source is the matched prefix of the input, and
      each field keeps to its group's character class. */
  function ParseUrl(url: string): (r: ParsedUrl)
    ensures |r.source| <= |url| && url[..|r.source|] == r.source
    ensures All(r.protocol, IsSchemeChar) && All(r.host, IsHostChar) && All(r.port, IsDigit)
    ensures NotIn('?', r.path) && NotIn('#', r.path) && NotIn('#', r.query)
  {
    Fields(Scan(url).0)
  }

  // ----- the restricted grammar `scheme://host[:digits][path][?query][#fragment]` -----

  /** The pieces of a URL without userinfo. */
  datatype UrlParts = UrlParts(
    scheme: string,
    host: string,
    port: Option<string>,
    path: string,
    query: Option<string>,
    fragment: Option<string>)

  /** Each piece stays within its character class and no `@` appears
      anywhere; a path is empty or starts with `/`. */
  predicate WellFormed(u: UrlParts) {
    && u.scheme != [] && All(u.scheme, IsSchemeChar) && NotIn('@', u.scheme)
    && All(u.host, IsHostChar) && NotIn('@', u.host)
    && (u.port.Some? ==> All(u.port.value, IsDigit))
    && (u.path == [] || u.path[0] == '/')
    && NotIn('?', u.path) && NotIn('#', u.path) && NotIn('@', u.path)
    && (u.query.Some? ==> NotIn('#', u.query.value) && NotIn('@', u.query.value))
    && (u.fragment.Some? ==> All(u.fragment.value, IsAnchorChar) && NotIn('@', u.fragment.value))
  }

  function Render(u: UrlParts): string {
    u.scheme + "://" + u.host + AfterHost(u)
  }

  /** The text after the host. */
  function AfterHost(u: UrlParts): string {
    Opt(":", u.port) + Relative(u)
  }

  /** The text after the port. */
  function Relative(u: UrlParts): string {
    u.path + Opt("?", u.query) + Opt("#", u.fragment)
  }

  lemma NotInOpt(c: char, prefix: string, o: Option<string>)
    requires NotIn(c, prefix) && (o.Some? ==> NotIn(c, o.value))
    ensures NotIn(c, Opt(prefix, o))
  {
    if o.Some? {
      NotInAppend(c, prefix, o.value);
    }
  }

  lemma AfterHostNoAt(u: UrlParts)
    requires WellFormed(u)
    ensures NotIn('@', AfterHost(u))
  {
    if u.port.Some? {
      assert forall k :: 0 <= k < |u.port.value| ==> IsDigit(u.port.value[k]);
    }
    NotInOpt('@', ":", u.port);
    NotInOpt('@', "?", u.query);
    NotInOpt('@', "#", u.fragment);
    NotInAppend('@', Opt(":", u.port), u.path);
    NotInAppend('@', Opt(":", u.port) + u.path, Opt("?", u.query));
    NotInAppend('@', Opt(":", u.port) + u.path + Opt("?", u.query), Opt("#", u.fragment));
  }

  /** Without an `@` there is no userinfo. */
  lemma NoAtNoCredentials(s: string)
    requires NotIn('@', s)
    ensures CredentialsPart(s) == (None, s)
  {
    var u := Span(s, IsUserChar);
    if u.1 != [] {
      assert u.1[0] == s[|u.0|];
      if u.1[0] == ':' {
        var p := Span(u.1[1..], IsUserChar);
        if p.1 != [] {
          assert p.1[0] == s[|u.0| + 1 + |p.0|];
        }
      }
    }
  }

  /** A scheme, `:` and then `/` is read as that protocol. */
  lemma ProtocolOfScheme(scheme: string, t: string)
    requires scheme != [] && All(scheme, IsSchemeChar) && NotIn('@', scheme)
    requires t != [] && t[0] == '/'
    ensures ProtocolPart(scheme + ":" + t) == (Some(scheme), t)
  {
    var s := scheme + ":" + t;
    assert s == scheme + (":" + t);
    assert All(scheme, IsUserChar);
    SpanOf(scheme, ":" + t, IsUserChar);
    assert (":" + t)[1..] == t;
    SpanOf([], t, IsLookChar);
    assert [] + t == t;
    SpanOf(scheme, ":" + t, IsSchemeChar);
  }

  /** The scheme is taken as the protocol. */
  lemma ProtocolOfRender(u: UrlParts)
    requires WellFormed(u)
    ensures ProtocolPart(Render(u)) == (Some(u.scheme), "//" + u.host + AfterHost(u))
  {
    var t := "//" + u.host + AfterHost(u);
    assert Render(u) == u.scheme + ":" + t;
    ProtocolOfScheme(u.scheme, t);
  }

  /** The host runs to the port, the path, the query, the fragment or the end. */
  lemma HostOfRender(u: UrlParts)
    requires WellFormed(u)
    ensures Span(u.host + AfterHost(u), IsHostChar) == (u.host, AfterHost(u))
  {
    var a := AfterHost(u);
    if a != [] {
      if u.port.Some? {
        assert a[0] == ':';
      } else if u.path != [] {
        assert a[0] == '/';
      } else if u.query.Some? {
        assert a[0] == '?';
      } else {
        assert a[0] == '#';
      }
    }
    SpanOf(u.host, a, IsHostChar);
  }

  lemma RelativeHead(u: UrlParts)
    requires WellFormed(u)
    ensures Relative(u) == [] || Relative(u)[0] == '/' || Relative(u)[0] == '?' || Relative(u)[0] == '#'
  {
    var qf := Opt("?", u.query) + Opt("#", u.fragment);
    assert Relative(u) == u.path + qf;
    if u.path == [] {
      assert Relative(u) == qf;
    }
  }

  lemma PortOfRender(u: UrlParts)
    requires WellFormed(u)
    ensures PortPart(AfterHost(u)) == (u.port, Relative(u))
  {
    var rel := Relative(u);
    RelativeHead(u);
    if u.port.Some? {
      var d := u.port.value;
      assert AfterHost(u) == ":" + (d + rel);
      SpanOf(d, rel, IsDigit);
    } else {
      assert AfterHost(u) == rel;
    }
  }

  lemma PathOfRender(u: UrlParts)
    requires WellFormed(u)
    ensures PathPart(Relative(u)) == (u.path, Opt("?", u.query) + Opt("#", u.fragment))
  {
    var qf := Opt("?", u.query) + Opt("#", u.fragment);
    assert Relative(u) == u.path + qf;
    assert qf == [] || qf[0] == '?' || qf[0] == '#';
    if u.path != [] {
      assert Relative(u)[0] == '/';
      SpanOf(u.path, qf, IsPathChar);
    } else {
      assert Relative(u) == qf;
      SpanOf([], qf, IsFileChar);
      assert [] + qf == qf;
    }
  }

  lemma QueryOfRender(u: UrlParts)
    requires WellFormed(u)
    ensures QueryPart(Opt("?", u.query) + Opt("#", u.fragment)) == (u.query, Opt("#", u.fragment))
  {
    var f := Opt("#", u.fragment);
    assert f == [] || f[0] == '#';
    if u.query.Some? {
      var q := u.query.value;
      assert Opt("?", u.query) + f == "?" + (q + f);
      UntilOf(q, f, '#');
    } else {
      assert Opt("?", u.query) + f == f;
    }
  }

  lemma AnchorOfRender(u: UrlParts)
    requires WellFormed(u)
    ensures AnchorPart(Opt("#", u.fragment)) == (u.fragment, [])
  {
    if u.fragment.Some? {
      var f := u.fragment.value;
      assert Opt("#", u.fragment) == "#" + (f + []);
      SpanOf(f, [], IsAnchorChar);
    }
  }

  /** On the restricted grammar the pattern takes every piece apart exactly,
      with no userinfo and nothing left over. */
  lemma ScanRender(u: UrlParts)
    requires WellFormed(u)
    ensures Scan(Render(u)) == (MatchOf(u), [])
  {
    var url := Render(u);
    ProtocolOfRender(u);
    var s1 := "//" + (u.host + AfterHost(u));
    assert s1 == "//" + u.host + AfterHost(u);
    assert s1[0] == '/' && s1[1] == '/' && s1[2..] == u.host + AfterHost(u);
    AfterHostNoAt(u);
    NotInAppend('@', u.host, AfterHost(u));
    NoAtNoCredentials(u.host + AfterHost(u));
    HostOfRender(u);
    PortOfRender(u);
    PathOfRender(u);
    QueryOfRender(u);
    AnchorOfRender(u);
  }

  /** The match `parseUrl` finds on the restricted grammar. */
  function MatchOf(u: UrlParts): Match {
    Match(Some(u.scheme), true, None, u.host, u.port, u.path, u.query, u.fragment)
  }

  lemma ParseIsFields(u: UrlParts)
    requires WellFormed(u)
    ensures ParseUrl(Render(u)) == Fields(MatchOf(u))
  {
    ScanRender(u);
  }

  /** `parseUrl` on the restricted grammar: protocol, host, port, path, query
      and anchor are the pieces, each empty when absent. */
  lemma ParseRender(u: UrlParts)
    requires WellFormed(u)
    ensures var r := ParseUrl(Render(u));
      && r.protocol == u.scheme
      && r.host == u.host
      && r.port == u.port.GetOr([])
      && r.path == u.path
      && r.query == u.query.GetOr([])
      && r.anchor == u.fragment.GetOr([])
      && r.queryKey == QueryKey(u.query.GetOr([]))
  {
    ParseIsFields(u);
  }

  /** On the restricted grammar the source is the whole URL, there is no
      userinfo, and authority and relative are the text around the path. */
  lemma ParseRenderWhole(u: UrlParts)
    requires WellFormed(u)
    ensures var r := ParseUrl(Render(u));
      && r.source == Render(u)
      && r.userInfo == [] && r.user == [] && r.password == []
      && r.authority == u.host + Opt(":", u.port)
      && r.relative == Relative(u)
  {
    ParseIsFields(u);
    TextOfMatch(u);
  }

  lemma TextOfMatch(u: UrlParts)
    ensures Text(MatchOf(u)) == Render(u)
    ensures AuthorityText(MatchOf(u)) == u.host + Opt(":", u.port)
    ensures RelativeText(MatchOf(u)) == Relative(u)
  {
    var m := MatchOf(u);
    var a, h, o, r := u.scheme, u.host, Opt(":", u.port), Relative(u);
    assert ProtocolText(m.protocol) == a + ":";
    assert SlashesText(m.slashes) == "//";
    assert AuthorityText(m) == [] + h + o == h + o;
    assert RelativeText(m) == r;
    Regroup(a, h, o, r);
  }

  lemma Regroup(a: string, h: string, o: string, r: string)
    ensures (a + ":") + "//" + (h + o) + r == a + "://" + h + (o + r)
  {
    assert (a + ":") + "//" == a + "://";
  }
}
