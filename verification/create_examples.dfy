/** The parameter lists and URLs the library's own examples use, with the
    fragments, query strings and URLs the model produces for them. */
module CreateExamples {
  import opened Wrappers
  import opened Strings
  import opened Percent
  import opened Params
  import opened QueryString
  import opened UrlParse
  import opened Cartesian
  import opened Generator
  import opened Scenarios
  import opened Slugify

  // ----- parameters -----

  /** One key with three plain values. */
  function Campaigns(): ParamSpec {
    ParamSpec("utm_campaign", Many([Raw("google"), Raw("twitter"), Raw("facebook")]), None)
  }

  function Campaign(j: nat): string
    requires j < 3
  {
    ["google", "twitter", "facebook"][j]
  }

  lemma CampaignUnreserved(j: nat)
    requires j < 3
    ensures forall k :: 0 <= k < |Campaign(j)| ==> IsUnreserved(Campaign(j)[k])
  {
    if j == 0 {
      assert Campaign(j) == "google";
    } else if j == 1 {
      assert Campaign(j) == "twitter";
    } else {
      assert Campaign(j) == "facebook";
    }
  }

  /** The `j`-th value of the campaign parameter is written as it is. */
  lemma CampaignPiece(j: nat)
    requires j < 3
    ensures ValueCount(Campaigns()) == 3
    ensures Piece(Campaigns(), j) == "utm_campaign=" + Campaign(j)
  {
    var c := Campaign(j);
    assert Elements(Campaigns().value)[j] == Raw(c);
    assert ValueText(Raw(c), Campaigns()) == c by {
      CampaignUnreserved(j);
      Unreserved(c);
    }
    PieceOf(Campaigns(), j, c);
    CampaignText();
  }

  /** The piece of a plain value that is written as it is. */
  lemma PieceOf(p: ParamSpec, j: nat, t: string)
    requires j < ValueCount(p) && ValueText(Elements(p.value)[j], p) == t
    ensures Piece(p, j) == p.key + "=" + t
  {
  }

  /** `mapValues` on one parameter: one list, one fragment per value, each
      `&` before the value's piece. */
  lemma MapOne(p: ParamSpec, j: nat)
    requires j < ValueCount(p)
    ensures |MapValues([p])| == 1 && |MapValues([p])[0]| == ValueCount(p)
    ensures MapValues([p])[0][j] == "&" + Piece(p, j)
  {
  }

  /** `mapValues` on the campaign parameter: one list of three fragments. */
  lemma MapCampaigns(j: nat)
    requires j < 3
    ensures |MapValues([Campaigns()])| == 1 && |MapValues([Campaigns()])[0]| == 3
    ensures MapValues([Campaigns()])[0][j] == "&utm_campaign=" + Campaign(j)
  {
    CampaignText();
    CampaignPiece(j);
    MapOne(Campaigns(), j);
    Prepend("&", "utm_campaign=", "&utm_campaign=", Campaign(j));
  }

  lemma Append3(a: string, b: string, c: string, abc: string, v: string)
    requires a + b + c == abc
    ensures a + b + c + v == abc + v
  {
  }

  /** A single value, not in an array, gives one fragment. */
  lemma MapSingleValue()
    ensures |MapValues([ParamSpec("utm_campaign", One(Raw("google")), None)])| == 1
    ensures MapValues([ParamSpec("utm_campaign", One(Raw("google")), None)])[0] == ["&utm_campaign=google"]
  {
    var p := ParamSpec("utm_campaign", One(Raw("google")), None);
    assert ValueText(Raw("google"), p) == "google" by {
      CampaignUnreserved(0);
      Unreserved(Campaign(0));
    }
    FragmentText("google", "&utm_campaign=google");
  }

  lemma FragmentText(v: string, f: string)
    requires "&utm_campaign=" + v == f
    ensures Fragment("utm_campaign", v) == f
  {
    CampaignText();
  }

  /** The parameter's skip flag keeps a placeholder as it is. */
  lemma MapSkipped()
    ensures |MapValues([ParamSpec("utm_campaign", One(Raw("{creativeID}")), Some(true))])| == 1
    ensures MapValues([ParamSpec("utm_campaign", One(Raw("{creativeID}")), Some(true))])[0] ==
            ["&utm_campaign={creativeID}"]
  {
    FragmentText("{creativeID}", "&utm_campaign={creativeID}");
  }

  /** Values with their own flags: skipped, not skipped, and no flag. */
  function Mixed(): ParamSpec {
    ParamSpec("utm_campaign",
      Many([WithOpts("{google}", Some(true)), WithOpts("{twitter}", Some(false)), WithOpts("{facebook}", None)]),
      None)
  }

  lemma EncodeFacebook()
    ensures EncodeUriComponent("{facebook}") == "%7Bfacebook%7D"
  {
    EncodeWrapped("{", "facebook", "}", 7, 11, 7, 13);
    FacebookText();
  }

  lemma FacebookText()
    ensures "{" + "facebook" + "}" == "{facebook}"
    ensures ['%', HexDigit(7), HexDigit(11)] + "facebook" + ['%', HexDigit(7), HexDigit(13)] == "%7Bfacebook%7D"
  {
  }

  /** A value whose own flag is true is written as it is. */
  lemma MapMixedSkipped()
    ensures |MapValues([Mixed()])| == 1 && |MapValues([Mixed()])[0]| == 3
    ensures MapValues([Mixed()])[0][0] == "&utm_campaign={google}"
  {
    assert Piece(Mixed(), 0) == "utm_campaign" + "=" + "{google}";
    MapOne(Mixed(), 0);
    GoogleFragment();
    KeyText("{google}", "&utm_campaign={google}");
  }

  /** A value whose own flag is false is encoded. */
  lemma MapMixedEncoded()
    ensures |MapValues([Mixed()])| == 1 && |MapValues([Mixed()])[0]| == 3
    ensures MapValues([Mixed()])[0][1] == "&utm_campaign=%7Btwitter%7D"
  {
    assert Piece(Mixed(), 1) == "utm_campaign" + "=" + "%7Btwitter%7D" by {
      EncodeBraces();
    }
    MapOne(Mixed(), 1);
    TwitterFragment();
    KeyText("%7Btwitter%7D", "&utm_campaign=%7Btwitter%7D");
  }

  /** A value without its own flag is encoded; the parameter's flag does
      not apply to it. */
  lemma MapMixedNoFlag()
    ensures |MapValues([Mixed()])| == 1 && |MapValues([Mixed()])[0]| == 3
    ensures MapValues([Mixed()])[0][2] == "&utm_campaign=%7Bfacebook%7D"
  {
    assert Piece(Mixed(), 2) == "utm_campaign" + "=" + "%7Bfacebook%7D" by {
      EncodeFacebook();
    }
    MapOne(Mixed(), 2);
    FacebookFragment();
    KeyText("%7Bfacebook%7D", "&utm_campaign=%7Bfacebook%7D");
  }

  lemma GoogleFragment()
    ensures "&utm_campaign=" + "{google}" == "&utm_campaign={google}"
  {
  }

  lemma TwitterFragment()
    ensures "&utm_campaign=" + "%7Btwitter%7D" == "&utm_campaign=%7Btwitter%7D"
  {
  }

  lemma FacebookFragment()
    ensures "&utm_campaign=" + "%7Bfacebook%7D" == "&utm_campaign=%7Bfacebook%7D"
  {
  }

  /** The fragment text for a value written after the campaign key. */
  lemma KeyText(v: string, f: string)
    requires "&utm_campaign=" + v == f
    ensures "&" + ("utm_campaign" + "=" + v) == f
  {
    CampaignText();
  }

  /** `search` on the campaign parameter. */
  lemma SearchCampaigns(j: nat)
    requires j < 3
    ensures |Search([Campaigns()])| == 3
    ensures Search([Campaigns()])[j] == "?utm_campaign=" + Campaign(j)
  {
    CampaignPiece(j);
    QueryOfOne(Campaigns(), j);
    CampaignText();
    Prepend("?", "utm_campaign=", "?utm_campaign=", Campaign(j));
  }

  lemma CampaignText()
    ensures "?" + "utm_campaign=" == "?utm_campaign="
    ensures "&" + "utm_campaign" + "=" == "&utm_campaign="
    ensures "&" + "utm_campaign=" == "&utm_campaign="
    ensures "utm_campaign" + "=" == "utm_campaign="
  {
  }

  lemma Prepend(a: string, b: string, ab: string, c: string)
    requires a + b == ab
    ensures a + (b + c) == ab + c
  {
  }

  // ----- create -----

  /** `create` with the campaign parameter on a URL whose query is
      `test=true`: the existing pair comes first, then the campaign value. */
  lemma CreateCampaigns(u: UrlParts, str: string, j: nat)
    requires WellFormed(u) && u.port != Some([]) && u.query == Some("test=true") && j < 3
    ensures j < |Create(Render(u), [Campaigns()], str)|
    ensures Create(Render(u), [Campaigns()], str)[j] ==
            u.scheme + "://" + u.host + Opt(":", u.port) + MakeSlug(u.path, str)
            + "?test=true&utm_campaign=" + Campaign(j) + Opt("#", u.fragment)
  {
    Scenarios.QueryText();
    GlueText();
    assert "test" != [] && forall k :: 0 <= k < 4 ==> IsKeyChar("test"[k]);
    assert NotIn('&', "true");
    assert EncodeUriComponent("true") == "true" by {
      assert forall k :: 0 <= k < 4 ==> IsUnreserved("true"[k]);
      Unreserved("true");
    }
    CampaignPiece(j);
    CreateOneExisting(u, "test", "true", Campaigns(), j, str);
    Glue(u.scheme + "://" + u.host + Opt(":", u.port) + MakeSlug(u.path, str), Campaign(j), Opt("#", u.fragment));
  }

  lemma GlueText()
    ensures "?" + "test" + "=" + "true" + "&" + "utm_campaign=" == "?test=true&utm_campaign="
  {
  }

  lemma Glue(x: string, c: string, h: string)
    ensures x + "?" + "test" + "=" + "true" + "&" + ("utm_campaign=" + c) + h ==
            x + "?test=true&utm_campaign=" + c + h
  {
    GlueText();
  }

  lemma Finish(p: string, q: string, pq: string, c: string, h: string)
    requires p + q == pq
    ensures p + q + c + h == pq + c + h
  {
  }

  // ----- the URLs -----

  function Plain(): UrlParts {
    UrlParts("http", "www.google.com", None, "", None, None)
  }

  function WithQuery(): UrlParts {
    UrlParts("http", "www.google.com", None, "", Some("test=true"), None)
  }

  function WithHash(): UrlParts {
    UrlParts("http", "www.google.com", None, "/test", Some("test=true"), Some("home"))
  }

  function Localhost(): UrlParts {
    UrlParts("http", "localhost", Some("8080"), "", Some("test=true"), None)
  }

  lemma PlainText()
    ensures Render(Plain()) == "http://www.google.com"
  {
  }

  lemma WithQueryText()
    ensures Render(WithQuery()) == "http://www.google.com?test=true"
  {
    var u := WithQuery();
    assert AfterHost(u) == "?test=true" by {
      assert Opt("?", u.query) == "?test=true";
    }
    GoogleScheme();
    assert "http://www.google.com" + "?test=true" == "http://www.google.com?test=true";
    RenderOf(u, "http://www.google.com", "?test=true", "http://www.google.com?test=true");
  }

  lemma WithHashText()
    ensures Render(WithHash()) == "http://www.google.com/test?test=true#home"
  {
    var u := WithHash();
    WithHashAfterHost();
    GoogleScheme();
    WithHashWhole();
    RenderOf(u, "http://www.google.com", "/test?test=true#home", "http://www.google.com/test?test=true#home");
  }

  lemma WithHashWhole()
    ensures "http://www.google.com" + "/test?test=true#home" == "http://www.google.com/test?test=true#home"
  {
  }

  lemma WithHashAfterHost()
    ensures AfterHost(WithHash()) == "/test?test=true#home"
  {
    var u := WithHash();
    assert Opt(":", u.port) == "";
    assert Opt("?", u.query) == "?test=true";
    assert Opt("#", u.fragment) == "#home";
    PathQueryHash();
  }

  lemma PathQueryHash()
    ensures "/test" + "?test=true" + "#home" == "/test?test=true#home"
  {
    assert "/test" + "?test=true" == "/test?test=true";
  }

  lemma LocalhostText()
    ensures Render(Localhost()) == "http://localhost:8080?test=true"
  {
    var u := Localhost();
    LocalhostAfterHost();
    LocalhostWhole();
    RenderOf(u, "http://localhost", ":8080?test=true", "http://localhost:8080?test=true");
  }

  lemma LocalhostAfterHost()
    ensures AfterHost(Localhost()) == ":8080?test=true"
  {
    var u := Localhost();
    assert Relative(u) == "?test=true" by {
      assert Opt("?", u.query) == "?test=true";
    }
    assert Opt(":", u.port) == ":8080";
    PortQueryText();
  }

  lemma PortQueryText()
    ensures ":8080" + "?test=true" == ":8080?test=true"
  {
  }

  lemma LocalhostWhole()
    ensures "http" + "://" + "localhost" == "http://localhost"
    ensures "http://localhost" + ":8080?test=true" == "http://localhost:8080?test=true"
  {
  }

  lemma GoogleScheme()
    ensures "http" + "://" + "www.google.com" == "http://www.google.com"
  {
  }

  /** A URL's text from its head and the text after its host. */
  lemma RenderOf(u: UrlParts, head: string, after: string, whole: string)
    requires u.scheme + "://" + u.host == head && AfterHost(u) == after && head + after == whole
    ensures Render(u) == whole
  {
  }

  lemma PlainWellFormed()
    ensures WellFormed(Plain())
  {
    GoogleHost();
  }

  lemma WithQueryWellFormed()
    ensures WellFormed(WithQuery())
  {
    GoogleHost();
  }

  lemma WithHashWellFormed()
    ensures WellFormed(WithHash())
  {
    GoogleHost();
    assert NotIn('?', "/test") && NotIn('#', "/test") && NotIn('@', "/test");
    assert All("home", IsAnchorChar) && NotIn('@', "home");
  }

  lemma LocalhostWellFormed()
    ensures WellFormed(Localhost())
  {
    assert All("localhost", IsHostChar) && NotIn('@', "localhost");
    assert All("8080", IsDigit);
  }

  /** The campaign parameter yields three URLs. */
  lemma CampaignCount(url: string, str: string)
    ensures |Create(url, [Campaigns()], str)| == 3
  {
    assert ValueCounts([Campaigns()]) == [3];
    assert Product([3]) == 3 * Product([]);
  }

  /** An existing query pair comes before the new parameter. */
  lemma CreateExistingQuery(j: nat)
    requires j < 3
    ensures |Create("http://www.google.com?test=true", [Campaigns()], [])| == 3
    ensures Create("http://www.google.com?test=true", [Campaigns()], [])[j] ==
            "http://www.google.com?test=true&utm_campaign=" + Campaign(j)
  {
    var u := WithQuery();
    WithQueryText();
    ExistingQueryPrefix();
    WithQueryWellFormed();
    CampaignCount(Render(u), []);
    CreateCampaigns(u, [], j);
    Finish(u.scheme + "://" + u.host + Opt(":", u.port) + MakeSlug(u.path, []), "?test=true&utm_campaign=",
           "http://www.google.com?test=true&utm_campaign=", Campaign(j), Opt("#", u.fragment));
  }

  lemma ExistingQueryPrefix()
    ensures "http" + "://" + "www.google.com" + Opt(":", None) + MakeSlug("", []) + "?test=true&utm_campaign=" ==
            "http://www.google.com?test=true&utm_campaign="
  {
    assert MakeSlug("", []) == "";
    QueryAfterGoogle();
    GoogleHead(MakeSlug("", []), "", "?test=true&utm_campaign=", "http://www.google.com?test=true&utm_campaign=");
  }

  lemma QueryAfterGoogle()
    ensures "http://www.google.com" + "" + "?test=true&utm_campaign=" == "http://www.google.com?test=true&utm_campaign="
  {
  }

  /** The head of a URL on www.google.com with no port. */
  lemma GoogleHead(m: string, path: string, q: string, whole: string)
    requires m == path && "http://www.google.com" + path + q == whole
    ensures "http" + "://" + "www.google.com" + Opt(":", None) + m + q == whole
  {
    GoogleScheme();
  }

  /** The fragment of the URL comes after the query. */
  lemma CreateKeepsHash(j: nat)
    requires j < 3
    ensures |Create("http://www.google.com/test?test=true#home", [Campaigns()], [])| == 3
    ensures Create("http://www.google.com/test?test=true#home", [Campaigns()], [])[j] ==
            "http://www.google.com/test?test=true&utm_campaign=" + Campaign(j) + "#home"
  {
    var u := WithHash();
    WithHashText();
    WithHashPrefix();
    WithHashWellFormed();
    CampaignCount(Render(u), []);
    CreateCampaigns(u, [], j);
    Finish(u.scheme + "://" + u.host + Opt(":", u.port) + MakeSlug(u.path, []), "?test=true&utm_campaign=",
           "http://www.google.com/test?test=true&utm_campaign=", Campaign(j), Opt("#", u.fragment));
  }

  lemma WithHashPrefix()
    ensures "http" + "://" + "www.google.com" + Opt(":", None) + MakeSlug("/test", []) + "?test=true&utm_campaign=" ==
            "http://www.google.com/test?test=true&utm_campaign="
    ensures Opt("#", Some("home")) == "#home"
  {
    assert MakeSlug("/test", []) == "/test";
    TestPathText();
    GoogleHead(MakeSlug("/test", []), "/test", "?test=true&utm_campaign=", "http://www.google.com/test?test=true&utm_campaign=");
  }

  lemma TestPathText()
    ensures "http://www.google.com" + "/test" + "?test=true&utm_campaign=" == "http://www.google.com/test?test=true&utm_campaign="
  {
    assert "http://www.google.com" + "/test" == "http://www.google.com/test";
  }

  /** The slug of any non-empty string goes between the path and the query;
      for "Hello World!?!" that slug is "hello-world". */
  lemma CreateWithSlug(str: string, j: nat)
    requires str != [] && j < 3
    ensures |Create("http://www.google.com?test=true", [Campaigns()], str)| == 3
    ensures Create("http://www.google.com?test=true", [Campaigns()], str)[j] ==
            "http://www.google.com/" + Slug(str) + "?test=true&utm_campaign=" + Campaign(j)
  {
    var u := WithQuery();
    WithQueryText();
    WithQueryWellFormed();
    CampaignCount(Render(u), str);
    GoogleBase();
    CreateSlugged(u, "http://www.google.com", "http://www.google.com/", str, j);
  }

  lemma GoogleBase()
    ensures "http" + "://" + "www.google.com" + Opt(":", None) == "http://www.google.com"
    ensures "http://www.google.com" + "/" == "http://www.google.com/"
  {
  }

  /** `create` with a slug on a URL with no path and no fragment whose
      query is `test=true`. */
  lemma CreateSlugged(u: UrlParts, b: string, bs: string, str: string, j: nat)
    requires WellFormed(u) && u.port != Some([]) && u.query == Some("test=true")
    requires u.path == [] && u.fragment.None?
    requires u.scheme + "://" + u.host + Opt(":", u.port) == b && b + "/" == bs
    requires str != [] && j < 3
    ensures j < |Create(Render(u), [Campaigns()], str)|
    ensures Create(Render(u), [Campaigns()], str)[j] == bs + Slug(str) + "?test=true&utm_campaign=" + Campaign(j)
  {
    CreateCampaigns(u, str, j);
    SlugAssemble(b, b, bs, str, "?test=true&utm_campaign=", Campaign(j), Opt("#", u.fragment));
  }

  /** `makeSlug` on an empty path, between a base and the query. */
  lemma SlugAssemble(b: string, b': string, bs: string, str: string, q: string, c: string, h: string)
    requires b == b' && b' + "/" == bs && str != [] && h == []
    ensures b + MakeSlug("", str) + q + c + h == bs + Slug(str) + q + c
  {
    SlugOnEmptyPath(str);
    Reassociate(b, Slug(str), q, c);
  }

  lemma SlugOnEmptyPath(str: string)
    requires str != []
    ensures MakeSlug("", str) == "/" + Slug(str)
  {
    assert MakeSlug("", str) == "" + "/" + Slug(str);
  }

  lemma Reassociate(b: string, sl: string, q: string, c: string)
    ensures b + ("/" + sl) + q + c == (b + "/") + sl + q + c
  {
  }

  /** A port is kept, with the slug after it. */
  lemma CreateLocalhost(str: string, j: nat)
    requires str != [] && j < 3
    ensures |Create("http://localhost:8080?test=true", [Campaigns()], str)| == 3
    ensures Create("http://localhost:8080?test=true", [Campaigns()], str)[j] ==
            "http://localhost:8080/" + Slug(str) + "?test=true&utm_campaign=" + Campaign(j)
  {
    var u := Localhost();
    LocalhostText();
    LocalhostWellFormed();
    CampaignCount(Render(u), str);
    LocalBase();
    CreateSlugged(u, "http://localhost:8080", "http://localhost:8080/", str, j);
  }

  lemma LocalBase()
    ensures "http" + "://" + "localhost" + Opt(":", Some("8080")) == "http://localhost:8080"
    ensures "http://localhost:8080" + "/" == "http://localhost:8080/"
  {
  }

  /** Without an existing query, the first `&` becomes `?`. */
  lemma CreatePlain(j: nat)
    requires j < 3
    ensures |Create("http://www.google.com", [Campaigns()], [])| == 3
    ensures Create("http://www.google.com", [Campaigns()], [])[j] ==
            "http://www.google.com?utm_campaign=" + Campaign(j)
  {
    var u := Plain();
    PlainText();
    PlainPrefix();
    PlainWellFormed();
    CampaignCount(Render(u), []);
    CampaignPiece(j);
    CreateNoExisting(u, Campaigns(), j, []);
    PlainGlue(u.scheme + "://" + u.host + Opt(":", u.port) + MakeSlug(u.path, []), Campaign(j), Opt("#", u.fragment));
  }

  lemma PlainPrefix()
    ensures "http" + "://" + "www.google.com" + Opt(":", None) + MakeSlug("", []) + "?utm_campaign=" ==
            "http://www.google.com?utm_campaign="
  {
    assert MakeSlug("", []) == "";
    assert "http://www.google.com" + "" + "?utm_campaign=" == "http://www.google.com?utm_campaign=";
    GoogleHead(MakeSlug("", []), "", "?utm_campaign=", "http://www.google.com?utm_campaign=");
  }

  lemma PlainGlue(x: string, c: string, h: string)
    ensures x + "?" + ("utm_campaign=" + c) + h == x + "?utm_campaign=" + c + h
  {
    assert "?" + "utm_campaign=" == "?utm_campaign=";
  }

  /** With no parameters the URL comes back as it is. */
  lemma CreateNothing()
    ensures Create("http://www.google.com", [], []) == ["http://www.google.com"]
  {
    PlainText();
    PlainWellFormed();
    CreateIdentity(Plain());
  }
}
