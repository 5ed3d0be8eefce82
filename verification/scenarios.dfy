/** Concrete inputs of the kind the library documents, with what the model
    computes for them. */
module Scenarios {
  import opened Wrappers
  import opened Strings
  import opened Percent
  import opened QueryString
  import opened Slugify
  import opened UrlParse

  lemma Unreserved(s: string)
    requires forall k :: 0 <= k < |s| ==> IsUnreserved(s[k])
    ensures EncodeUriComponent(s) == s
  {
    EncodeFixedIff(s);
  }

  /** The encoding of three pieces in a row. */
  lemma EncodeThree(a: string, b: string, c: string)
    ensures EncodeUriComponent(a + b + c) ==
            EncodeUriComponent(a) + EncodeUriComponent(b) + EncodeUriComponent(c)
  {
    EncodeAppend(a + b, c);
    EncodeAppend(a, b);
  }

  /** An ASCII character outside the unescaped set becomes one escape. */
  lemma EncodeOne(c: char, hi: nat, lo: nat)
    requires !IsUnreserved(c) && c as int == 16 * hi + lo && lo < 16 && hi < 8
    ensures EncodeUriComponent([c]) == ['%', HexDigit(hi), HexDigit(lo)]
  {
    assert EncodeUriComponent([c]) == EncodeChar(c) + EncodeUriComponent([]);
    assert Utf8(c) == [c as int as byte];
  }

  /** A word with one reserved character in the middle. */
  lemma EncodeAround(a: string, c: char, b: string, hi: nat, lo: nat)
    requires forall k :: 0 <= k < |a| ==> IsUnreserved(a[k])
    requires forall k :: 0 <= k < |b| ==> IsUnreserved(b[k])
    requires !IsUnreserved(c) && c as int == 16 * hi + lo && lo < 16 && hi < 8
    ensures EncodeUriComponent(a + [c] + b) == a + ['%', HexDigit(hi), HexDigit(lo)] + b
  {
    EncodeThree(a, [c], b);
    Unreserved(a);
    Unreserved(b);
    EncodeOne(c, hi, lo);
  }

  /** A space is written `%20`. */
  lemma EncodeSpace()
    ensures EncodeUriComponent("Hello World") == "Hello%20World"
  {
    EncodeAround("Hello", ' ', "World", 2, 0);
    assert "Hello" + [' '] + "World" == "Hello World";
    assert "Hello" + ['%', '2', '0'] + "World" == "Hello%20World";
  }

  /** A word between two reserved characters. */
  lemma EncodeWrapped(o: string, a: string, c: string, hi1: nat, lo1: nat, hi2: nat, lo2: nat)
    requires forall k :: 0 <= k < |a| ==> IsUnreserved(a[k])
    requires |o| == 1 && !IsUnreserved(o[0]) && o[0] as int == 16 * hi1 + lo1 && lo1 < 16 && hi1 < 8
    requires |c| == 1 && !IsUnreserved(c[0]) && c[0] as int == 16 * hi2 + lo2 && lo2 < 16 && hi2 < 8
    ensures EncodeUriComponent(o + a + c) ==
            ['%', HexDigit(hi1), HexDigit(lo1)] + a + ['%', HexDigit(hi2), HexDigit(lo2)]
  {
    EncodeThree(o, a, c);
    Unreserved(a);
    assert o == [o[0]] && c == [c[0]];
    EncodeOne(o[0], hi1, lo1);
    EncodeOne(c[0], hi2, lo2);
  }

  lemma BracesText()
    ensures "{" + "twitter" + "}" == "{twitter}"
    ensures ['%', HexDigit(7), HexDigit(11)] + "twitter" + ['%', HexDigit(7), HexDigit(13)] == "%7Btwitter%7D"
  {
  }

  /** Braces are escaped, so a `{placeholder}` value cannot survive encoding. */
  lemma EncodeBraces()
    ensures EncodeUriComponent("{twitter}") == "%7Btwitter%7D"
  {
    EncodeWrapped("{", "twitter", "}", 7, 11, 7, 13);
    BracesText();
  }

  /** An escape is escaped again: `%20` becomes `%2520`. */
  lemma EncodeTwice()
    ensures EncodeUriComponent("%20") == "%2520"
  {
    EncodeAround("", '%', "20", 2, 5);
    assert "" + ['%'] + "20" == "%20";
    assert "" + ['%', '2', '5'] + "20" == "%2520";
  }

  /** Two words become lower case, joined by one dash. */
  lemma SlugHelloWorld()
    ensures Slug("Hello World") == "hello-world"
  {
    assert IsWord("Hello") && IsWord("World") && IsSpaces(" ") && IsPunctuation("");
    SlugTwoWords("Hello", " ", "World", "");
    HelloWorldText();
    LowerWordExample();
  }

  /** Trailing punctuation is dropped. */
  lemma SlugDropsPunctuation()
    ensures Slug("Hello World!?!") == "hello-world"
  {
    assert IsWord("Hello") && IsWord("World") && IsSpaces(" ") && IsPunctuation("!?!");
    SlugTwoWords("Hello", " ", "World", "!?!");
    HelloWorldText();
    LowerWordExample();
  }

  lemma HelloWorldText()
    ensures "Hello" + " " + "World" + "" == "Hello World"
    ensures "Hello" + " " + "World" + "!?!" == "Hello World!?!"
  {
  }

  lemma LowerWordExample()
    ensures Lower("Hello") + "-" + Lower("World") == "hello-world"
  {
    assert Lower("Hello") == "hello";
    assert Lower("World") == "world";
  }

  /** A plain query is read as its one pair. */
  lemma QueryKeyOnePair()
    ensures QueryKey("test=true") == [Pair("test", "true")]
  {
    assert "test" != [] && forall k :: 0 <= k < 4 ==> IsKeyChar("test"[k]);
    assert NotIn('&', "true");
    OnePair("test", "true");
    QueryText();
  }

  /** After a leading `&` the first pair is not read. */
  lemma QueryKeyLeadingAmp()
    ensures QueryKey("&a=1&b=2") == [Pair("b", "2")]
  {
    assert forall k :: 0 <= k < 1 ==> IsKeyChar("a"[k]) && IsKeyChar("b"[k]);
    assert NotIn('&', "1") && NotIn('&', "2");
    LeadingAmpSkipsFirst("a", "1", "b", "2");
    QueryText();
  }

  lemma QueryText()
    ensures "test" + "=" + "true" == "test=true"
    ensures "&" + "a" + "=" + "1" + "&" + "b" + "=" + "2" == "&a=1&b=2"
  {
  }

  /** The parts of `http://www.google.com/home?test=true`. */
  function Google(): UrlParts {
    UrlParts("http", "www.google.com", None, "/home", Some("test=true"), None)
  }

  lemma GoogleText()
    ensures Render(Google()) == "http://www.google.com/home?test=true"
  {
  }

  /** `parseUrl` splits the example URL into its parts, and its query into
      the one key `test`. */
  lemma ParseGoogle()
    ensures var r := ParseUrl("http://www.google.com/home?test=true");
      && r.protocol == "http" && r.host == "www.google.com" && r.port == []
      && r.path == "/home" && r.query == "test=true" && r.anchor == []
      && r.queryKey == [Pair("test", "true")]
  {
    GoogleWellFormed();
    ParseRender(Google());
    GoogleText();
    QueryKeyOnePair();
  }

  lemma GoogleWellFormed()
    ensures WellFormed(Google())
  {
    GoogleHost();
    GooglePath();
  }

  lemma GoogleHost()
    ensures All("http", IsSchemeChar) && NotIn('@', "http")
    ensures All("www.google.com", IsHostChar) && NotIn('@', "www.google.com")
  {
  }

  lemma GooglePath()
    ensures NotIn('?', "/home") && NotIn('#', "/home") && NotIn('@', "/home")
    ensures NotIn('#', "test=true") && NotIn('@', "test=true")
  {
  }
}
