/** `slug(value)`: lower-case the string, turn whitespace runs into `-`, drop
    everything that is not a word character or `-`, collapse runs of `-`
    and trim `-` from both ends. Each regular-expression replacement of the
    source is one function here, applied in the same order. */
module Slugify {
  import opened Strings

  /** JavaScript's `\s`: WhiteSpace and LineTerminator characters. */
  predicate IsSpace(c: char) {
    || c == '\t' || c == '\n' || c == '\U{000B}' || c == '\U{000C}' || c == '\r' || c == ' '
    || c == '\U{00A0}' || c == '\U{1680}' || ('\U{2000}' <= c <= '\U{200A}')
    || c == '\U{2028}' || c == '\U{2029}' || c == '\U{202F}' || c == '\U{205F}'
    || c == '\U{3000}' || c == '\U{FEFF}'
  }

  /** JavaScript's `\w`. */
  predicate IsWordChar(c: char) {
    ('A' <= c <= 'Z') || ('a' <= c <= 'z') || ('0' <= c <= '9') || c == '_'
  }

  predicate IsDash(c: char) {
    c == '-'
  }

  /** The characters a slug is made of: `[a-z0-9_-]`. */
  predicate IsSlugChar(c: char) {
    ('a' <= c <= 'z') || ('0' <= c <= '9') || c == '_' || c == '-'
  }

  predicate NoUpper(s: string) {
    forall k :: 0 <= k < |s| ==> !('A' <= s[k] <= 'Z')
  }

  predicate NoDoubleDash(s: string) {
    forall k :: 1 <= k < |s| ==> s[k - 1] != '-' || s[k] != '-'
  }

  /** What `slug` promises of its result. */
  predicate IsSlug(s: string) {
    && (forall k :: 0 <= k < |s| ==> IsSlugChar(s[k]))
    && NoDoubleDash(s)
    && (s == [] || (s[0] != '-' && s[|s| - 1] != '-'))
  }

  /** `toLowerCase` on one character (ASCII letters only). */
  function LowerChar(c: char): char {
    if 'A' <= c <= 'Z' then (c as int - 'A' as int + 'a' as int) as char else c
  }

  function Lower(s: string): (r: string)
    ensures |r| == |s|
    ensures NoUpper(r)
  {
    if s == [] then [] else [LowerChar(s[0])] + Lower(s[1..])
  }

  /** `.replace(/\s+/g, '-')`: every maximal run of whitespace becomes one `-`. */
  function DashSpaces(s: string): (r: string)
    ensures forall k :: 0 <= k < |r| ==> !IsSpace(r[k])
    ensures forall k :: 0 <= k < |r| ==> r[k] == '-' || r[k] in s
    decreases |s|
  {
    if s == [] then []
    else if IsSpace(s[0]) then "-" + DashSpaces(Span(s, IsSpace).1)
    else [s[0]] + DashSpaces(s[1..])
  }

  /** `.replace(/[^\w\-]+/g, '')`: every character that is neither a word
      character nor `-` is removed. */
  function StripNonWord(s: string): (r: string)
    ensures forall k :: 0 <= k < |r| ==> (IsWordChar(r[k]) || r[k] == '-') && r[k] in s
  {
    if s == [] then []
    else if IsWordChar(s[0]) || s[0] == '-' then [s[0]] + StripNonWord(s[1..])
    else StripNonWord(s[1..])
  }

  /** `.replace(/\-\-+/g, '-')`: every run of two or more `-` becomes one. */
  function CollapseDashes(s: string): (r: string)
    ensures NoDoubleDash(r)
    ensures s != [] ==> r != [] && r[0] == s[0]
    ensures forall k :: 0 <= k < |r| ==> r[k] in s
    decreases |s|
  {
    if s == [] then []
    else if |s| >= 2 && s[0] == '-' && s[1] == '-' then "-" + CollapseDashes(Span(s, IsDash).1)
    else [s[0]] + CollapseDashes(s[1..])
  }

  /** `.replace(/^-+/, '')`: the leading run of `-` is removed. */
  function TrimLeading(s: string): (r: string)
    ensures |r| <= |s| && s[|s| - |r|..] == r
    ensures forall k :: 0 <= k < |s| - |r| ==> s[k] == '-'
    ensures r == [] || r[0] != '-'
  {
    Span(s, IsDash).1
  }

  /** `.replace(/-+$/, '')`: the trailing run of `-` is removed. */
  function TrimTrailing(s: string): (r: string)
    ensures |r| <= |s| && s[..|r|] == r
    ensures forall k :: |r| <= k < |s| ==> s[k] == '-'
    ensures r == [] || r[|r| - 1] != '-'
  {
    if s != [] && s[|s| - 1] == '-' then
      var r := TrimTrailing(s[..|s| - 1]);
      assert s[..|s| - 1][..|r|] == s[..|r|];
      r
    else s
  }

  /** The slug of `value`; `slug` in the source. */
  function Slug(value: string): (r: string)
    ensures IsSlug(r)
  {
    var t3 := StripNonWord(DashSpaces(Lower(value)));
    SlugCharsAfterStrip(value);
    var t4 := CollapseDashes(t3);
    SlugCharsKept(t3, t4);
    var t5 := TrimLeading(t4);
    TrimLeadingKeeps(t4);
    var t6 := TrimTrailing(t5);
    TrimTrailingKeeps(t5);
    t6
  }

  lemma SlugCharsAfterStrip(value: string)
    ensures forall k :: 0 <= k < |StripNonWord(DashSpaces(Lower(value)))| ==>
              IsSlugChar(StripNonWord(DashSpaces(Lower(value)))[k])
  {
    var t1 := Lower(value);
    var t2 := DashSpaces(t1);
    assert NoUpper(t2);
  }

  lemma SlugCharsKept(s: string, r: string)
    requires forall k :: 0 <= k < |s| ==> IsSlugChar(s[k])
    requires forall k :: 0 <= k < |r| ==> r[k] in s
    ensures forall k :: 0 <= k < |r| ==> IsSlugChar(r[k])
  {
  }

  lemma TrimLeadingKeeps(s: string)
    requires forall k :: 0 <= k < |s| ==> IsSlugChar(s[k])
    requires NoDoubleDash(s)
    ensures forall k :: 0 <= k < |TrimLeading(s)| ==> IsSlugChar(TrimLeading(s)[k])
    ensures NoDoubleDash(TrimLeading(s))
  {
    var r := TrimLeading(s);
    var d := |s| - |r|;
    forall k | 0 <= k < |r|
      ensures r[k] == s[d + k]
    {
      assert s[d..][k] == s[d + k];
    }
    forall k | 1 <= k < |r|
      ensures r[k - 1] != '-' || r[k] != '-'
    {
      assert r[k - 1] == s[d + k - 1] && r[k] == s[d + k];
    }
  }

  lemma TrimTrailingKeeps(s: string)
    requires forall k :: 0 <= k < |s| ==> IsSlugChar(s[k])
    requires NoDoubleDash(s)
    requires s == [] || s[0] != '-'
    ensures IsSlug(TrimTrailing(s))
  {
    var r := TrimTrailing(s);
    assert forall k :: 0 <= k < |r| ==> r[k] == s[k];
  }

  // ----- what the slug keeps -----

  /** The word characters of `s`, in order. */
  function WordChars(s: string): string {
    if s == [] then [] else (if IsWordChar(s[0]) then [s[0]] else []) + WordChars(s[1..])
  }

  lemma {:induction false} WordCharsAppend(a: string, b: string)
    ensures WordChars(a + b) == WordChars(a) + WordChars(b)
  {
    if a != [] {
      assert (a + b)[1..] == a[1..] + b;
      WordCharsAppend(a[1..], b);
    } else {
      assert a + b == b;
    }
  }

  lemma {:induction false} WordCharsNone(s: string)
    requires forall k :: 0 <= k < |s| ==> !IsWordChar(s[k])
    ensures WordChars(s) == []
  {
    if s != [] {
      WordCharsNone(s[1..]);
    }
  }

  lemma {:induction false} LowerAppend(a: string, b: string)
    ensures Lower(a + b) == Lower(a) + Lower(b)
  {
    if a != [] {
      assert (a + b)[1..] == a[1..] + b;
      LowerAppend(a[1..], b);
    } else {
      assert a + b == b;
    }
  }

  lemma {:induction false} WordCharsLower(s: string)
    ensures WordChars(Lower(s)) == Lower(WordChars(s))
  {
    if s != [] {
      var h := if IsWordChar(s[0]) then [s[0]] else [];
      WordCharsLower(s[1..]);
      assert IsWordChar(LowerChar(s[0])) == IsWordChar(s[0]);
      assert Lower(s) == [LowerChar(s[0])] + Lower(s[1..]);
      WordCharsAppend([LowerChar(s[0])], Lower(s[1..]));
      assert WordChars(s) == h + WordChars(s[1..]);
      LowerAppend(h, WordChars(s[1..]));
    }
  }

  lemma {:induction false} WordCharsDashSpaces(s: string)
    ensures WordChars(DashSpaces(s)) == WordChars(s)
    decreases |s|
  {
    if s != [] {
      if IsSpace(s[0]) {
        var sp := Span(s, IsSpace);
        WordCharsDashSpaces(sp.1);
        WordCharsAppend("-", DashSpaces(sp.1));
        WordCharsNone(sp.0);
        WordCharsAppend(sp.0, sp.1);
      } else {
        WordCharsDashSpaces(s[1..]);
        WordCharsAppend([s[0]], DashSpaces(s[1..]));
      }
    }
  }

  lemma {:induction false} WordCharsStrip(s: string)
    ensures WordChars(StripNonWord(s)) == WordChars(s)
  {
    if s != [] {
      WordCharsStrip(s[1..]);
      if IsWordChar(s[0]) || s[0] == '-' {
        WordCharsAppend([s[0]], StripNonWord(s[1..]));
      }
    }
  }

  lemma {:induction false} WordCharsCollapse(s: string)
    ensures WordChars(CollapseDashes(s)) == WordChars(s)
    decreases |s|
  {
    if s != [] {
      if |s| >= 2 && s[0] == '-' && s[1] == '-' {
        var sp := Span(s, IsDash);
        WordCharsCollapse(sp.1);
        WordCharsAppend("-", CollapseDashes(sp.1));
        WordCharsNone(sp.0);
        WordCharsAppend(sp.0, sp.1);
      } else {
        WordCharsCollapse(s[1..]);
        WordCharsAppend([s[0]], CollapseDashes(s[1..]));
      }
    }
  }

  lemma WordCharsTrims(s: string)
    ensures WordChars(TrimLeading(s)) == WordChars(s)
    ensures WordChars(TrimTrailing(s)) == WordChars(s)
  {
    WordCharsTrimLeading(s);
    WordCharsTrimTrailing(s);
  }

  lemma WordCharsTrimLeading(s: string)
    ensures WordChars(TrimLeading(s)) == WordChars(s)
  {
    var l := TrimLeading(s);
    assert s == s[..|s| - |l|] + l;
    WordCharsNone(s[..|s| - |l|]);
    WordCharsAppend(s[..|s| - |l|], l);
  }

  lemma WordCharsTrimTrailing(s: string)
    ensures WordChars(TrimTrailing(s)) == WordChars(s)
  {
    var t := TrimTrailing(s);
    assert s == t + s[|t|..];
    WordCharsNone(s[|t|..]);
    WordCharsAppend(t, s[|t|..]);
  }

  /** The slug keeps every letter, digit and underscore of its input,
      lower-cased and in order, and nothing else but single `-` separators. */
  lemma SlugKeepsWordChars(value: string)
    ensures WordChars(Slug(value)) == Lower(WordChars(value))
    ensures forall k :: 0 <= k < |Slug(value)| ==> IsWordChar(Slug(value)[k]) || Slug(value)[k] == '-'
  {
    var t1 := Lower(value);
    var t2 := DashSpaces(t1);
    var t3 := StripNonWord(t2);
    var t4 := CollapseDashes(t3);
    var t5 := TrimLeading(t4);
    WordCharsLower(value);
    WordCharsDashSpaces(t1);
    WordCharsStrip(t2);
    WordCharsCollapse(t3);
    WordCharsTrims(t4);
    WordCharsTrims(t5);
  }

  // ----- fixed points and idempotence -----

  lemma {:induction false} LowerFixed(s: string)
    requires forall k :: 0 <= k < |s| ==> IsSlugChar(s[k])
    ensures Lower(s) == s
  {
    if s != [] {
      LowerFixed(s[1..]);
    }
  }

  lemma {:induction false} DashSpacesFixed(s: string)
    requires forall k :: 0 <= k < |s| ==> IsSlugChar(s[k])
    ensures DashSpaces(s) == s
  {
    if s != [] {
      DashSpacesFixed(s[1..]);
    }
  }

  lemma {:induction false} StripFixed(s: string)
    requires forall k :: 0 <= k < |s| ==> IsSlugChar(s[k])
    ensures StripNonWord(s) == s
  {
    if s != [] {
      StripFixed(s[1..]);
    }
  }

  lemma {:induction false} CollapseFixed(s: string)
    requires NoDoubleDash(s)
    ensures CollapseDashes(s) == s
  {
    if s != [] {
      assert NoDoubleDash(s[1..]) by {
        forall k | 1 <= k < |s[1..]| ensures s[1..][k - 1] != '-' || s[1..][k] != '-' {
          assert s[1..][k - 1] == s[k] && s[1..][k] == s[k + 1];
        }
      }
      CollapseFixed(s[1..]);
      assert !(|s| >= 2 && s[0] == '-' && s[1] == '-');
    }
  }

  /** The stages after the whitespace replacement leave a slug as it is. */
  lemma TailFixed(t: string)
    requires IsSlug(t)
    ensures TrimTrailing(TrimLeading(CollapseDashes(StripNonWord(t)))) == t
  {
    StripFixed(t);
    CollapseFixed(t);
    assert TrimLeading(t) == t by {
      SpanOf([], t, IsDash);
      assert [] + t == t;
    }
    assert TrimTrailing(t) == t;
  }

  /** Exactly the slugs are left unchanged by `slug`. */
  lemma SlugFixedIff(t: string)
    ensures Slug(t) == t <==> IsSlug(t)
  {
    if IsSlug(t) {
      LowerFixed(t);
      DashSpacesFixed(t);
      TailFixed(t);
    }
  }

  /** Slugifying a slug changes nothing. */
  lemma SlugIdempotent(value: string)
    ensures Slug(Slug(value)) == Slug(value)
  {
    SlugFixedIff(Slug(value));
  }

  // ----- words separated by whitespace -----

  lemma {:induction false} LowerAt(s: string, k: nat)
    requires k < |s|
    ensures Lower(s)[k] == LowerChar(s[k])
  {
    if k > 0 {
      LowerAt(s[1..], k - 1);
    }
  }

  lemma {:induction false} LowerNoUpper(s: string)
    requires NoUpper(s)
    ensures Lower(s) == s
  {
    if s != [] {
      LowerNoUpper(s[1..]);
    }
  }

  lemma {:induction false} DashSpacesPlain(x: string, y: string)
    requires forall k :: 0 <= k < |x| ==> !IsSpace(x[k])
    ensures DashSpaces(x + y) == x + DashSpaces(y)
    decreases |x|
  {
    if x != [] {
      assert (x + y)[1..] == x[1..] + y;
      DashSpacesPlain(x[1..], y);
    } else {
      assert x + y == y;
    }
  }

  lemma DashSpacesRun(sp: string, y: string)
    requires sp != [] && forall k :: 0 <= k < |sp| ==> IsSpace(sp[k])
    requires y == [] || !IsSpace(y[0])
    ensures DashSpaces(sp + y) == "-" + DashSpaces(y)
  {
    SpanOf(sp, y, IsSpace);
  }

  lemma {:induction false} StripNone(s: string)
    requires forall k :: 0 <= k < |s| ==> !IsWordChar(s[k]) && s[k] != '-'
    ensures StripNonWord(s) == []
  {
    if s != [] {
      StripNone(s[1..]);
    }
  }

  lemma {:induction false} StripAppend(a: string, b: string)
    ensures StripNonWord(a + b) == StripNonWord(a) + StripNonWord(b)
  {
    if a != [] {
      assert (a + b)[1..] == a[1..] + b;
      StripAppend(a[1..], b);
    } else {
      assert a + b == b;
    }
  }

  /** Words: non-empty runs of word characters. */
  predicate IsWord(w: string) {
    w != [] && forall k :: 0 <= k < |w| ==> IsWordChar(w[k])
  }

  predicate IsSpaces(sp: string) {
    sp != [] && forall k :: 0 <= k < |sp| ==> IsSpace(sp[k])
  }

  /** Characters every stage but the last-but-one ignores: neither word
      characters, nor `-`, nor whitespace. */
  predicate IsPunctuation(junk: string) {
    forall k :: 0 <= k < |junk| ==> !IsWordChar(junk[k]) && junk[k] != '-' && !IsSpace(junk[k])
  }

  lemma LowerWord(a: string)
    requires IsWord(a)
    ensures forall k :: 0 <= k < |Lower(a)| ==> IsSlugChar(Lower(a)[k]) && Lower(a)[k] != '-'
  {
    forall k | 0 <= k < |a| ensures IsSlugChar(Lower(a)[k]) && Lower(a)[k] != '-' {
      LowerAt(a, k);
    }
  }

  lemma LowerWords(a: string, sp: string, b: string, junk: string)
    requires IsSpaces(sp) && IsPunctuation(junk)
    ensures Lower(a + sp + b + junk) == Lower(a) + sp + Lower(b) + junk
  {
    forall k | 0 <= k < |junk| ensures !('A' <= junk[k] <= 'Z') { }
    LowerNoUpper(junk);
    LowerNoUpper(sp);
    LowerAppend(a + sp + b, junk);
    LowerAppend(a + sp, b);
    LowerAppend(a, sp);
  }

  lemma DashWords(la: string, sp: string, lb: string, junk: string)
    requires forall k :: 0 <= k < |la| ==> IsSlugChar(la[k])
    requires lb != [] && forall k :: 0 <= k < |lb| ==> IsSlugChar(lb[k])
    requires IsSpaces(sp) && IsPunctuation(junk)
    ensures DashSpaces(la + sp + lb + junk) == la + "-" + lb + junk
  {
    var y := lb + junk;
    Regroup(la, sp, lb, junk);
    DashSpacesPlain(junk, []);
    assert junk + [] == junk;
    DashSpacesPlain(lb, junk);
    assert DashSpaces(y) == y;
    DashSpacesRun(sp, y);
    DashSpacesPlain(la, sp + y);
    assert DashSpaces(la + (sp + y)) == la + ("-" + y);
    Regroup(la, "-", lb, junk);
  }

  lemma Regroup(a: string, b: string, c: string, d: string)
    ensures a + (b + (c + d)) == a + b + c + d
  {
  }

  lemma JoinedIsSlug(la: string, lb: string)
    requires la != [] && forall k :: 0 <= k < |la| ==> IsSlugChar(la[k]) && la[k] != '-'
    requires lb != [] && forall k :: 0 <= k < |lb| ==> IsSlugChar(lb[k]) && lb[k] != '-'
    ensures IsSlug(la + "-" + lb)
  {
    var w := la + "-" + lb;
    forall k | 1 <= k < |w| ensures w[k - 1] != '-' || w[k] != '-' {
      if k - 1 < |la| { assert w[k - 1] == la[k - 1]; }
      else { assert w[k] == lb[k - 1 - |la|]; }
    }
  }

  /** Two words separated by whitespace and followed by punctuation become
      the lower-cased words joined by one `-`; the punctuation is dropped. */
  lemma SlugTwoWords(a: string, sp: string, b: string, junk: string)
    requires IsWord(a) && IsSpaces(sp) && IsWord(b) && IsPunctuation(junk)
    ensures Slug(a + sp + b + junk) == Lower(a) + "-" + Lower(b)
  {
    var w := Lower(a) + "-" + Lower(b);
    LowerWord(a);
    LowerWord(b);
    LowerWords(a, sp, b, junk);
    DashWords(Lower(a), sp, Lower(b), junk);
    JoinedIsSlug(Lower(a), Lower(b));
    var t2 := DashSpaces(Lower(a + sp + b + junk));
    assert t2 == w + junk;
    assert StripNonWord(t2) == w by {
      StripAppend(w, junk);
      StripNone(junk);
      StripFixed(w);
      assert w + [] == w;
    }
    assert TrimTrailing(TrimLeading(CollapseDashes(w))) == w by {
      TailFixed(w);
      StripFixed(w);
    }
    SlugStages(a + sp + b + junk);
  }

  lemma SlugStages(value: string)
    ensures Slug(value) == TrimTrailing(TrimLeading(CollapseDashes(StripNonWord(DashSpaces(Lower(value))))))
  {
  }
}
