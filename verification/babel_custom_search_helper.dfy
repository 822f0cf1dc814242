/**
 * BabelCustomSearchHelper (docs/_plugins/search.rb): hook_each shapes one
 * crawled record, dropping excluded pages and records whose hierarchy is too
 * short, and its helpers decide exclusion, the hierarchy, the page score, the
 * anchored url and the two weights.
 */
module BabelCustomSearchHelper {
  import opened Wrappers
  import opened RubyText
  import opened Records

  /** The locale of every page whose url names no other. */
  const BaseLocale: string := "en-US"

  /**
   * The separator hook_each joins display-title parts with. The source file holds
   * it as the UTF-8 encoding of the three characters below, i.e. " › " encoded twice.
   */
  const TitleSeparator: string := " \U{E2}\U{20AC}\U{BA} "

  // ---------------------------------------------------------------------------
  // Url patterns. In a Ruby regular expression ^ matches at the start of every
  // line of the string, so a pattern for urls starting with /docs/ also matches "x\n/docs/".
  // ---------------------------------------------------------------------------

  datatype LinePattern =
    | Prefix(literal: string)  // the literal at a line start
    | BlogPagination           // /blog/page, one or more digits and a slash, at a line start

  /** One or more digits followed by a slash at the start of t. */
  predicate DigitsThenSlash(t: string)
    decreases |t|
  {
    |t| >= 2 && IsDigit(t[0]) && (t[1] == '/' || DigitsThenSlash(t[1..]))
  }

  /** Whether pat, without its ^, matches at the start of t. */
  predicate MatchesHere(pat: LinePattern, t: string)
  {
    match pat
    case Prefix(p) => p <= t
    case BlogPagination => "/blog/page" <= t && DigitsThenSlash(t[10..])
  }

  /** Whether pat matches at a line start within s; lineStart says whether s itself begins a line. */
  predicate MatchesFromLine(s: string, pat: LinePattern, lineStart: bool)
    decreases |s|
  {
    (lineStart && MatchesHere(pat, s)) || (s != [] && MatchesFromLine(s[1..], pat, s[0] == '\n'))
  }

  /** Whether the line-anchored pattern matches the url; a nil url never matches. */
  predicate UrlMatches(url: Option<string>, pat: LinePattern)
  {
    url.Some? && MatchesFromLine(url.value, pat, true)
  }

  lemma {:induction false} NoMatchAfterFirstLine(s: string, pat: LinePattern)
    requires '\n' !in s
    ensures !MatchesFromLine(s, pat, false)
  {
    if s != [] {
      NoMatchAfterFirstLine(s[1..], pat);
    }
  }

  /** On a url without newlines, ^ means "at the start of the url". */
  lemma {:induction false} SingleLineUrlMatches(s: string, pat: LinePattern)
    requires '\n' !in s
    ensures UrlMatches(Some(s), pat) <==> MatchesHere(pat, s)
  {
    if s != [] {
      NoMatchAfterFirstLine(s[1..], pat);
    }
  }

  // ---------------------------------------------------------------------------
  // excluded_page
  // ---------------------------------------------------------------------------

  /**
   * Whether hook_each drops the item before touching it: the site index, a
   * "Community Round-up" post, or a page of the blog's pagination. The title is
   * only read when the url is not /index.html; a nil title there raises.
   */
  predicate ExcludedPage(item: Record)
    requires item.url == Some("/index.html") || item.title.Some?
  {
    if item.url == Some("/index.html") then true
    else if Contains(item.title.value, "Community Round-up") then true
    else UrlMatches(item.url, BlogPagination)
  }

  /** A post whose title mentions "Community Round-up" anywhere is dropped. */
  lemma RoundUpPostIsExcluded(item: Record, before: string, after: string)
    requires item.title == Some(before + "Community Round-up" + after)
    ensures ExcludedPage(item)
  {
    var title := item.title.value;
    ContainsAt(title, "Community Round-up");
    assert title[|before|..] == "Community Round-up" + after;
  }

  lemma {:induction false} DigitsThenSlashOfNumeral(d: string, rest: string)
    requires d != [] && forall i :: 0 <= i < |d| ==> IsDigit(d[i])
    ensures DigitsThenSlash(d + "/" + rest)
  {
    if |d| > 1 {
      assert (d + "/" + rest)[1..] == d[1..] + "/" + rest;
      DigitsThenSlashOfNumeral(d[1..], rest);
    }
  }

  /** Every numbered page of the blog's pagination is dropped, whatever digits number it and whatever follows. */
  lemma {:induction false} BlogPaginationIsExcluded(item: Record, d: string, rest: string)
    requires item.title.Some?
    requires d != [] && forall i :: 0 <= i < |d| ==> IsDigit(d[i])
    requires item.url == Some("/blog/page" + d + "/" + rest)
    ensures ExcludedPage(item)
  {
    var s := item.url.value;
    assert s[10..] == d + "/" + rest;
    DigitsThenSlashOfNumeral(d, rest);
    assert MatchesHere(BlogPagination, s);
  }

  /** "/blog/page/" without a number is not a pagination page. */
  lemma {:induction false} BlogPaginationNeedsANumber(rest: string)
    requires '\n' !in rest
    ensures !UrlMatches(Some("/blog/page/" + rest), BlogPagination)
  {
    var s := "/blog/page/" + rest;
    assert '\n' !in s;
    SingleLineUrlMatches(s, BlogPagination);
    assert s[10..] == "/" + rest;
  }

  // ---------------------------------------------------------------------------
  // page_score
  // ---------------------------------------------------------------------------

  /** Weight of the site section: docs first, then tips, other pages, and blog last. */
  function PageScore(url: Option<string>): (score: int)
    ensures 0 <= score <= 3
  {
    if UrlMatches(url, Prefix("/docs/")) then 3
    else if UrlMatches(url, Prefix("/tips/")) then 2
    else if UrlMatches(url, Prefix("/blog/")) then 0
    else 1
  }

  lemma PageScoreBySection(u: string)
    requires '\n' !in u
    ensures "/docs/" <= u ==> PageScore(Some(u)) == 3
    ensures "/tips/" <= u ==> PageScore(Some(u)) == 2
    ensures "/blog/" <= u ==> PageScore(Some(u)) == 0
    ensures !("/docs/" <= u) && !("/tips/" <= u) && !("/blog/" <= u) ==> PageScore(Some(u)) == 1
  {
    SingleLineUrlMatches(u, Prefix("/docs/"));
    SingleLineUrlMatches(u, Prefix("/tips/"));
    SingleLineUrlMatches(u, Prefix("/blog/"));
    assert "/docs/" <= u ==> u[1] == 'd';
    assert "/tips/" <= u ==> u[1] == 't';
    assert "/blog/" <= u ==> u[1] == 'b';
  }

  // ---------------------------------------------------------------------------
  // hierarchy
  // ---------------------------------------------------------------------------

  /** The root levels hierarchy adds for the blog, tips and docs sections, in that order. */
  function RootLabels(url: Option<string>): seq<string>
  {
    (if UrlMatches(url, Prefix("/blog/")) then ["Blog"] else [])
    + (if UrlMatches(url, Prefix("/tips/")) then ["Tips"] else [])
    + (if UrlMatches(url, Prefix("/docs/")) then ["Docs"] else [])
  }

  /** The hierarchy of an item with this url, title and h1..h6: root level, title, then the non-nil headings. */
  function HierarchyOf(url: Option<string>, title: string, headings: seq<Option<string>>): seq<string>
  {
    RootLabels(url) + [title] + Compact(headings)
  }

  /** hierarchy(item): builds the list entry by entry, h1 to h6. */
  method Hierarchy(item: Record) returns (hierarchy: seq<string>)
    requires item.title.Some?
    ensures hierarchy == HierarchyOf(item.url, item.title.value, item.Headings())
  {
    var inBlog := UrlMatches(item.url, Prefix("/blog/"));
    var inTips := UrlMatches(item.url, Prefix("/tips/"));
    var inDocs := UrlMatches(item.url, Prefix("/docs/"));
    hierarchy := [];
    if inBlog {
      hierarchy := hierarchy + ["Blog"];
    }
    if inTips {
      hierarchy := hierarchy + ["Tips"];
    }
    if inDocs {
      hierarchy := hierarchy + ["Docs"];
    }
    assert hierarchy == RootLabels(item.url);
    hierarchy := hierarchy + [item.title.value];
    ghost var headings := item.Headings();
    ghost var head := RootLabels(item.url) + [item.title.value];
    for level := 1 to 7
      invariant hierarchy == head + Compact(headings[..level - 1])
    {
      var heading := item.Heading(level);
      assert heading == headings[level - 1];
      CompactSnoc(headings, level - 1);
      if heading.Some? {
        AppendAssociates(head, Compact(headings[..level - 1]), [heading.value]);
        hierarchy := hierarchy + [heading.value];
      }
    }
    assert headings[..6] == headings;
  }

  /** A url without newlines gets at most one root level, the one its prefix names. */
  lemma RootLabelBySection(u: string)
    requires '\n' !in u
    ensures |RootLabels(Some(u))| <= 1
    ensures RootLabels(Some(u)) == ["Blog"] <==> "/blog/" <= u
    ensures RootLabels(Some(u)) == ["Tips"] <==> "/tips/" <= u
    ensures RootLabels(Some(u)) == ["Docs"] <==> "/docs/" <= u
  {
    SingleLineUrlMatches(u, Prefix("/docs/"));
    SingleLineUrlMatches(u, Prefix("/tips/"));
    SingleLineUrlMatches(u, Prefix("/blog/"));
    if "/blog/" <= u {
      assert u[1] == 'b';
      assert RootLabels(Some(u)) == ["Blog"];
    } else if "/tips/" <= u {
      assert u[1] == 't';
      assert RootLabels(Some(u)) == ["Tips"];
    } else if "/docs/" <= u {
      assert RootLabels(Some(u)) == ["Docs"];
    } else {
      assert RootLabels(Some(u)) == [];
    }
  }

  /** The hierarchy has one entry per root level, one for the title and one per non-nil heading. */
  lemma {:induction false} HierarchyLength(url: Option<string>, title: string, headings: seq<Option<string>>)
    ensures |HierarchyOf(url, title, headings)| == |RootLabels(url)| + 1 + CountSome(headings)
  {
    CompactLength(headings);
  }

  /** The hierarchy is too short exactly when there is no root level and no heading at all. */
  lemma HierarchyTooShort(url: Option<string>, title: string, headings: seq<Option<string>>)
    ensures |HierarchyOf(url, title, headings)| < 2
        <==> RootLabels(url) == [] && forall k :: 0 <= k < |headings| ==> headings[k].None?
  {
    var c := Compact(headings);
    CompactMembers(headings);
    if c != [] {
      assert c[0] in c;
    }
    if exists k :: 0 <= k < |headings| && headings[k].Some? {
      var k :| 0 <= k < |headings| && headings[k].Some?;
      assert headings[k].value in c;
    }
  }

  // ---------------------------------------------------------------------------
  // url
  // ---------------------------------------------------------------------------

  /** The first non-nil heading among levels level, level - 1, ..., 1 of h1..h6. */
  function DeepestHeadingFrom(headings: seq<Option<string>>, level: nat): Option<string>
    requires |headings| == 6 && level <= 6
  {
    if level == 0 then None
    else if headings[level - 1].Some? then headings[level - 1]
    else DeepestHeadingFrom(headings, level - 1)
  }

  /** The heading url(item) anchors to: the first non-nil one scanning h6 down to h1. */
  function DeepestHeading(headings: seq<Option<string>>): Option<string>
    requires |headings| == 6
  {
    DeepestHeadingFrom(headings, 6)
  }

  /**
   * The url with the anchor of the deepest heading appended; the url alone (nil
   * as "") when every heading is nil.
   */
  function AnchoredUrl(url: Option<string>, headings: seq<Option<string>>, generateId: string -> string): (u: string)
    requires |headings| == 6
    ensures Interpolate(url) <= u
  {
    Interpolate(url) + match DeepestHeading(headings)
      case None => ""
      case Some(heading) => "#" + generateId(heading)
  }

  /** url(item): scans h6 down to h1, skips nil headings and stops at the first other one. */
  method Url(item: Record, generateId: string -> string) returns (u: string)
    ensures u == AnchoredUrl(item.url, item.Headings(), generateId)
  {
    var anchor: Option<string> := None;
    var level := 6;
    while level > 0
      invariant 0 <= level <= 6
      invariant anchor.None?
      invariant DeepestHeadingFrom(item.Headings(), level) == DeepestHeading(item.Headings())
    {
      var title := item.Heading(level);
      if title.None? {
        level := level - 1;
        continue;
      }
      anchor := Some("#" + generateId(title.value));
      break;
    }
    u := Interpolate(item.url) + Interpolate(anchor);
  }

  lemma {:induction false} DeepestHeadingFromIsDeepest(headings: seq<Option<string>>, level: nat)
    requires |headings| == 6 && level <= 6
    ensures DeepestHeadingFrom(headings, level).None? <==> forall k :: 0 <= k < level ==> headings[k].None?
    ensures DeepestHeadingFrom(headings, level).Some? ==>
      exists k :: 0 <= k < level && headings[k] == DeepestHeadingFrom(headings, level)
        && forall j :: k < j < level ==> headings[j].None?
  {
    if level > 0 && headings[level - 1].None? {
      DeepestHeadingFromIsDeepest(headings, level - 1);
    }
  }

  /**
   * The anchor names the non-nil heading of the highest level, whatever the
   * levels above it hold; there is an anchor exactly when some heading is
   * non-nil. (headings[k] is the heading of level k + 1.)
   */
  lemma DeepestHeadingIsDeepest(headings: seq<Option<string>>)
    requires |headings| == 6
    ensures DeepestHeading(headings).None? <==> forall k :: 0 <= k < 6 ==> headings[k].None?
    ensures DeepestHeading(headings).Some? ==>
      exists k :: 0 <= k < 6 && headings[k] == DeepestHeading(headings)
        && forall j :: k < j < 6 ==> headings[j].None?
  {
    DeepestHeadingFromIsDeepest(headings, 6);
  }

  // ---------------------------------------------------------------------------
  // locale
  // ---------------------------------------------------------------------------

  predicate IsLanguage(s: string) { s == "zh" || s == "ja" || s == "ko" }

  predicate IsRegion(s: string) { s == "CN" || s == "JP" || s == "KR" }

  /** A locale the pattern captures: zh, ja or ko, a hyphen, then CN, JP or KR. */
  predicate IsPatternLocale(l: string)
  {
    |l| == 5 && IsLanguage(l[..2]) && l[2] == '-' && IsRegion(l[3..])
  }

  /** Whether a hyphen, a pattern locale, any character but a newline, then "html" start at index i of s. */
  predicate LocaleAt(s: string, i: nat)
  {
    i + 11 <= |s| && s[i] == '-' && IsPatternLocale(s[i + 1..i + 6]) && s[i + 6] != '\n'
    && s[i + 7..i + 11] == "html"
  }

  /** The rightmost index below k where the locale pattern matches s. */
  function LastLocaleBelow(s: string, k: nat): (r: Option<nat>)
    ensures r.None? ==> forall j: nat :: j < k ==> !LocaleAt(s, j)
    ensures r.Some? ==> r.value < k && LocaleAt(s, r.value) && forall j: nat :: r.value < j < k ==> !LocaleAt(s, j)
  {
    if k == 0 then None
    else if LocaleAt(s, k - 1) then Some(k - 1)
    else LastLocaleBelow(s, k - 1)
  }

  /**
   * The locale captured by the first match of the locale pattern in s, if any.
   * The pattern begins with a greedy run of any characters but a newline, so
   * the first match lies on the first line that has one, as far right on that
   * line as possible.
   */
  function ScanLocale(s: string): (r: Option<string>)
    ensures r.Some? ==> IsPatternLocale(r.value)
    decreases |s|
  {
    var e := FirstIndexOf(s, '\n');
    match LastLocaleBelow(s, e)
    case Some(i) => Some(s[i + 1..i + 6])
    case None => if e < |s| then ScanLocale(s[e + 1..]) else None
  }

  /** The locale hook_each stores: the one the url names, else en-US. */
  function Locale(url: string): (locale: string)
    ensures locale == BaseLocale || IsPatternLocale(locale)
  {
    match ScanLocale(url)
    case Some(l) => l
    case None => BaseLocale
  }

  /** A url without a hyphen names no locale. */
  lemma {:induction false} UnlocalizedUrl(s: string)
    requires '-' !in s
    ensures Locale(s) == BaseLocale
  {
    ScanFindsNothing(s);
  }

  lemma {:induction false} ScanFindsNothing(s: string)
    requires '-' !in s
    ensures ScanLocale(s).None?
    decreases |s|
  {
    var e := FirstIndexOf(s, '\n');
    assert forall j: nat :: j < |s| ==> !LocaleAt(s, j) by {
      forall j: nat | j < |s| ensures !LocaleAt(s, j) {
        assert s[j] in s;
      }
    }
    if e < |s| {
      assert forall x :: x in s[e + 1..] ==> x in s;
      ScanFindsNothing(s[e + 1..]);
    }
  }

  /**
   * A one-line url whose page name ends in -<locale>.html (any character in place
   * of the dot) has that locale, provided what follows (the anchor) holds no
   * further match of the pattern.
   */
  lemma LocaleOfLocalizedPage(p: string, l: string, c: char, rest: string)
    requires '\n' !in p && c != '\n' && '\n' !in rest
    requires IsPatternLocale(l)
    requires forall j: nat :: !LocaleAt(rest, j)
    ensures Locale(p + "-" + l + [c] + "html" + rest) == l
  {
    var s := p + "-" + l + [c] + "html" + rest;
    var m := |p|;
    LocalizedPageMatches(s, p, l, c, rest);
    forall j: nat | m < j < |s|
      ensures !LocaleAt(s, j)
    {
      if j < m + 11 {
        NoMatchInsideLocaleSuffix(s, p, l, c, rest, j);
      } else {
        NoMatchInAnchor(s, p, l, c, rest, j);
      }
    }
    LocalizedPageIsOneLine(s, p, l, c, rest);
    FirstIndexOfIs(s, '\n', |s|);
    assert LastLocaleBelow(s, |s|) == Some(m);
  }

  /** The Korean translation of the hooks page is indexed under ko-KR, and so is localized. */
  lemma HooksPageInKorean()
    ensures Locale("/docs/hooks-ko-KR.html") == "ko-KR" != BaseLocale
  {
    var p, l := "/docs/hooks", "ko-KR";
    assert '\n' !in p by {
      forall k | 0 <= k < |p| ensures p[k] != '\n' {
      }
    }
    assert IsPatternLocale(l) by {
      assert l[..2] == "ko" && l[3..] == "KR";
    }
    assert forall j: nat :: !LocaleAt("", j);
    LocaleOfLocalizedPage(p, l, '.', "");
    assert p + "-" + l == "/docs/hooks-ko-KR";
    assert p + "-" + l + ['.'] + "html" + "" == "/docs/hooks-ko-KR.html";
  }

  lemma LocalizedPageMatches(s: string, p: string, l: string, c: char, rest: string)
    requires s == p + "-" + l + [c] + "html" + rest
    requires IsPatternLocale(l) && c != '\n'
    ensures s[|p| + 1..|p| + 6] == l
    ensures LocaleAt(s, |p|)
  {
    var m := |p|;
    assert s[m] == '-' && s[m + 1..m + 6] == l && s[m + 6] == c && s[m + 7..m + 11] == "html";
  }

  lemma NoMatchInsideLocaleSuffix(s: string, p: string, l: string, c: char, rest: string, j: nat)
    requires s == p + "-" + l + [c] + "html" + rest
    requires IsPatternLocale(l)
    requires |p| < j < |p| + 11
    ensures !LocaleAt(s, j)
  {
    var m := |p|;
    forall t | 0 <= t < 5 ensures s[m + 1 + t] == l[t] {
    }
    forall t | 0 <= t < 4 ensures s[m + 7 + t] == "html"[t] {
    }
    assert l[..2] == [l[0], l[1]] && l[3..] == [l[3], l[4]];
    if j + 11 <= |s| && s[j] == '-' {
      var w := s[j + 1..j + 6];
      assert w[..2] == [s[j + 1], s[j + 2]];
      if j == m + 3 {
        assert w[..2] == l[3..];
      } else {
        assert j == m + 6;
        assert w[..2] == "ht";
      }
    }
  }

  lemma NoMatchInAnchor(s: string, p: string, l: string, c: char, rest: string, j: nat)
    requires s == p + "-" + l + [c] + "html" + rest
    requires |l| == 5
    requires forall j: nat :: !LocaleAt(rest, j)
    requires |p| + 11 <= j
    ensures !LocaleAt(s, j)
  {
    var k: nat := j - |p| - 11;
    assert s[|p| + 11..] == rest;
    if j + 11 <= |s| {
      assert s[j] == rest[k] && s[j + 6] == rest[k + 6];
      assert s[j + 1..j + 6] == rest[k + 1..k + 6];
      assert s[j + 7..j + 11] == rest[k + 7..k + 11];
    }
    assert !LocaleAt(rest, k);
  }

  lemma LocalizedPageIsOneLine(s: string, p: string, l: string, c: char, rest: string)
    requires s == p + "-" + l + [c] + "html" + rest
    requires '\n' !in p && c != '\n' && '\n' !in rest
    requires IsPatternLocale(l)
    ensures forall k :: 0 <= k < |s| ==> s[k] != '\n'
  {
    var m := |p|;
    forall k | 0 <= k < |s| ensures s[k] != '\n' {
      if k < m {
        assert s[k] == p[k];
        assert p[k] in p;
      } else if k >= m + 11 {
        assert s[k] == rest[k - m - 11];
        assert rest[k - m - 11] in rest;
      } else if m < k < m + 6 {
        assert s[k] == l[k - m - 1];
        assert l[..2][0] == l[0] && l[..2][1] == l[1] && l[3..][0] == l[3] && l[3..][1] == l[4];
      } else if k > m + 6 {
        assert s[k] == "html"[k - m - 7];
      }
    }
  }

  // ---------------------------------------------------------------------------
  // display title, title/text swap, weights
  // ---------------------------------------------------------------------------

  /**
   * "Go to <subcategory>" for a two-entry hierarchy; otherwise the third entry and
   * the last, joined unless they are equal. Hierarchy entries are never nil, so
   * the compact of the source has nothing to remove.
   */
  function DisplayTitle(hierarchy: seq<string>): string
    requires |hierarchy| >= 2
  {
    if |hierarchy| == 2 then "Go to " + hierarchy[1]
    else Join(Uniq([hierarchy[2], hierarchy[|hierarchy| - 1]]), TitleSeparator)
  }

  /**
   * Beyond two entries the display title shows the nearest subsection first and the
   * most specific heading last, and is the subsection alone exactly when the two coincide.
   */
  lemma DisplayTitleShowsSectionAndHeading(hierarchy: seq<string>)
    requires |hierarchy| >= 3
    ensures hierarchy[2] <= DisplayTitle(hierarchy)
    ensures var t, last := DisplayTitle(hierarchy), hierarchy[|hierarchy| - 1];
      |last| <= |t| && t[|t| - |last|..] == last
    ensures DisplayTitle(hierarchy) == hierarchy[2] <==> hierarchy[2] == hierarchy[|hierarchy| - 1]
    ensures var a, b := hierarchy[2], hierarchy[|hierarchy| - 1];
      DisplayTitle(hierarchy) == if a == b then a else a + TitleSeparator + b
  {
    var a, b := hierarchy[2], hierarchy[|hierarchy| - 1];
    assert [a, b][..1] == [a];
    assert Uniq([a]) == [a] by {
      assert [a][..0] == [];
    }
    if a == b {
      assert Uniq([a, b]) == [a];
    } else {
      assert Uniq([a, b]) == [a, b];
      assert Join([a, b], TitleSeparator) == a + TitleSeparator + b;
      assert |Join([a, b], TitleSeparator)| > |a|;
    }
  }

  /** Whether the tag name is one of the six heading tags h1 to h6. */
  predicate IsHeadingTag(tagName: Option<string>)
  {
    tagName.Some? && tagName.value in {"h1", "h2", "h3", "h4", "h5", "h6"}
  }

  /** weight_tag_name: 0 for a paragraph, else 100 - 10 * (the tag without its h's, read by to_i). */
  function WeightTagName(tagName: string): int
  {
    if tagName == "p" then 0 else 100 - ToI(ReplaceChar(tagName, 'h', "")) * 10
  }

  /** The tag of a level-n heading weighs 100 - 10n. */
  lemma {:induction false} HeadingWeight(n: nat)
    ensures WeightTagName("h" + Decimal(n)) == 100 - 10 * n
  {
    var d := Decimal(n);
    assert 'h' !in d by {
      forall i | 0 <= i < |d| ensures d[i] != 'h' {
        assert IsDigit(d[i]);
      }
    }
    assert ("h" + d)[1..] == d;
    assert ReplaceChar("h" + d, 'h', "") == d;
    ToIDecimal(n);
  }

  /** h1 to h6 weigh 90 down to 40 in steps of ten, and a paragraph 0. */
  lemma HeadingWeightsDecrease()
    ensures WeightTagName("h1") == 90 && WeightTagName("h2") == 80 && WeightTagName("h3") == 70
    ensures WeightTagName("h4") == 60 && WeightTagName("h5") == 50 && WeightTagName("h6") == 40
    ensures WeightTagName("p") == 0
  {
    HeadingWeight(1);
    HeadingWeight(2);
    HeadingWeight(3);
    HeadingWeight(4);
    HeadingWeight(5);
    HeadingWeight(6);
  }

  /** A shallower heading outranks a deeper one. */
  lemma ShallowerHeadingWeighsMore(a: nat, b: nat)
    requires a < b
    ensures WeightTagName("h" + Decimal(a)) > WeightTagName("h" + Decimal(b))
  {
    HeadingWeight(a);
    HeadingWeight(b);
  }

  /** weight_order_in_page: the integer read from the last underscore-separated field of the objectID; 0 for a nil objectID. */
  function WeightOrderInPage(objectID: Option<string>): int
  {
    var fields := Split(Interpolate(objectID), '_');
    if fields == [] then 0 else ToI(fields[|fields| - 1])
  }

  /** An objectID that ends in a counter, alone or after an underscore, weighs that counter. */
  lemma {:induction false} WeightOrderOfCounter(prefix: string, n: nat)
    requires prefix == [] || prefix[|prefix| - 1] == '_'
    ensures WeightOrderInPage(Some(prefix + Decimal(n))) == n
  {
    var d := Decimal(n);
    assert '_' !in d by {
      forall i | 0 <= i < |d| ensures d[i] != '_' {
        assert IsDigit(d[i]);
      }
    }
    if prefix == [] {
      assert prefix + d == d;
      FieldsOfSeparatorFree(d, '_');
    } else {
      var p := prefix[..|prefix| - 1];
      assert prefix + d == p + ['_'] + d;
      FieldsOfLastField(p, '_', d);
    }
    ToIDecimal(n);
  }

  // ---------------------------------------------------------------------------
  // hook_each
  // ---------------------------------------------------------------------------

  /** The hierarchy hook_each builds: hierarchy reads the url after the anchor is appended. */
  function ShapedHierarchy(item: Record, generateId: string -> string): seq<string>
    requires item.title.Some?
  {
    HierarchyOf(Some(AnchoredUrl(item.url, item.Headings(), generateId)), item.title.value, item.Headings())
  }

  /** Whether hook_each returns nil for the item. */
  predicate Dropped(item: Record, generateId: string -> string)
    requires item.url == Some("/index.html") || item.title.Some?
  {
    ExcludedPage(item) || |ShapedHierarchy(item, generateId)| < 2
  }

  /**
   * Whether hook_each returns at all: it raises on a nil title unless the url is
   * /index.html, and on a nil tag name unless it has dropped the item by then.
   */
  predicate HookEachCompletes(item: Record, generateId: string -> string)
  {
    item.url == Some("/index.html")
    || (item.title.Some? && (Dropped(item, generateId) || item.tagName.Some?))
  }

  /**
   * hook_each: drops the item or rewrites it field by field. generateId stands for
   * the Markdown renderer's heading-id function.
   */
  method HookEach(item: Record, generateId: string -> string) returns (shaped: Option<Record>)
    requires HookEachCompletes(item, generateId)
    ensures shaped.None? <==> Dropped(item, generateId)
    ensures shaped.Some? ==>
      var r, u, h := shaped.value, AnchoredUrl(item.url, item.Headings(), generateId), ShapedHierarchy(item, generateId);
      && r.pageScore == Some(PageScore(item.url))
      && r.url == Some(u)
      && r.locale == Some(Locale(u))
      && r.localized == Some(Locale(u) != BaseLocale)
      && r.hierarchy == Some(h)
      && |h| >= 2
      && r.category == Some(h[0])
      && r.subcategory == Some(h[1])
      && r.displayTitle == Some(DisplayTitle(h))
      && r.weightTagName == Some(WeightTagName(item.tagName.value))
      && r.weightOrder == Some(WeightOrderInPage(item.objectID))
    ensures shaped.Some? ==>
      if IsHeadingTag(item.tagName) then shaped.value.title == item.text && shaped.value.text.None?
      else shaped.value.title.None? && shaped.value.text == item.text
    ensures shaped.Some? ==> !(shaped.value.title.Some? && shaped.value.text.Some?)
    ensures shaped.Some? ==>
      shaped.value.(url := item.url, title := item.title, text := item.text, pageScore := item.pageScore,
                    locale := item.locale, localized := item.localized, hierarchy := item.hierarchy,
                    category := item.category, subcategory := item.subcategory,
                    displayTitle := item.displayTitle, weightTagName := item.weightTagName,
                    weightOrder := item.weightOrder) == item
  {
    if ExcludedPage(item) {
      return None;
    }
    var it := item;
    it := it.(pageScore := Some(PageScore(it.url)));

    var u := Url(it, generateId);
    assert u == AnchoredUrl(item.url, item.Headings(), generateId);
    it := it.(url := Some(u));

    var locale := Locale(u);
    it := it.(locale := Some(locale), localized := Some(locale != BaseLocale));

    var hierarchy := Hierarchy(it);
    assert hierarchy == ShapedHierarchy(item, generateId);
    if |hierarchy| < 2 {
      return None;
    }
    it := it.(hierarchy := Some(hierarchy));

    it := it.(category := Some(hierarchy[0]), subcategory := Some(hierarchy[1]));
    it := it.(displayTitle := Some(DisplayTitle(hierarchy)));

    if IsHeadingTag(it.tagName) {
      it := it.(title := it.text, text := None);
    } else {
      it := it.(title := None);
    }

    it := it.(weightTagName := Some(WeightTagName(it.tagName.value)));
    it := it.(weightOrder := Some(WeightOrderInPage(it.objectID)));
    shaped := Some(it);
  }
}
