/**
 * AlgoliaSearchRecordExtractor (docs/_plugins/search.rb): once every record is
 * shaped, custom_hook_all appends one "Go to <page>" record per page so that
 * pages can be found by name; node_text extracts the text of a crawled node,
 * keeping code elements as markup.
 */
module AlgoliaSearchRecordExtractor {
  import opened Wrappers
  import opened RubyText
  import opened Records
  import BabelCustomSearchHelper
  import Grouping

  // ---------------------------------------------------------------------------
  // custom_hook_all
  // ---------------------------------------------------------------------------

  /** The Ruby Array of records handed to custom_hook_all, which appends to it in place. */
  class RecordArray {
    var elems: seq<Record>

    constructor (elems: seq<Record>)
      ensures this.elems == elems
    {
      this.elems := elems;
    }
  }

  /** The string custom_hook_all groups records by: category and subcategory joined by a hyphen, nil as "". */
  function GroupKey(r: Record): string
  {
    Interpolate(r.category) + "-" + Interpolate(r.subcategory)
  }

  /** The group key of every record, in order. */
  function GroupKeys(items: seq<Record>): seq<string>
  {
    Grouping.Keys(items, GroupKey)
  }

  /** group_by's value for key k: the records with that key, in their original order. */
  function Group(items: seq<Record>, k: string): seq<Record>
  {
    Grouping.Group(items, GroupKey, k)
  }

  /** Splitting a nil url raises, so the first record of every group needs a url. */
  predicate GroupHeadsHaveUrls(items: seq<Record>)
  {
    forall k :: k in GroupKeys(items) ==> Group(items, k)[0].url.Some?
  }

  /**
   * The first field of the url split at '#': the url up to its first '#', or
   * nil when splitting leaves no field at all.
   */
  function UrlBeforeAnchor(url: string): (base: Option<string>)
    ensures base.Some? ==> base.value <= url && '#' !in base.value
    ensures url != [] && url[0] != '#' ==> base.Some? && base.value != []
  {
    var fields := Split(url, '#');
    assert url != [] && url[0] != '#' ==> Fields(url, '#')[0] == url[..FirstIndexOf(url, '#')] != [];
    if fields == [] then None else Some(fields[0])
  }

  /** The record custom_hook_all builds for a page from the first record of its group. */
  function PageRecord(first: Record): Record
    requires first.url.Some?
  {
    NoFields.(
      category := first.category,
      hierarchy := first.hierarchy,
      subcategory := first.subcategory,
      tagname := Some("h1"),
      text := None,
      title := first.subcategory,
      displayTitle := Some("Go to " + Interpolate(first.subcategory)),
      url := UrlBeforeAnchor(first.url.value),
      locale := first.locale,
      localized := first.localized,
      pageScore := first.pageScore,
      weightTagName := Some(90),
      weightOrder := Some(-1))
  }

  /** The records custom_hook_all appends: one per group, in the order the keys first occur. */
  function PageRecords(items: seq<Record>): seq<Record>
    requires GroupHeadsHaveUrls(items)
  {
    var keys := Uniq(GroupKeys(items));
    seq(|keys|, j requires 0 <= j < |keys| => PageRecord(Group(items, keys[j])[0]))
  }

  /** custom_hook_all: group_by, then one page record appended per group. */
  method CustomHookAll(items: RecordArray) returns (result: RecordArray)
    requires GroupHeadsHaveUrls(items.elems)
    modifies items
    ensures result == items
    ensures items.elems == old(items.elems) + PageRecords(old(items.elems))
  {
    var all := items.elems;

    // Group the records by page
    var keys, groups := Grouping.GroupBy(all, GroupKey);

    // Append one page record per group
    ghost var added := PageRecords(all);
    for j := 0 to |keys|
      invariant items.elems == all + added[..j]
    {
      var pages := groups[keys[j]];
      assert keys[j] in GroupKeys(all) && pages == Group(all, keys[j]);
      items.elems := items.elems + [PageRecord(pages[0])];
      assert added[j] == PageRecord(pages[0]);
      TakeOneMore(added, j);
      AppendAssociates(all, added[..j], [added[j]]);
    }
    assert added[..|keys|] == added;
    result := items;
  }

  lemma {:induction false} DistinctCardinality(u: seq<string>)
    requires forall i, j :: 0 <= i < j < |u| ==> u[i] != u[j]
    ensures |set x | x in u| == |u|
  {
    if u != [] {
      var init := u[..|u| - 1];
      DistinctCardinality(init);
      assert (set x | x in u) == (set x | x in init) + {u[|u| - 1]};
      assert u[|u| - 1] !in init;
    }
  }

  /** Each page record carries the key of the group it was built for. */
  lemma PageRecordKey(items: seq<Record>, j: int)
    requires GroupHeadsHaveUrls(items)
    requires 0 <= j < |PageRecords(items)|
    ensures GroupKey(PageRecords(items)[j]) == Uniq(GroupKeys(items))[j]
  {
    var g := Group(items, Uniq(GroupKeys(items))[j]);
    assert g[0] in g;
  }

  /**
   * custom_hook_all appends exactly one page record per distinct group key, in
   * the order the keys first occur in items.
   */
  lemma OnePageRecordPerKey(items: seq<Record>)
    requires GroupHeadsHaveUrls(items)
    ensures var pages := PageRecords(items);
      && (forall j :: 0 <= j < |pages| ==> GroupKey(pages[j]) in GroupKeys(items))
      && (forall k :: k in GroupKeys(items) ==> exists j :: 0 <= j < |pages| && GroupKey(pages[j]) == k)
      && (forall i, j :: 0 <= i < j < |pages| ==>
            IndexOf(GroupKeys(items), GroupKey(pages[i])) < IndexOf(GroupKeys(items), GroupKey(pages[j])))
  {
    var keys := Uniq(GroupKeys(items));
    var pages := PageRecords(items);
    forall j | 0 <= j < |pages| ensures GroupKey(pages[j]) == keys[j] {
      PageRecordKey(items, j);
    }
    forall k | k in GroupKeys(items) ensures exists j :: 0 <= j < |pages| && GroupKey(pages[j]) == k {
      var j := IndexOf(keys, k);
      assert GroupKey(pages[j]) == k;
    }
    forall i, j | 0 <= i < j < |pages|
      ensures IndexOf(GroupKeys(items), GroupKey(pages[i])) < IndexOf(GroupKeys(items), GroupKey(pages[j]))
    {
      UniqKeepsFirstOccurrenceOrder(GroupKeys(items), i, j);
    }
  }

  /** As many page records are appended as there are distinct group keys. */
  lemma PageRecordCount(items: seq<Record>)
    requires GroupHeadsHaveUrls(items)
    ensures |PageRecords(items)| == |set k | k in GroupKeys(items)|
  {
    var keys := Uniq(GroupKeys(items));
    DistinctCardinality(keys);
    assert (set x | x in keys) == (set k | k in GroupKeys(items));
  }

  /**
   * The page record of a group copies category, hierarchy, subcategory, locale,
   * localized and page score from the first record of the group, takes the
   * subcategory as title, has no text, weighs 90 and -1, is tagged h1, and
   * carries the first record's url up to its anchor. It has no tag name,
   * headings or objectID.
   */
  lemma PageRecordOfFirstOccurrence(items: seq<Record>, j: int)
    requires GroupHeadsHaveUrls(items)
    requires 0 <= j < |PageRecords(items)|
    ensures var k := Uniq(GroupKeys(items))[j];
      k in GroupKeys(items) &&
      var first, page := items[IndexOf(GroupKeys(items), k)], PageRecords(items)[j];
      && first.url.Some?
      && page.category == first.category && page.subcategory == first.subcategory
      && page.hierarchy == first.hierarchy
      && page.locale == first.locale && page.localized == first.localized
      && page.pageScore == first.pageScore
      && page.title == first.subcategory && page.text.None?
      && page.displayTitle == Some("Go to " + Interpolate(first.subcategory))
      && page.url == UrlBeforeAnchor(first.url.value)
      && page.weightTagName == Some(90) && page.weightOrder == Some(-1)
      && page.tagname == Some("h1")
      && page.tagName.None? && page.objectID.None?
      && page.Headings() == [None, None, None, None, None, None]
  {
    var k := Uniq(GroupKeys(items))[j];
    Grouping.GroupHeadIsFirstOccurrence(items, GroupKey, k);
  }

  /** Splitting at '#' gives back a non-empty url whose anchor, if any, starts at its first '#'. */
  lemma UrlBeforeAnchorOfAnchoredUrl(base: string, anchor: string)
    requires base != [] && '#' !in base
    requires anchor == [] || anchor[0] == '#'
    ensures UrlBeforeAnchor(base + anchor) == Some(base)
  {
    var s := base + anchor;
    assert s[..|base|] == base;
    FirstIndexOfIs(s, '#', |base|);
    var fields := Fields(s, '#');
    assert fields[0] == base;
    var kept := DropTrailingEmpty(fields);
    assert 0 < |kept|;
    assert kept[0] == fields[0];
  }

  /**
   * Round trip with url(item): the page record of a page whose records have
   * anchored urls points at the page itself, without the anchor.
   */
  lemma PageUrlDropsAnchor(url: string, headings: seq<Option<string>>, generateId: string -> string)
    requires url != [] && '#' !in url && |headings| == 6
    ensures UrlBeforeAnchor(BabelCustomSearchHelper.AnchoredUrl(Some(url), headings, generateId)) == Some(url)
  {
    var u := BabelCustomSearchHelper.AnchoredUrl(Some(url), headings, generateId);
    UrlBeforeAnchorOfAnchoredUrl(url, u[|url|..]);
    assert url + u[|url|..] == u;
  }

  /**
   * The grouping key is one string, so a page "Docs-Hooks" › "API" and a page
   * "Docs" › "Hooks-API" share a single page record.
   */
  lemma HyphenatedNamesShareAPageRecord(a: Record, b: Record)
    requires a.category == Some("Docs-Hooks") && a.subcategory == Some("API") && a.url.Some?
    requires b.category == Some("Docs") && b.subcategory == Some("Hooks-API")
    ensures GroupHeadsHaveUrls([a, b])
    ensures |PageRecords([a, b])| == 1
  {
    var k := GroupKey(a);
    assert k == GroupKey(b) == "Docs-Hooks-API";
    var ks := GroupKeys([a, b]);
    assert ks == [k] + [k];
    assert Uniq([k]) == [k] by {
      assert [k][..0] == [];
    }
    assert Uniq(ks) == [k] by {
      assert ks[..1] == [k];
    }
    Grouping.GroupHeadIsFirstOccurrence([a, b], GroupKey, k);
  }

  // ---------------------------------------------------------------------------
  // node_text
  // ---------------------------------------------------------------------------

  /** A crawled node: a text node, or any other node with its name and children. */
  datatype Node = Text(content: string) | Element(name: string, children: seq<Node>)

  /** The text of a text node with every '<' and '>' replaced by its HTML entity. */
  function EscapeText(s: string): (r: string)
    ensures '<' !in r && '>' !in r
    ensures '<' !in s && '>' !in s ==> r == s
  {
    ReplaceChar(ReplaceChar(s, '<', "&lt;"), '>', "&gt;")
  }

  /** Escaping works piece by piece: the escaped p + q is the escaped p, then the escaped q. */
  lemma EscapeTextAppend(p: string, q: string)
    ensures EscapeText(p + q) == EscapeText(p) + EscapeText(q)
  {
    ReplaceCharAppend(p, q, '<', "&lt;");
    ReplaceCharAppend(ReplaceChar(p, '<', "&lt;"), ReplaceChar(q, '<', "&lt;"), '>', "&gt;");
  }

  /** Escaping one character: '<' becomes "&lt;", '>' becomes "&gt;", any other character stays. */
  lemma EscapeTextOfOne(x: char)
    ensures EscapeText([x]) == if x == '<' then "&lt;" else if x == '>' then "&gt;" else [x]
  {
    ReplaceCharOfOne(x, '<', "&lt;");
    if x == '<' {
      assert '>' !in "&lt;";
    } else {
      ReplaceCharOfOne(x, '>', "&gt;");
    }
  }

  /** Whether s holds a " #" that ends a line. */
  predicate HasLineEndHash(s: string)
  {
    exists i :: 0 <= i && i + 2 <= |s| && s[i] == ' ' && s[i + 1] == '#' && (i + 2 == |s| || s[i + 2] == '\n')
  }

  /** s with every " #" that ends a line (before a newline or at the end) removed, in one left-to-right pass. */
  function DropLineEndHashes(s: string): (r: string)
    ensures forall x :: x in r ==> x in s
    ensures s != [] && s[0] != ' ' ==> r != [] && r[0] == s[0]
    decreases |s|
  {
    if |s| >= 2 && s[0] == ' ' && s[1] == '#' && (|s| == 2 || s[2] == '\n') then DropLineEndHashes(s[2..])
    else if s == [] then []
    else [s[0]] + DropLineEndHashes(s[1..])
  }

  lemma LineEndHashInTail(s: string)
    requires s != []
    ensures HasLineEndHash(s[1..]) ==> HasLineEndHash(s)
  {
    if HasLineEndHash(s[1..]) {
      var t := s[1..];
      var i :| 0 <= i && i + 2 <= |t| && t[i] == ' ' && t[i + 1] == '#' && (i + 2 == |t| || t[i + 2] == '\n');
      assert s[i + 1] == ' ' && s[i + 2] == '#' && (i + 3 == |s| || s[i + 3] == '\n');
    }
  }

  /** A string that continues p with a space keeps p's first character when p has no line-ending " #". */
  lemma FirstCharacterKept(p: string, s: string)
    requires p != [] && !HasLineEndHash(p)
    requires |s| > |p| && s[..|p|] == p && s[|p|] == ' '
    ensures DropLineEndHashes(s) == [p[0]] + DropLineEndHashes(s[1..])
  {
    assert !(|p| >= 2 && p[0] == ' ' && p[1] == '#' && (|p| == 2 || p[2] == '\n'));
    assert s[0] == p[0];
    assert |p| >= 2 ==> s[1] == p[1];
    assert |p| >= 3 ==> s[2] == p[2];
  }

  /**
   * A " #" that ends a line is removed: after a prefix p with no line-ending
   * " #" of its own, it disappears and the rest, which is empty or starts a new
   * line, goes on being processed.
   */
  lemma {:induction false} LineEndHashRemoved(p: string, t: string)
    requires !HasLineEndHash(p)
    requires t == [] || t[0] == '\n'
    ensures DropLineEndHashes(p + " #" + t) == p + DropLineEndHashes(t)
    decreases |p|
  {
    var s := p + " #" + t;
    if p == [] {
      assert s[2..] == t;
    } else {
      FirstCharacterKept(p, s);
      assert s[1..] == p[1..] + " #" + t;
      LineEndHashInTail(p);
      LineEndHashRemoved(p[1..], t);
      assert [p[0]] + (p[1..] + DropLineEndHashes(t)) == p + DropLineEndHashes(t) by {
        assert p == [p[0]] + p[1..];
      }
    }
  }

  lemma {:induction false} NoLineEndHashKept(s: string)
    requires !HasLineEndHash(s)
    ensures DropLineEndHashes(s) == s
  {
    if s != [] {
      assert !(|s| >= 2 && s[0] == ' ' && s[1] == '#' && (|s| == 2 || s[2] == '\n'));
      LineEndHashInTail(s);
      NoLineEndHashKept(s[1..]);
    }
  }

  /**
   * node_text: a text node's escaped text; a node whose name contains "code",
   * serialized as markup by toS; any other node, the texts of its children
   * joined, stripped, with line-ending " #"s removed.
   */
  function NodeText(node: Node, toS: Node -> string): (text: string)
    ensures node.Text? ==> '<' !in text && '>' !in text
    ensures node.Element? && !Contains(node.name, "code") ==> text == [] || !IsStripSpace(text[0])
    decreases node
  {
    match node
    case Text(content) => EscapeText(content)
    case Element(name, children) =>
      if Contains(name, "code") then toS(node)
      else
        var parts := seq(|children|, i requires 0 <= i < |children| => NodeText(children[i], toS));
        DropLineEndHashes(Strip(Join(parts, "")))
  }

  /** No node of the tree is a code element. */
  predicate CodeFree(node: Node)
    decreases node
  {
    match node
    case Text(_) => true
    case Element(name, children) =>
      !Contains(name, "code") && forall i :: 0 <= i < |children| ==> CodeFree(children[i])
  }

  /** Markup reaches a record's text only through code elements: all other text is escaped. */
  lemma {:induction false} CodeFreeTextHasNoMarkup(node: Node, toS: Node -> string)
    requires CodeFree(node)
    ensures '<' !in NodeText(node, toS) && '>' !in NodeText(node, toS)
    decreases node
  {
    match node
    case Text(_) =>
    case Element(name, children) =>
      var parts := seq(|children|, i requires 0 <= i < |children| => NodeText(children[i], toS));
      forall i | 0 <= i < |children|
        ensures '<' !in parts[i] && '>' !in parts[i]
      {
        CodeFreeTextHasNoMarkup(children[i], toS);
      }
  }

  /** An element holding one plain, already trimmed text keeps that text unchanged. */
  lemma PlainElementText(name: string, s: string, toS: Node -> string)
    requires !Contains(name, "code")
    requires '<' !in s && '>' !in s
    requires s == [] || (!IsStripSpace(s[0]) && !IsStripSpace(s[|s| - 1]))
    requires !HasLineEndHash(s)
    ensures NodeText(Element(name, [Text(s)]), toS) == s
  {
    var parts := seq(1, i requires 0 <= i < 1 => NodeText([Text(s)][i], toS));
    assert parts == [s];
    NoLineEndHashKept(s);
  }
}
