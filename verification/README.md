# Babel documentation search records

The Babel website indexes its documentation in Algolia through the Algolia
Jekyll plugin. The plugin crawls every page and hands each heading and
paragraph to a hook as a record: a hash with `url`, `title`, `text`,
`tag_name`, `h1`..`h6` and `objectID`. `docs/_plugins/search.rb` holds those
hooks.

- `BabelCustomSearchHelper.hook_each` shapes one record in turn:
  - it drops the site index, "Community Round-up" posts and the blog's pagination pages;
  - it scores the record by site section;
  - it anchors the url at the deepest heading;
  - it reads the locale out of the page name;
  - it builds the hierarchy (section, page title, headings) and drops the record when the hierarchy is shorter than two;
  - it derives category, subcategory and display title from the hierarchy;
  - it moves a heading's text into its title;
  - it weighs the record by tag and by position in the page.
- `AlgoliaSearchRecordExtractor#custom_hook_all` runs once all records are shaped. It groups them by the string `"<category>-<subcategory>"` and appends one "Go to <page>" record per group, so that a page can be found by its name.
- `node_text` extracts the text of a crawled node. It escapes angle brackets and keeps `code` elements as markup.

The model is written in Dafny:

- `wrappers.dfy`: `Option`.
- `ruby_text.dfy`: the Ruby String and Array operations the hooks rely on, with Ruby's edge cases. These are nil interpolation, `include?`, `split` dropping trailing empty fields, `to_i` (with its optional `0d` radix prefix), `strip`, `gsub` of one character, `compact`, `uniq` and `join`.
- `grouping.dfy`: `group_by`, generic in the item and key types, with the key function as a parameter. The grouping loop is a method proved against the function that gives each key's group.
- `records.dfy`: the record hash, one `Option` field per key. A key that is missing and a key that holds nil are both `None`.
- `babel_custom_search_helper.dfy`: `hook_each` and its helpers.
  - `hook_each`, `hierarchy` and `url` are methods that update a local copy step by step.
  - Each of them is proved against a specification function.
  - The regular expressions are explicit predicates. In a Ruby regular expression `^` matches at the start of every line.
- `algolia_search_record_extractor.dfy`: `custom_hook_all` and `node_text`.
  - `custom_hook_all` appends to a `RecordArray` object, standing for the Ruby Array it receives by reference.
  - `node_text` recurses over a `Node` tree.

The Markdown renderer's heading-id function (`generateId`) is passed in as a function parameter. So is the serialisation of a code node (`toS`).

## Model

| member | source | states |
|---|---|---|
| BabelCustomSearchHelper.HookEach | docs/_plugins/search.rb:3-43 | nil exactly when the page is excluded or its hierarchy is shorter than 2. Otherwise: page score from the original url; url anchored; locale and localized read from the anchored url; hierarchy of length >= 2; category and subcategory are its first two entries; display title; heading text moved into the title; both weights; every other key unchanged. Requires the inputs under which the source does not raise |
| BabelCustomSearchHelper.SingleLineUrlMatches | docs/_plugins/search.rb:60-62 | on a url without newlines a `^`-anchored pattern matches exactly when the url starts with it |
| BabelCustomSearchHelper.ExcludedPage | docs/_plugins/search.rb:45-54 | no contract of its own. Its three tests are stated by RoundUpPostIsExcluded, BlogPaginationIsExcluded and BlogPaginationNeedsANumber; that an excluded page yields nil is stated by HookEach |
| BabelCustomSearchHelper.RoundUpPostIsExcluded | docs/_plugins/search.rb:49 | a title with "Community Round-up" anywhere in it excludes the page |
| BabelCustomSearchHelper.BlogPaginationIsExcluded | docs/_plugins/search.rb:45-54 | a url `/blog/page<d>/...`, for any non-empty run of digits d (leading zeros included), excludes the page |
| BabelCustomSearchHelper.BlogPaginationNeedsANumber | docs/_plugins/search.rb:51 | `/blog/page/` followed by anything on one line is not a pagination page |
| BabelCustomSearchHelper.PageScore | docs/_plugins/search.rb:73-84 | the score lies between 0 and 3 |
| BabelCustomSearchHelper.PageScoreBySection | docs/_plugins/search.rb:73-84 | `/docs/` scores 3, `/tips/` 2, `/blog/` 0 and any other url 1 |
| BabelCustomSearchHelper.Hierarchy | docs/_plugins/search.rb:56-71 | the list built entry by entry is the root labels, then the title, then the non-nil headings h1 to h6 in order |
| BabelCustomSearchHelper.RootLabelBySection | docs/_plugins/search.rb:59-62 | a one-line url gets at most one root label: Blog, Tips or Docs exactly when it starts with `/blog/`, `/tips/` or `/docs/` |
| BabelCustomSearchHelper.HierarchyLength | docs/_plugins/search.rb:56-71 | length = number of root labels + 1 + number of non-nil headings |
| BabelCustomSearchHelper.HierarchyTooShort | docs/_plugins/search.rb:16-17 | the hierarchy is shorter than 2 exactly when there is no root label and every heading is nil |
| BabelCustomSearchHelper.Url | docs/_plugins/search.rb:87-96 | the h6-to-h1 scan with next/break yields the url followed by `#` and the id of the deepest non-nil heading; with no heading it yields the url alone |
| BabelCustomSearchHelper.AnchoredUrl | docs/_plugins/search.rb:95 | the original url (nil as "") is a prefix of the anchored url |
| BabelCustomSearchHelper.DeepestHeadingIsDeepest | docs/_plugins/search.rb:89-94 | no anchor exactly when every heading is nil; otherwise the anchor names a non-nil heading, and every deeper level is nil |
| BabelCustomSearchHelper.ScanLocale | docs/_plugins/search.rb:12 | a found locale is one of the nine combinations of zh, ja or ko with CN, JP or KR |
| BabelCustomSearchHelper.Locale | docs/_plugins/search.rb:12 | the locale is en-US or one of the pattern's locales |
| BabelCustomSearchHelper.UnlocalizedUrl | docs/_plugins/search.rb:12 | a url without a hyphen has locale en-US |
| BabelCustomSearchHelper.LocaleOfLocalizedPage | docs/_plugins/search.rb:12 | a one-line url `<p>-<locale><any char>html<anchor>` has that locale, provided the anchor holds no further match |
| BabelCustomSearchHelper.HooksPageInKorean | docs/_plugins/search.rb:12-13 | `/docs/hooks-ko-KR.html` has locale ko-KR, which differs from en-US, so the record is localized |
| BabelCustomSearchHelper.DisplayTitle | docs/_plugins/search.rb:23-27 | no contract of its own; DisplayTitleShowsSectionAndHeading states what it yields beyond two entries |
| BabelCustomSearchHelper.DisplayTitleShowsSectionAndHeading | docs/_plugins/search.rb:23-27 | with three entries or more, the display title is the third entry alone when it equals the last. Otherwise it is the third entry, the separator, then the last. So it starts with the third entry, ends with the last, and is the third entry alone exactly when the two are equal |
| BabelCustomSearchHelper.WeightTagName | docs/_plugins/search.rb:98-103 | no contract of its own; HeadingWeight, HeadingWeightsDecrease and ShallowerHeadingWeighsMore state its values |
| BabelCustomSearchHelper.HeadingWeight | docs/_plugins/search.rb:98-103 | tag `h<n>` weighs 100 - 10n |
| BabelCustomSearchHelper.HeadingWeightsDecrease | docs/_plugins/search.rb:98-103 | h1..h6 weigh 90, 80, 70, 60, 50, 40 and p weighs 0 |
| BabelCustomSearchHelper.ShallowerHeadingWeighsMore | docs/_plugins/search.rb:98-103 | a shallower heading level weighs strictly more than a deeper one |
| BabelCustomSearchHelper.WeightOrderInPage | docs/_plugins/search.rb:105-108 | no contract of its own; WeightOrderOfCounter states its value on counters |
| BabelCustomSearchHelper.WeightOrderOfCounter | docs/_plugins/search.rb:105-108 | an objectID that is a counter, or ends in `_<counter>`, weighs that counter |
| RubyText.ToI | docs/_plugins/search.rb:102 | no contract of its own; ToIDecimal, ToIOfDigits and ToIOfDecimalPrefix state what it reads |
| RubyText.ToIOfDecimalPrefix | docs/_plugins/search.rb:107 | a `0d` or `0D` prefix before a run of digits, alone or after a minus sign, leaves the value read unchanged: `"0d7".to_i` is 7 and `"-0d7".to_i` is -7 |
| RubyText.ToIOfDigits | docs/_plugins/search.rb:107 | a non-empty run of digits reads as its decimal value |
| RubyText.Contains | docs/_plugins/search.rb:49 | no contract of its own; ContainsAt characterises it |
| RubyText.ContainsAt | docs/_plugins/search.rb:49 | `include?` holds exactly when the searched string starts at some position of the string |
| RubyText.Split | docs/_plugins/search.rb:107 | no field holds the separator, and the last field, if any, is non-empty |
| RubyText.ToIDecimal | docs/_plugins/search.rb:102 | `to_i` reads back the decimal numeral of every natural number |
| RubyText.ReplaceChar | docs/_plugins/search.rb:102 | the result holds only characters of the input other than the pattern, or of the replacement. It is the input itself when the pattern does not occur |
| RubyText.ReplaceCharAppend | docs/_plugins/search.rb:102 | `gsub` of one character works piece by piece: replacing in p + q gives the replaced p followed by the replaced q |
| RubyText.ReplaceCharOfOne | docs/_plugins/search.rb:102 | a single character becomes the replacement exactly when it is the pattern, and is kept otherwise |
| RubyText.FieldsOfLastField | docs/_plugins/search.rb:107 | splitting at a separator followed by a separator-free tail ends the fields with that tail |
| RubyText.DropTrailingEmpty | docs/_plugins/search.rb:107 | `split` keeps a prefix of the fields that ends in a non-empty field and keeps every non-empty field |
| RubyText.Compact | docs/_plugins/search.rb:66-68 | no contract of its own; CompactMembers and CompactLength state what it keeps |
| RubyText.CompactMembers | docs/_plugins/search.rb:66-68 | an element is kept exactly when it occurs as a non-nil entry |
| RubyText.CompactLength | docs/_plugins/search.rb:66-68 | one element is kept per non-nil entry |
| RubyText.Uniq | docs/_plugins/search.rb:26 | `uniq` keeps exactly the elements of the input, each once |
| RubyText.UniqKeepsFirstOccurrenceOrder | docs/_plugins/search.rb:120-122 | `uniq` (and so `group_by`'s keys) lists distinct elements in the order of their first occurrences |
| RubyText.Strip | docs/_plugins/search.rb:148 | the result holds only characters of the input and neither starts nor ends with whitespace or NUL. It is the input itself when the input already does not |
| RubyText.StripKeepsTheMiddle | docs/_plugins/search.rb:148 | `strip` removes whitespace only at the two ends: the result is a slice `s[i..j]` of the input with only whitespace or NUL before i and from j on |
| RubyText.StripLeftIsSuffix | docs/_plugins/search.rb:148 | removing leading whitespace leaves a suffix of the input, and only whitespace or NUL comes before it |
| RubyText.StripRightIsPrefix | docs/_plugins/search.rb:148 | removing trailing whitespace leaves a prefix of the input, and only whitespace or NUL comes after it |
| RubyText.Join | docs/_plugins/search.rb:148 | every character of the joined string comes from the separator or from one of the parts |
| AlgoliaSearchRecordExtractor.CustomHookAll | docs/_plugins/search.rb:119-142 | the input records stay unchanged as a prefix, followed by one page record per group in key first-occurrence order. The same array is returned |
| AlgoliaSearchRecordExtractor.GroupKey | docs/_plugins/search.rb:121 | no contract of its own; PageRecordKey and HyphenatedNamesShareAPageRecord state what it decides |
| AlgoliaSearchRecordExtractor.PageRecord | docs/_plugins/search.rb:124-138 | no contract of its own; PageRecordOfFirstOccurrence states every field, including the keys it does not set |
| AlgoliaSearchRecordExtractor.PageRecords | docs/_plugins/search.rb:123-140 | no contract of its own; OnePageRecordPerKey, PageRecordCount, PageRecordKey and PageRecordOfFirstOccurrence state it, and CustomHookAll appends it |
| AlgoliaSearchRecordExtractor.UrlBeforeAnchor | docs/_plugins/search.rb:132 | the kept part is a prefix of the url without `#`; a url that does not start with `#` keeps a non-empty part |
| AlgoliaSearchRecordExtractor.GroupKeys | docs/_plugins/search.rb:120-122 | no contract of its own; the keys of Grouping.Keys taken with GroupKey |
| AlgoliaSearchRecordExtractor.Group | docs/_plugins/search.rb:120-122 | no contract of its own; Grouping.Group taken with GroupKey |
| Grouping.GroupBy | docs/_plugins/search.rb:120-122 | the keys are the distinct keys in first-occurrence order, and each key maps to its items in their original order. CustomHookAll groups by `"<category>-<subcategory>"` |
| Grouping.Group | docs/_plugins/search.rb:120-122 | a group holds only input items with its key, and is non-empty exactly when the key occurs |
| Grouping.KeysSnoc | docs/_plugins/search.rb:120-122 | appending an item appends its key to the key list, and to the distinct keys exactly when the key is new |
| Grouping.GroupSnoc | docs/_plugins/search.rb:120-122 | appending an item extends its own group and leaves every other group as it was |
| Grouping.GroupedSnocKnown | docs/_plugins/search.rb:120-122 | after one more item with a known key, the grouping is the old one with that key's group extended |
| Grouping.GroupedSnocNew | docs/_plugins/search.rb:120-122 | after one more item with a new key, the grouping is the old one plus that key, last in the keys, with a one-item group |
| Grouping.GroupHeadIsFirstOccurrence | docs/_plugins/search.rb:120-125 | the first item of a group (`pages[0]`) is the item where its key first occurs |
| AlgoliaSearchRecordExtractor.PageRecordKey | docs/_plugins/search.rb:124-131 | a page record has the key of the group it was built for |
| AlgoliaSearchRecordExtractor.OnePageRecordPerKey | docs/_plugins/search.rb:119-142 | every page record's key occurs in the input, and every input key has a page record. Page records follow the first occurrences of their keys |
| AlgoliaSearchRecordExtractor.PageRecordCount | docs/_plugins/search.rb:123-140 | exactly as many page records as distinct keys |
| AlgoliaSearchRecordExtractor.PageRecordOfFirstOccurrence | docs/_plugins/search.rb:124-138 | copies category, hierarchy, subcategory, locale, localized and page score from the group's first record. Sets title = subcategory, text = nil, display title "Go to <subcategory>", weights 90 and -1, `tagname` h1, and the url cut at its first `#`. Tag name, h1..h6 and objectID are absent |
| AlgoliaSearchRecordExtractor.UrlBeforeAnchorOfAnchoredUrl | docs/_plugins/search.rb:132 | a non-empty url without `#`, followed by nothing or by an anchor, is cut back to itself |
| AlgoliaSearchRecordExtractor.PageUrlDropsAnchor | docs/_plugins/search.rb:132 | cutting an anchored url (`url(item)`) at `#` gives back the page's url |
| AlgoliaSearchRecordExtractor.HyphenatedNamesShareAPageRecord | docs/_plugins/search.rb:120-122 | "Docs-Hooks"/"API" and "Docs"/"Hooks-API" share one key, so together they get a single page record |
| AlgoliaSearchRecordExtractor.NodeText | docs/_plugins/search.rb:145-149 | a text node's text holds no `<` or `>`; a non-code element's text never starts with whitespace or NUL |
| AlgoliaSearchRecordExtractor.EscapeText | docs/_plugins/search.rb:146 | escaped text holds no `<` or `>`, and text without them is left as it is |
| AlgoliaSearchRecordExtractor.EscapeTextAppend | docs/_plugins/search.rb:146 | escaping works piece by piece: the escaped p + q is the escaped p followed by the escaped q |
| AlgoliaSearchRecordExtractor.EscapeTextOfOne | docs/_plugins/search.rb:146 | `<` becomes `&lt;`, `>` becomes `&gt;`, and any other character stays as it is |
| AlgoliaSearchRecordExtractor.DropLineEndHashes | docs/_plugins/search.rb:148 | removing line-ending ` #` adds no character, and keeps a first character that is not a space |
| AlgoliaSearchRecordExtractor.NoLineEndHashKept | docs/_plugins/search.rb:148 | text with no ` #` at a line end is left unchanged |
| AlgoliaSearchRecordExtractor.LineEndHashRemoved | docs/_plugins/search.rb:148 | a ` #` at the end of the text or before a newline is removed: after a prefix without one, it disappears and the rest goes on being processed |
| AlgoliaSearchRecordExtractor.CodeFreeTextHasNoMarkup | docs/_plugins/search.rb:145-149 | in a tree without code elements the extracted text holds no `<` or `>` |
| AlgoliaSearchRecordExtractor.PlainElementText | docs/_plugins/search.rb:148 | an element holding one trimmed text without markup or line-ending ` #` yields that text unchanged |

## Left out

- `docs/_js/search.js`, the browser side of the search (Algolia client, DOM, templating), is not part of this model.
- `Redcarpet::Render::HTML.generate_id` is a parameter `generateId: string -> string`. Nothing is assumed about it.
- The Nokogiri node API is reduced to a tree of text nodes and named elements. The serialisation `node.to_s` of a code element is a parameter `toS`. Comments, CDATA and attributes have no separate form.
- The Algolia Jekyll plugin itself is not modelled: the crawl, how `objectID`s are made, and when the hooks run. Neither is `custom_hook_each` (lines 113-115), which only delegates to `hook_each`.
- Exceptions are not modelled; the inputs on which the source raises are excluded by preconditions:
  - `HookEach` requires that the title is non-nil unless the url is `/index.html` (line 49), and that the tag name is non-nil unless the record is dropped (line 102);
  - `CustomHookAll` requires that the first record of every group has a url (line 132).
- A missing key and a key holding nil are not distinguished, in the records the hooks receive and in the ones they return. `hook_each` sets `title` or `text` to nil (lines 32 and 35), and the page record holds `text: nil` (line 129). In Ruby these records have the key, holding nil; in the model the field is `None`, as for a missing key.
- `hook_each` mutates the caller's hash; the model returns the new record instead. Aliasing of that hash is not modelled.
- Regular expressions in general are not modelled. Only the five kinds of pattern the hooks use are: the line-anchored prefixes `^/blog/`, `^/tips/` and `^/docs/` (lines 60-62 and 74-81); blog pagination `^/blog/page\d+/` (line 51); the locale pattern (line 12); `/code/` on a node name (line 147); and a line-ending ` #` (line 148).
- RubyText.ToI: does not model underscores between digits (`"1_000".to_i` is 1000 in Ruby). No objectID or tag of this site carries them.
- RubyText.Split: only separators other than a space. A space switches `split` to whitespace runs, and the hooks never split on one.
- Where the code and its documentation differ, the model follows the code:
  - The locale pattern accepts all nine language-region pairs, e.g. zh-KR, not only zh-CN, ja-JP and ko-KR. Its `.html` dot stands for any character but a newline.
  - Headings are added to the hierarchy when they are non-nil. An empty heading counts.
  - `^` matches after every newline, not only at the start of the url.
  - The display-title separator is kept as the file spells it: the three characters `â€º` between spaces, which is ` › ` encoded as UTF-8 twice.
  - The locale and the root labels are read from the anchored url, since `url(item)` runs first.
