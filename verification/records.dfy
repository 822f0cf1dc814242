/**
 * A search record: the hash the Algolia Jekyll plugin hands to the hooks, one
 * per crawled heading or paragraph, and the hash the hooks hand back. Each key
 * the hooks read or write is a field; a key that is missing or holds nil is None.
 */
module Records {
  import opened Wrappers

  datatype Record = Record(
    // Keys the crawler fills in
    url: Option<string>,
    title: Option<string>,
    text: Option<string>,
    tagName: Option<string>,
    h1: Option<string>,
    h2: Option<string>,
    h3: Option<string>,
    h4: Option<string>,
    h5: Option<string>,
    h6: Option<string>,
    objectID: Option<string>,
    // Keys the hooks add
    pageScore: Option<int>,
    locale: Option<string>,
    localized: Option<bool>,
    hierarchy: Option<seq<string>>,
    category: Option<string>,
    subcategory: Option<string>,
    displayTitle: Option<string>,
    weightTagName: Option<int>,
    weightOrder: Option<int>,
    // The synthetic page record carries its tag under the key :tagname, apart from :tag_name
    tagname: Option<string>)
  {
    /** The six heading keys, h1 first. */
    function Headings(): (hs: seq<Option<string>>)
      ensures |hs| == 6
    {
      [h1, h2, h3, h4, h5, h6]
    }

    /** The heading of the given level, 1 to 6. */
    function Heading(level: int): Option<string>
      requires 1 <= level <= 6
    {
      Headings()[level - 1]
    }
  }

  /** The empty hash. */
  const NoFields: Record := Record(
    None, None, None, None, None, None, None, None, None, None, None,
    None, None, None, None, None, None, None, None, None, None)
}
