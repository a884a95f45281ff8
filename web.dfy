/** Optional values. */
module Wrappers {
  datatype Option<+T> = None | Some(value: T)
}

/**
 * What the network and the HTML toolkit deliver, taken as given: the model never fetches or parses.
 * A fetch either fails with the exception's message or yields a parsed page.
 */
module Web {
  import opened Wrappers

  /** An `<a>` element that carries an `href`, with its visible text. */
  datatype Anchor = Anchor(href: string, text: string)

  /**
   * The document's `<title>`: missing, present but without a single string child (its `.string`
   * is `None`), or present with that string.
   */
  datatype TitleTag = Absent | NoString | Text(s: string)

  /**
   * A fetched and parsed page: its title, the `content` of its `<meta name="description">`
   * (None when the tag or the attribute is missing), its anchors in document order, and the
   * whole document converted to Markdown.
   */
  datatype Page = Page(title: TitleTag, description: Option<string>, anchors: seq<Anchor>, body: string)

  datatype Fetch = Fetched(page: Page) | FetchFailed(message: string)
}
