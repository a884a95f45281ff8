/**
 * The saved Markdown file: a fixed front-matter block (title, url, domain, description,
 * date_saved), a blank line, then the converted page.
 */
module Documents {
  import opened Wrappers
  import opened Text
  import opened Web

  datatype FrontMatter = FrontMatter(title: string, url: string, domain: string, description: string, dateSaved: string)

  /**
   * `soup.title.string if soup.title else filename`: the stem when there is no title element,
   * Python's None when the element has no single string.
   */
  function TitleOf(tag: TitleTag, stem: string): Option<string> {
    match tag
    case Absent => Some(stem)
    case NoString => None
    case Text(s) => Some(s)
  }

  /** How an f-string renders an optional string: None prints as "None". */
  function Show(t: Option<string>): string {
    match t
    case None => "None"
    case Some(s) => s
  }

  /** `description.get('content', '') if description else ""` */
  function DescriptionOf(page: Page): string {
    match page.description
    case None => ""
    case Some(d) => d
  }

  /** Each line followed by a newline. */
  function Lines(ls: seq<string>): string {
    if ls == [] then "" else ls[0] + "\n" + Lines(ls[1..])
  }

  /** The front matter block, line by line: the fields between two "---" lines, then a blank line. */
  function FrontMatterLines(fm: FrontMatter): seq<string> {
    ["---", "title: " + fm.title, "url: " + fm.url, "domain: " + fm.domain,
     "description: " + fm.description, "date_saved: " + fm.dateSaved, "---", ""]
  }

  /** The file's contents: the front matter block and the body. */
  function Document(fm: FrontMatter, body: string): string {
    Lines(FrontMatterLines(fm)) + body
  }

  /** Reads `n` lines off the front of `s`: the lines and what follows them. */
  function TakeLines(s: string, n: nat): (r: (seq<string>, string))
    ensures |r.0| == n
    decreases n
  {
    if n == 0 then ([], s)
    else
      var first := TakeLine(s);
      var more := TakeLines(first.1, n - 1);
      ([first.0] + more.0, more.1)
  }

  /** Lines without newlines in them, written out, read back unchanged, and so does what follows them. */
  lemma {:induction false} TakeLinesOf(ls: seq<string>, rest: string)
    requires forall k :: 0 <= k < |ls| ==> '\n' !in ls[k]
    ensures TakeLines(Lines(ls) + rest, |ls|) == (ls, rest)
  {
    if ls == [] {
      assert Lines(ls) + rest == rest;
    } else {
      var tail := Lines(ls[1..]) + rest;
      assert Lines(ls) + rest == ls[0] + "\n" + tail;
      assert '\n' !in ls[0];
      TakeLineOf(ls[0], tail);
      assert forall k :: 0 <= k < |ls[1..]| ==> ls[1..][k] == ls[k + 1];
      TakeLinesOf(ls[1..], rest);
      assert TakeLines(tail, |ls| - 1) == (ls[1..], rest);
      assert ls == [ls[0]] + ls[1..];
    }
  }

  /** The value of a `key: value` line. */
  function Field(line: string, key: string): (v: Option<string>)
    ensures v.Some? ==> line == key + ": " + v.value
  {
    if StartsWith(line, key + ": ") then
      assert line == line[..|key| + 2] + line[|key| + 2..];
      Some(line[|key| + 2..])
    else None
  }

  /** Reads the front matter and the body back out of a saved file. */
  function ParseDocument(doc: string): Option<(FrontMatter, string)> {
    var read := TakeLines(doc, 8);
    var ls, body := read.0, read.1;
    var title, url, domain := Field(ls[1], "title"), Field(ls[2], "url"), Field(ls[3], "domain");
    var description, dateSaved := Field(ls[4], "description"), Field(ls[5], "date_saved");
    if ls[0] == "---" && ls[6] == "---" && ls[7] == ""
       && title.Some? && url.Some? && domain.Some? && description.Some? && dateSaved.Some?
    then Some((FrontMatter(title.value, url.value, domain.value, description.value, dateSaved.value), body))
    else None
  }

  lemma FieldOf(key: string, value: string)
    ensures Field(key + ": " + value, key) == Some(value)
  {
    var line := key + ": " + value;
    assert line[..|key| + 2] == key + ": ";
    assert line[|key| + 2..] == value;
  }

  ghost predicate SingleLine(s: string) {
    '\n' !in s
  }

  lemma FrontMatterSingleLines(fm: FrontMatter)
    requires SingleLine(fm.title) && SingleLine(fm.url) && SingleLine(fm.domain)
    requires SingleLine(fm.description) && SingleLine(fm.dateSaved)
    ensures forall k :: 0 <= k < |FrontMatterLines(fm)| ==> '\n' !in FrontMatterLines(fm)[k]
  {
    forall key: string, v: string | '\n' !in key && SingleLine(v) ensures '\n' !in key + ": " + v {
    }
  }

  /** When no field spans several lines, the front matter and the body read back unchanged. */
  lemma ParseDocumentRoundTrip(fm: FrontMatter, body: string)
    requires SingleLine(fm.title) && SingleLine(fm.url) && SingleLine(fm.domain)
    requires SingleLine(fm.description) && SingleLine(fm.dateSaved)
    ensures ParseDocument(Document(fm, body)) == Some((fm, body))
  {
    var ls := FrontMatterLines(fm);
    FrontMatterSingleLines(fm);
    TakeLinesOf(ls, body);
    FieldOf("title", fm.title);
    FieldOf("url", fm.url);
    FieldOf("domain", fm.domain);
    FieldOf("description", fm.description);
    FieldOf("date_saved", fm.dateSaved);
  }
}
