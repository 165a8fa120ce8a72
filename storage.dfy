/**
  Where a page lives: one file per page, `data/<title>.txt`, holding the raw
  body bytes and nothing else. The file system is a map from file name to
  contents; `Stored` is what `loadPage` reads back and `Written` is what a
  successful `Page.save` leaves behind.
 */
module Storage {
  import opened Wrappers
  import Route

  type byte = bv8

  /** A page as the wiki stores it: a title and its raw body. */
  datatype Page = Page(title: string, body: seq<byte>)

  /** The flat file system the pages live in, keyed by file name. */
  type Files = map<string, seq<byte>>

  const Dir := "data/"
  const Suffix := ".txt"

  /** `getFileName`: the storage key of a title. */
  function FileName(title: string): (path: string)
    ensures |path| == |Dir| + |title| + |Suffix|
    ensures path[..|Dir|] == Dir && path[|Dir|..|Dir| + |title|] == title
    ensures path[|Dir| + |title|..] == Suffix
  {
    Dir + title + Suffix
  }

  /** The inverse of `FileName`: the title a storage key stands for, if any. */
  function TitleOfFile(path: string): (r: Option<string>)
    ensures r.Some? ==> FileName(r.value) == path
  {
    if |path| >= |Dir| + |Suffix| && path[..|Dir|] == Dir && path[|path| - |Suffix|..] == Suffix then
      var title := path[|Dir|..|path| - |Suffix|];
      assert path == path[..|Dir|] + title + path[|path| - |Suffix|..];
      Some(title)
    else None
  }

  /** Every storage key decodes back to its own title. */
  lemma TitleOfFileName(title: string)
    ensures TitleOfFile(FileName(title)) == Some(title)
  {
  }

  /** Distinct titles never share a file: `getFileName` is injective. */
  lemma FileNameInjective(a: string, b: string)
    ensures FileName(a) == FileName(b) ==> a == b
  {
    TitleOfFileName(a);
    TitleOfFileName(b);
  }

  /** A valid title names a file directly inside the data directory: after the
      directory prefix there is no separator, and the only dot is the one that
      begins the suffix. */
  lemma FileNameStaysInDir(title: string)
    requires Route.IsTitle(title)
    ensures FileName(title)[..|Dir|] == Dir
    ensures forall i :: |Dir| <= i < |FileName(title)| ==> FileName(title)[i] != '/'
    ensures forall i :: |Dir| <= i < |FileName(title)| && FileName(title)[i] == '.' ==> i == |Dir| + |title|
  {
  }

  /** `loadPage` over a file system: the page if its file exists. */
  function Stored(files: Files, title: string): (r: Option<Page>)
    ensures r.Some? <==> FileName(title) in files
    ensures r.Some? ==> r.value.title == title && r.value.body == files[FileName(title)]
  {
    if FileName(title) in files then Some(Page(title, files[FileName(title)])) else None
  }

  /** The file system after `Page.save` writes `p` successfully: the page's file
      holds exactly its body, whatever it held before. */
  function Written(files: Files, p: Page): (r: Files)
    ensures r.Keys == files.Keys + {FileName(p.title)}
  {
    files[FileName(p.title) := p.body]
  }

  /** Saving then loading the same title gives back the saved page. */
  lemma SaveLoadRoundTrip(files: Files, p: Page)
    ensures Stored(Written(files, p), p.title) == Some(p)
  {
  }

  /** Saving one page leaves every other title's page as it was. */
  lemma SaveLeavesOthers(files: Files, p: Page, title: string)
    requires title != p.title
    ensures Stored(Written(files, p), title) == Stored(files, title)
  {
    FileNameInjective(title, p.title);
  }

  /** Saving overwrites wholesale: what was stored before makes no difference. */
  lemma SaveOverwrites(files: Files, p: Page, oldBody: seq<byte>)
    ensures Written(files[FileName(p.title) := oldBody], p) == Written(files, p)
  {
  }
}
