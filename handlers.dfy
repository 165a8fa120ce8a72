/**
  The request handlers of the wiki and the store they share. Each handler's
  answer is given by a pure function of the store (`ViewResponse`,
  `EditResponse`, `SaveResponse`); the class `Wiki` holds the store as a field
  and its methods are the handlers as the server runs them, one request at a
  time, updating the store in place when a page is saved.
 */
module Handlers {
  import opened Wrappers
  import Route
  import opened Storage
  import Links

  /** What a page template is given: a raw page (edit) or a rendered one (view). */
  datatype Content = Raw(page: Page) | Html(html: Links.HtmlPage)

  /** What a handler writes back: `NotFound` is HTTP 404, `Redirect` is 302
      (`StatusFound`), `Render` is the template collaborator's 200 answer, left
      abstract as the template name and the value handed to it, and
      `ServerError` is 500 with the error text as body. */
  datatype Response =
    | NotFound
    | Redirect(location: string)
    | Render(template: string, content: Content)
    | ServerError(message: string)

  /** The handler a route prefix is registered with, as passed to `makeHandler`. */
  datatype Handler = ViewPage | EditPage | SavePage

  /** `Page.html`: the body run through the Markdown renderer, which is a
      parameter of the model. */
  function ToHtml(p: Page, markdown: seq<byte> -> string): (h: Links.HtmlPage)
    ensures h.title == p.title
  {
    Links.HtmlPage(p.title, markdown(p.body))
  }

  /** `viewHandler`: a missing page redirects to its edit form; a stored page
      is rendered, its links rewritten, and handed to the view template. */
  function ViewResponse(files: Files, markdown: seq<byte> -> string, title: string): (r: Response)
    ensures r.Redirect? <==> FileName(title) !in files
    ensures r.Redirect? ==> r.location == "/edit/" + title
    ensures !r.Redirect? ==> r.Render? && r.template == "view" && r.content.Html?
    ensures r.Render? ==> r.content.html.title == title
    ensures r.Render? ==> r.content.html.body == Links.ReplaceLinks(markdown(files[FileName(title)]))
  {
    match Stored(files, title)
    case None => Redirect("/edit/" + title)
    case Some(p) => Render("view", Html(Links.AutoLink(ToHtml(p, markdown))))
  }

  /** `editHandler`: the edit template always gets a page, an empty one when
      nothing is stored under the title yet. */
  function EditResponse(files: Files, title: string): (r: Response)
    ensures r.Render? && r.template == "edit" && r.content.Raw?
    ensures r.content.page.title == title
    ensures FileName(title) in files ==> r.content.page.body == files[FileName(title)]
    ensures FileName(title) !in files ==> r.content.page.body == []
  {
    match Stored(files, title)
    case None => Render("edit", Raw(Page(title, [])))
    case Some(p) => Render("edit", Raw(p))
  }

  /** `saveHandler`'s answer once the write has reported `writeErr`. */
  function SaveResponse(title: string, writeErr: Option<string>): (r: Response)
    ensures r.ServerError? <==> writeErr.Some?
    ensures r.ServerError? ==> r.message == writeErr.value
    ensures r.Redirect? <==> writeErr.None?
    ensures r.Redirect? ==> r.location == "/view/" + title
  {
    match writeErr
    case Some(msg) => ServerError(msg)
    case None => Redirect("/view/" + title)
  }

  /** `rootHandler`: the answer for `/` and for any path no other pattern
      claims is a redirect to the front page. */
  function RootResponse(): (r: Response)
    ensures r.Redirect? && Route.ParseRoute(r.location) == Some(Route.Route(Route.View, "FrontPage"))
  {
    Route.FrontPageIsView();
    Redirect("/view/FrontPage")
  }

  /** The redirects the handlers issue for an accepted title are themselves
      accepted routes for the same title: view sends to edit, save to view. */
  lemma RedirectsAreRoutes(files: Files, markdown: seq<byte> -> string, title: string)
    requires Route.IsTitle(title)
    ensures var r := ViewResponse(files, markdown, title);
            r.Redirect? ==> Route.ParseRoute(r.location) == Some(Route.Route(Route.Edit, title))
    ensures var r := SaveResponse(title, None);
            Route.ParseRoute(r.location) == Some(Route.Route(Route.View, title))
  {
    Route.ParseRouteComplete(Route.Edit, title);
    assert "/edit/" + title == "/" + Route.ActionName(Route.Edit) + "/" + title;
    Route.ParseRouteComplete(Route.View, title);
    assert "/view/" + title == "/" + Route.ActionName(Route.View) + "/" + title;
  }

  /** The server's state: the files under the data directory, and the
      Markdown renderer it was built with. */
  class Wiki {
    var files: Files
    const markdown: seq<byte> -> string

    constructor (files: Files, markdown: seq<byte> -> string)
      ensures this.files == files && this.markdown == markdown
    {
      this.files := files;
      this.markdown := markdown;
    }

    /** `loadPage`: the page stored under `title`, or None when its file is missing. */
    method LoadPage(title: string) returns (p: Option<Page>)
      ensures p == Stored(files, title)
    {
      var name := FileName(title);
      if name in files {
        p := Some(Page(title, files[name]));
      } else {
        p := None;
      }
    }

    /** `Page.save`: on success the page's file holds exactly its body; on
        failure (reported by the file system as `writeErr`) nothing changes. */
    method Save(p: Page, writeErr: Option<string>) returns (err: Option<string>)
      modifies this
      ensures err == writeErr
      ensures files == if writeErr.None? then Written(old(files), p) else old(files)
    {
      if writeErr.None? {
        files := files[FileName(p.title) := p.body];
      }
      err := writeErr;
    }

    /** `viewHandler`; it reads the store and never writes it. */
    method View(title: string) returns (resp: Response)
      ensures resp == ViewResponse(files, markdown, title)
    {
      var p := LoadPage(title);
      if p.None? {
        resp := Redirect("/edit/" + title);
        return;
      }
      var html := Links.AutoLink(ToHtml(p.value, markdown));
      resp := Render("view", Html(html));
    }

    /** `editHandler`; it reads the store and never writes it. */
    method Edit(title: string) returns (resp: Response)
      ensures resp == EditResponse(files, title)
    {
      var p := LoadPage(title);
      var page := if p.Some? then p.value else Page(title, []);
      resp := Render("edit", Raw(page));
    }

    /** `saveHandler`: write the submitted body under the title, then redirect
        to its view page, or report the write error. */
    method SaveBody(title: string, body: seq<byte>, writeErr: Option<string>) returns (resp: Response)
      modifies this
      ensures resp == SaveResponse(title, writeErr)
      ensures files == if writeErr.None? then Written(old(files), Page(title, body)) else old(files)
    {
      var err := Save(Page(title, body), writeErr);
      if err.Some? {
        resp := ServerError(err.value);
        return;
      }
      resp := Redirect("/view/" + title);
    }

    /** `makeHandler(fn)` applied to a request for `path`: a path the route
        pattern rejects is answered with not-found and the handler never runs;
        otherwise the handler runs on the captured title. */
    method Serve(handler: Handler, path: string, body: seq<byte>, writeErr: Option<string>)
      returns (resp: Response)
      modifies this
      ensures Route.ParseRoute(path).None? ==> resp == NotFound && files == old(files)
      ensures Route.ParseRoute(path).Some? ==>
        var title := Route.ParseRoute(path).value.title;
        match handler
        case ViewPage => resp == ViewResponse(old(files), markdown, title) && files == old(files)
        case EditPage => resp == EditResponse(old(files), title) && files == old(files)
        case SavePage =>
          resp == SaveResponse(title, writeErr)
          && files == if writeErr.None? then Written(old(files), Page(title, body)) else old(files)
    {
      var m := Route.ParseRoute(path);
      if m.None? {
        resp := NotFound;
        return;
      }
      var title := m.value.title;
      match handler
      case ViewPage => resp := View(title);
      case EditPage => resp := Edit(title);
      case SavePage => resp := SaveBody(title, body, writeErr);
    }
  }

  /** A client of the methods' contracts: viewing a page nobody wrote
      redirects to its edit form, and that form starts empty. */
  method ScenarioNewPage(markdown: seq<byte> -> string) {
    var wiki := new Wiki(map[], markdown);
    var r := wiki.View("Missing");
    assert r == Redirect("/edit/Missing");
    r := wiki.Edit("Missing");
    assert r == Render("edit", Raw(Page("Missing", [])));
  }

  /** A successful save redirects to the page, which then renders. */
  method ScenarioSaveThenView(markdown: seq<byte> -> string, text: seq<byte>) {
    var wiki := new Wiki(map[], markdown);
    var r := wiki.SaveBody("FrontPage", text, None);
    assert r == Redirect("/view/FrontPage");
    SaveLoadRoundTrip(map[], Page("FrontPage", text));
    r := wiki.View("FrontPage");
    assert r.Render? && r.content.html.body == Links.ReplaceLinks(markdown(text));
  }

  /** A path with a trailing newline is not found and writes nothing. */
  method ScenarioRejected(wiki: Wiki, text: seq<byte>)
    modifies wiki
  {
    var before := wiki.files;
    Route.TrailingNewlineRejected("/save/FrontPage");
    var r := wiki.Serve(SavePage, "/save/FrontPage" + "\n", text, None);
    assert r == NotFound && wiki.files == before;
  }
}
