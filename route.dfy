/**
  The request-path gate of the wiki: the anchored pattern
  `^/(edit|save|view)/([a-zA-Z0-9]+)$` written out as a hand-made parser.
  A path is accepted exactly when it is `/` + action + `/` + title with a
  non-empty ASCII-alphanumeric title; nothing may follow the title (RE2's `$`
  without multi-line mode matches only at the very end of the text).
 */
module Route {
  import opened Wrappers

  /** The character class `[a-zA-Z0-9]`. */
  predicate IsAlnum(c: char) {
    ('a' <= c <= 'z') || ('A' <= c <= 'Z') || ('0' <= c <= '9')
  }

  /** `[a-zA-Z0-9]+` matched against the whole of `s`. */
  predicate IsTitle(s: string) {
    |s| > 0 && forall i :: 0 <= i < |s| ==> IsAlnum(s[i])
  }

  datatype Action = Edit | Save | View

  datatype Route = Route(action: Action, title: string)

  /** The word the pattern's first group matches for each action. */
  function ActionName(a: Action): string {
    match a
    case Edit => "edit"
    case Save => "save"
    case View => "view"
  }

  /** The alternation `edit|save|view` applied to one four-letter word. */
  function ActionOf(word: string): (r: Option<Action>)
    ensures forall a :: r == Some(a) <==> word == ActionName(a)
  {
    if word == "edit" then Some(Edit)
    else if word == "save" then Some(Save)
    else if word == "view" then Some(View)
    else None
  }

  /** `validActionPath.FindStringSubmatch(path)`: the action and the title, or None. */
  function ParseRoute(path: string): (r: Option<Route>)
    ensures r.Some? ==> IsTitle(r.value.title)
    ensures r.Some? ==> path == "/" + ActionName(r.value.action) + "/" + r.value.title
  {
    if |path| < 6 || path[0] != '/' || path[5] != '/' then None
    else
      match ActionOf(path[1..5])
      case None => None
      case Some(a) =>
        var title := path[6..];
        if IsTitle(title) then
          assert path == "/" + path[1..5] + "/" + title;
          Some(Route(a, title))
        else None
  }

  /** The converse: every path of the form `/action/title` with an alphanumeric
      title is accepted, with exactly that action and title. */
  lemma ParseRouteComplete(a: Action, title: string)
    requires IsTitle(title)
    ensures ParseRoute("/" + ActionName(a) + "/" + title) == Some(Route(a, title))
  {
  }

  /** Acceptance in both directions. */
  lemma ParseRouteIff(path: string, a: Action, title: string)
    ensures ParseRoute(path) == Some(Route(a, title))
            <==> path == "/" + ActionName(a) + "/" + title && IsTitle(title)
  {
    if path == "/" + ActionName(a) + "/" + title && IsTitle(title) {
      ParseRouteComplete(a, title);
    }
  }

  /** A trailing newline is never accepted: `$` is end of text only. */
  lemma TrailingNewlineRejected(path: string)
    ensures ParseRoute(path + "\n") == None
  {
    var p := path + "\n";
    assert p[|p| - 1] == '\n' && !IsAlnum('\n');
  }

  /** The title handed to a handler holds no path separator and no dot, so it
      names a single plain entry and cannot climb out of a directory. */
  lemma AcceptedTitleIsPlain(path: string)
    requires ParseRoute(path).Some?
    ensures '/' !in ParseRoute(path).value.title
    ensures '.' !in ParseRoute(path).value.title
    ensures forall i :: 0 <= i < |path| && path[i] == '/' ==> i == 0 || i == 5
  {
  }

  /** The front page's path is the view route of the title `FrontPage`. */
  lemma FrontPageIsView()
    ensures ParseRoute("/view/FrontPage") == Some(Route(View, "FrontPage"))
  { // Without these steps the literal is not unfolded on every solver seed.
    var t := "FrontPage";
    assert IsTitle(t);
    ParseRouteComplete(View, t);
    assert "/" + ActionName(View) + "/" + t == "/view/FrontPage";
  }
}
