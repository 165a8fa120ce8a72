# go-wiki core in Dafny

A model of the logic inside `src/wiki.go`, a small wiki server written in Go.
Pages are flat files `data/<title>.txt` holding raw bytes. A request path
`/view/T`, `/edit/T` or `/save/T` is checked against the anchored pattern
`^/(edit|save|view)/([a-zA-Z0-9]+)$`; a path that fails it is answered with
"not found" and nothing else happens. Viewing a missing page redirects to its
edit form. Editing a missing page shows an empty form. Saving writes the
submitted body over the page's file and redirects to the page, or answers with
a server error when the write fails. A viewed page goes through a Markdown
renderer and then through the link rewriter, which turns each `[Token]` into
`<a href="/view/Token">Token</a>`.

Files and modules:

- `wrappers.dfy` (`Wrappers`): the `Option` type.
- `route.dfy` (`Route`): the path pattern as a hand-written parser,
  `ParseRoute`, with acceptance proved in both directions.
- `storage.dfy` (`Storage`): `getFileName` as `FileName` and its inverse
  `TitleOfFile`, pages, and the file system as a map from file name to bytes.
  `Stored` is what `loadPage` reads and `Written` is what a successful
  `Page.save` leaves.
- `links.dfy` (`Links`): the link rewriter `ReplaceLinks` as a left-to-right
  scan. It is proved equal to an independent description: cut the text into
  plain runs and `[token]` segments the way a leftmost, non-overlapping search
  does, then replace each token by its anchor.
- `handlers.dfy` (`Handlers`): the responses of the four handlers as pure
  functions of the store (`ViewResponse`, `EditResponse`, `SaveResponse`,
  `RootResponse`). The class `Wiki` holds the store in a `files` field. Its
  methods are `loadPage`, `Page.save`, the three page handlers and
  `makeHandler` (`Serve`), each proved against those functions.

Outside collaborators are parameters. The Markdown renderer is the `markdown`
field of `Wiki`, an arbitrary function from bytes to a string. The outcome of
a file write is the `writeErr` argument: `None` for success, `Some(message)`
for a failure with that error text.

Notes on the code's behaviour that the model keeps:

- `rootHandler` is registered for `/`, so it answers `/` and every path that no
  other registered pattern claims. The multiplexer itself sends `/view`,
  `/edit`, `/save` and `/assets` (without their final slash) to the slash form
  with a redirect, and everything under `/assets/` to the file server. The
  model gives `rootHandler`'s response (`RootResponse`: it always redirects to
  `/view/FrontPage`) and leaves the multiplexer out.
- Page bodies are always rendered as Markdown; there is no escape-only mode.
- `getFileName` is injective on all strings, not only on valid titles
  (`FileNameInjective`). The title restriction is what keeps the file inside
  the data directory (`FileNameStaysInDir`).
- The handler chosen by the multiplexer runs on the captured title whatever
  action the pattern captured; `makeHandler` never looks at `m[1]`.

## Model

| member | source | states |
|---|---|---|
| `Route.ActionOf` | src/wiki.go:32 | the alternation of `edit`, `save` and `view` yields action `a` exactly when the word is that action's name |
| `Route.ParseRoute` | src/wiki.go:32 | an accepted path is `/` + action name + `/` + title, and the title is non-empty alphanumeric |
| `Route.ParseRouteComplete` | src/wiki.go:32 | every path `/action/title` with a non-empty alphanumeric title is accepted, with that action and title |
| `Route.ParseRouteIff` | src/wiki.go:118-123 | a path is accepted with action `a` and title `t` if and only if it is `/a/t` with `t` non-empty alphanumeric |
| `Route.TrailingNewlineRejected` | src/wiki.go:32 | a path ending in a newline is never accepted (`$` matches only at the end of the text) |
| `Route.FrontPageIsView` | src/wiki.go:128 | `/view/FrontPage` is accepted as the view route of `FrontPage` |
| `Route.AcceptedTitleIsPlain` | src/wiki.go:32 | an accepted title holds no `/` and no `.`; the only slashes of an accepted path are at positions 0 and 5 |
| `Storage.FileName` | src/wiki.go:36-38 | the storage key is `data/`, then the title, then `.txt`, so it is 9 characters longer than the title |
| `Storage.TitleOfFile` | src/wiki.go:36-38 | a file name decodes to a title only if it is that title's storage key |
| `Storage.TitleOfFileName` | src/wiki.go:36-38 | every storage key decodes back to its own title |
| `Storage.FileNameInjective` | src/wiki.go:36-38 | distinct titles have distinct storage keys |
| `Storage.FileNameStaysInDir` | src/wiki.go:36-38 | for a valid title the key starts with `data/`, has no `/` after it, and its only dot after it starts the suffix |
| `Storage.Stored` | src/wiki.go:40-46 | loading finds a page exactly when its file exists, and then it has the requested title and the file's bytes as body |
| `Storage.Written` | src/wiki.go:68-71 | a successful save adds or keeps the page's file and no other file |
| `Storage.SaveLoadRoundTrip` | src/wiki.go:40-46 | loading a title right after saving page (T, B) gives back page (T, B) |
| `Storage.SaveLeavesOthers` | src/wiki.go:68-71 | saving one page leaves what every other title loads unchanged |
| `Storage.SaveOverwrites` | src/wiki.go:68-71 | saving replaces the file wholesale: the previous contents make no difference |
| `Links.AlnumRun` | src/wiki.go:33 | the greedy `[a-zA-Z0-9]+` run at the front of a text stops at a non-alphanumeric or at the end |
| `Links.AlnumRunAllAlnum` | src/wiki.go:33 | every character of that run is a letter or a digit |
| `Links.MatchAt` | src/wiki.go:33 | a match at the front of a text opens with `[` and its token is followed by `]` |
| `Links.MatchAtSound` | src/wiki.go:33 | a match at the front of a text is `[` + a non-empty alphanumeric token + `]`, and the rest of the text follows it |
| `Links.MatchAtComplete` | src/wiki.go:33 | every `[token]` at the front of a text, with a non-empty alphanumeric token, is matched with exactly that token |
| `Links.Anchor` | src/wiki.go:84 | the replacement template `<a href="/view/$1">$1</a>` with `$1` expanded to the token: it opens with `<`, closes with `>` and is 21 characters longer than two copies of the token |
| `Links.ReplaceLinks` | src/wiki.go:84 | `ReplaceAllString` as a left-to-right scan; its output is never shorter than its input, and by `ReplaceLinksRendersSplit` and `ReplaceLinksLeavesNoMatch` it is the rendering of the input's leftmost cut and holds no further match |
| `Links.AutoLink` | src/wiki.go:83-86 | the rewritten page keeps its title and its body is the link-rewritten body |
| `Links.PlainCopied` | src/wiki.go:84 | a run in which no match starts is copied to the output unchanged |
| `Links.LinkReplaced` | src/wiki.go:84 | a `[token]` is replaced by `<a href="/view/token">token</a>` and the scan resumes after the `]` |
| `Links.ReplaceLinksMeetsSpec` | src/wiki.go:84 | for every leftmost, non-overlapping cut of a text into plain runs and tokens, the rewriter's output is that cut with each token replaced by its anchor |
| `Links.Split` | src/wiki.go:84 | every text has a leftmost, non-overlapping cut into plain runs and tokens |
| `Links.ReplaceLinksRendersSplit` | src/wiki.go:84 | the rewriter's output on any text is the rendering of its leftmost cut |
| `Links.NoMatchUnchanged` | src/wiki.go:84 | a text in which no match starts (`[]`, brackets around non-alphanumerics) is left unchanged |
| `Links.TwoIndependentLinks` | src/wiki.go:84 | `[A] and [B]` becomes two independent anchors, to `/view/A` and to `/view/B` |
| `Links.EmptyBracketsKept` | src/wiki.go:33 | `[]` is not a link and is kept as it is |
| `Links.ReplaceLinksLeavesNoMatch` | src/wiki.go:84 | no match of the link pattern starts anywhere in rewritten text |
| `Links.ReplaceLinksIdempotent` | src/wiki.go:84 | rewriting already rewritten text changes nothing |
| `Handlers.ToHtml` | src/wiki.go:73-81 | the rendered page keeps the page's title |
| `Handlers.ViewResponse` | src/wiki.go:88-95 | a missing page redirects to `/edit/` + title; a stored page is rendered by the view template with its title and its Markdown output with links rewritten |
| `Handlers.EditResponse` | src/wiki.go:97-103 | the edit template is always rendered, with the stored page or, when none is stored, the title and an empty body |
| `Handlers.SaveResponse` | src/wiki.go:105-114 | a failed write gives a server error carrying the error text; a successful one redirects to `/view/` + title |
| `Handlers.RootResponse` | src/wiki.go:127-129 | the root handler redirects to a path that parses as the view of `FrontPage` |
| `Handlers.RedirectsAreRoutes` | src/wiki.go:91 | for a valid title, view's redirect parses as the edit route of that title and save's as its view route |
| `Handlers.Wiki.LoadPage` | src/wiki.go:40-46 | reads what `Stored` gives for the current files |
| `Handlers.Wiki.Save` | src/wiki.go:68-71 | returns the write's error; the files become `Written(old files, page)` on success and stay unchanged on failure |
| `Handlers.Wiki.View` | src/wiki.go:88-95 | answers `ViewResponse` of the current files and writes nothing |
| `Handlers.Wiki.Edit` | src/wiki.go:97-103 | answers `EditResponse` of the current files and writes nothing |
| `Handlers.Wiki.SaveBody` | src/wiki.go:105-114 | answers `SaveResponse`; on success the files become `Written(old files, Page(title, body))`, on failure they are unchanged |
| `Handlers.Wiki.Serve` | src/wiki.go:116-125 | a rejected path gives not-found and leaves the files unchanged; an accepted one runs the handler on the captured title with that handler's response and effect |

## Left out

- Markdown conversion inside `Page.html` (src/wiki.go:73-81) is a call into an external library. It is the `markdown` parameter of `Wiki`, about which nothing is assumed.
- Template loading and execution (src/wiki.go:31, 48-66) are not modelled: the shared `main.html` frame, the "Failed to load ..." fallback when a part fails, and the 500 answer when the frame fails. A rendered answer is `Render(template name, value handed to it)`.
- File I/O details are not modelled: `os.Mkdir` and its ignored error, file modes, and read failures other than a missing file. A page loads exactly when its file is in the map, and the mkdir-then-write sequence is one write whose outcome is the `writeErr` parameter.
- Handlers.Wiki.Save: a failed write leaves the files unchanged. A real write that fails halfway can leave a truncated file; that is not modelled.
- The request multiplexer, `main`, static assets under `/assets/` and form decoding (src/wiki.go:106, 131-138) are plumbing. The handler that `makeHandler` wraps is the `handler` argument of `Serve`, and the form's `body` field arrives as bytes. Path cleaning by the multiplexer is not modelled either.
- Go strings are UTF-8 bytes and the model's strings are sequences of characters. Both patterns only involve ASCII characters, so a multi-byte character never takes part in a match in either form.
- Concurrent requests and the last-writer-wins race on one file are outside a sequential model.
