# sdlgpuway site generator — a Dafny model

This project models the site generator behind the SDL GPU Way tutorials.
The generator keeps one global registry of content pages. Each page has a
route, a title, a description and a list of template fragments. The
generator then runs in one of two modes:

- **development mode** serves the registry over HTTP. Requests under
  `/static/` go to the file server. Every other request is matched against
  the registry by exact route: the first page with that route is rendered,
  and an unknown route gets "404 Not Found".
- **build mode** renders every page, in registry order, into a file under
  `public12`. A route whose joined path has no extension becomes a
  directory holding an `index.html`. A route with an extension is written
  as it is.

Rendering names the template set after the first fragment (`filepath.Base`)
and loads every fragment from `filepath.Join("templates", fragment)`. It
picks the tutorial language from the route ("/odin/" before "/c/") and
executes the set against a context that marks the page's own route as
current.

The modules follow the program's structure:

| module | file | what it holds |
|---|---|---|
| `Wrappers` | wrappers.dfy | `Option` and `Result` |
| `Text` | text.dfy | the `hasPrefix` and `eq` template helpers; `strings.Contains` |
| `Paths` | paths.dfy | Go's `filepath.Clean`, `Join` (two elements), `Base` and `Ext`, for `/`-separated paths |
| `Registry` | registry.dfy | `Page`, the two page lists, and a `Site` class whose `pages` field start-up appends to |
| `Render` | render.dfy | language choice, the render context, fragment paths, the fragment loop (a method) and `renderTemplate` (a method proved equal to the function `Render`) |
| `DevServer` | dev_server.dfy | the registry scan (a method with a `break`ing loop, proved equal to `Find`) and the request handler |
| `StaticSite` | static_site.dfy | the output-path rule and the build loop (a method proved equal to the function `Build`), plus the agreement between the two modes |

The template engine is not modelled. An `Engine` is a value holding two
functions:

- `parses(file)` says whether a file parses;
- `execute(plan)` gives the output of an execution, or `None` when it fails.

The source panics on a parse or execute error. The model returns a
`RenderError` instead: `ParseFailed(file)`, `ExecuteFailed`, or
`NoTemplates` for the index panic on an empty fragment list.

The build is specified by `Build(pages, place, render)`. Its `place`
argument is the output-path rule and its `render` argument is the page
renderer. `GenerateStaticSite` instantiates them with
`Placement(OutputRoot)` and `PageRender(engine)`. The lemmas about the
build hold for every placement and renderer. For the start-up registry
they are combined with the output-path lemmas.

Start-up appends the three Odin pages twice, at main.go:78 and main.go:83.
The registry therefore holds nine entries, and three routes appear twice.
The model keeps both appends. It proves the duplicates harmless:

- entries with the same route are the same page (`DevServer.StartupRoutesAgree`);
- the dev server finds every registered route's own page (`DevServer.StartupLookup`);
- no two different pages share an output file (`StaticSite.StartupNoCollisions`);
- after a successful build, both modes serve the same content for every
  route (`StaticSite.StartupModesAgree`).

A route registered twice is found at its first entry by the dev server
(main.go:150), while in build mode the later write to the same file wins
(`DevServer.Lookup`, `DevServer.StartupFirstOccurrence`,
`StaticSite.BuildLastWriteWins`). For the start-up registry both give the
same page.

The agreement between the two modes assumes both are handed the same
`Engine`, that is, that the template files do not change between the build
and a later request. The dev server re-reads them on every request
(main.go:101-103).

## Model

| member | source | states |
|---|---|---|
| Text.HasPrefix | main.go:95-97 | `hasPrefix(s, prefix)` is true exactly when `prefix` is a prefix of `s`; the length guard keeps the slice in range |
| Text.EqIsEquivalence | main.go:98 | the `eq` helper is reflexive, symmetric and transitive |
| Text.HasPrefixAntisymmetric | main.go:95-98 | two strings that are each a prefix of the other are `eq` |
| Text.ContainsIff | main.go:114-116 | `strings.Contains(s, sub)` holds exactly when `sub` occurs in `s` at some index |
| Text.ContainsOnlyShorter | main.go:114-116 | a string never contains a longer one |
| Text.ContainsAt | main.go:114-116 | an occurrence at a known index makes `Contains` true |
| Paths.JoinSepSplit | main.go:102 | splitting at separators and rejoining gives the path back |
| Paths.SplitJoinSep | main.go:102 | joining plain names with separators and splitting gives the names back |
| Paths.JoinSepInjective | main.go:171-173 | two non-empty lists of plain names that join to the same path are equal |
| Paths.CleanIdempotent | main.go:102 | `filepath.Clean` applied twice gives the same result as once |
| Paths.CleanOfNames | main.go:102 | a path made of plain names, with empty elements only between two groups of them, cleans to those names joined by single separators |
| Paths.Join | main.go:102 | `filepath.Join(a, b)` is empty exactly when both arguments are |
| Paths.JoinRelative | main.go:102 | joining two relative paths of plain names concatenates their names |
| Paths.JoinRooted | main.go:102 | joining a rooted second argument puts it under the first; the leading slash does not make the result absolute |
| Paths.JoinEndsWithName | main.go:173 | joining a plain name gives that name, or some front, a separator, then the name |
| Paths.JoinLastElement | main.go:172-173 | after joining a plain name, `Base` is that name and `Ext` is the name's extension |
| Paths.JoinStaysUnder | main.go:102 | joining under a plain-name root without `..` elements stays at or under the root |
| Paths.Base | main.go:94 | `filepath.Base` is never empty and holds no separator unless it is "/" |
| Paths.BaseOf | main.go:94 | `Base` of a plain name, or of any path ending in a separator and that name, is the name |
| Paths.Ext | main.go:172 | `filepath.Ext` is empty, or a suffix of the path that starts with its only dot and has no separator |
| Paths.ExtOfLast | main.go:172 | `Ext` looks only at the last element |
| Paths.ExtNone | main.go:172 | a last element without a dot has no extension |
| Paths.ExtDotted | main.go:172 | a last element with a dot has the extension from its last dot on |
| Registry.Site.constructor | main.go:21-40 | the registry starts with the three base pages in declaration order |
| Registry.Site.AppendPages | main.go:78 | `append(Pages, extra...)` leaves the old entries and adds `extra` after them |
| Registry.Startup | main.go:77-83 | after the two appends the registry is the base pages followed by the Odin pages twice |
| Registry.StartupShape | main.go:21-83 | the start-up registry has nine entries; the first three are the base pages; entries 3+k and 6+k are both the k-th Odin page |
| Registry.StartupRoutes | main.go:21-74 | the routes of the six distinct start-up entries, in registry order |
| Registry.StartupFold | main.go:78-83 | every start-up entry equals the entry among the first six that it repeats |
| Registry.StartupRouteLengths | main.go:21-74 | the six distinct start-up routes have pairwise different lengths, so no two of them are equal |
| Render.ChooseLanguageSpec | main.go:108-120 | the language is Odin exactly when "/odin/" occurs in the route; C exactly when "/c/" occurs and "/odin/" does not; otherwise empty |
| Render.OdinTakesPriority | main.go:114-117 | a route holding both "/odin/" and "/c/" is an Odin page |
| Render.LanguageExamples | main.go:113-120 | the Odin prerequisites route is Odin; the home route has no language |
| Render.ContextOfPage | main.go:122-134 | the context carries the page, its route as the current page, its title and description, and the chosen language |
| Render.TemplatePathUnderTemplates | main.go:102 | a fragment without `..` elements is loaded from the templates directory or under it |
| Render.TemplatePathRooted | main.go:102 | a rooted fragment is loaded from under "templates", its leading slash dropped |
| Render.HomeTemplate | main.go:94-102 | the home fragment loads from "templates/index.html" and names its set "index.html" |
| Render.TutorialTemplatePath | main.go:102 | the tutorials' rooted first fragment loads from "templates/tutorials/sdl-gpu/template.html" |
| Render.TutorialTemplateName | main.go:94 | the tutorial pages' template set is named "template.html" |
| Render.ParseAllSucceeds | main.go:101-107 | loading succeeds exactly when every fragment's file parses, and then yields those files in order |
| Render.ParseAllFailsAt | main.go:101-107 | loading fails at the first fragment that does not parse, naming its file |
| Render.ParseTemplates | main.go:101-107 | the fragment loop computes `ParseAll` |
| Render.RenderSpec | main.go:93-140 | a render succeeds exactly when the page has fragments, all of them parse and the execution succeeds; the output is the execution's; no fragments gives `NoTemplates`; a failed execution after every fragment parsed gives `ExecuteFailed` (the panic at main.go:138) |
| Render.RenderFailsAt | main.go:101-107 | a render whose k-th fragment is the first that does not parse fails with `ParseFailed` naming that fragment's file (the panic at main.go:105) |
| Render.RenderTemplate | main.go:93-140 | `renderTemplate` computes `Render` |
| DevServer.FirstIndex | main.go:146-152 | the result is the first index with the requested route, or none exactly when no entry has it |
| DevServer.Lookup | main.go:146-152 | the registry scan finds the first page with the requested route, or none |
| DevServer.ServeRequest | main.go:142-160 | the handler chain computes `Handle` |
| DevServer.StaticSpec | main.go:142 | a request under "/static/" goes to the file server, with the prefix stripped, whatever the registry holds |
| DevServer.HandleSpec | main.go:154-159 | another request with a registered route renders the first page with that route, whose context marks the route as current; the response is `Rendered` exactly when the render succeeds, with its output, and `ServerError` with the render's error exactly when it fails |
| DevServer.NotFoundSpec | main.go:154-157 | a request outside "/static/" gets 404 exactly when no page has its route |
| DevServer.StartupRoutesAgree | main.go:78-83 | in the start-up registry, entries with the same route are the same page |
| DevServer.StartupFirstOccurrence | main.go:147-151 | a duplicated Odin route is found at its first entry (3+k), not its second (6+k) |
| DevServer.StartupLookup | main.go:146-152 | after start-up, every registered route is served its own page |
| StaticSite.IndexFileShape | main.go:173 | "index.html" is a plain name with extension ".html" |
| StaticSite.OutputPathHasExtension | main.go:171-174 | every output path has an extension; a joined route without one gets "index.html" as its base, and one with an extension is kept |
| StaticSite.ExtOfJoinSep | main.go:172 | the extension of a joined list of names is the last name's |
| StaticSite.OutputPathOfRoute | main.go:171-174 | a clean route under a root of names is written to root and route names, plus "index.html" when the last name has no extension |
| StaticSite.OutputPathOfHome | main.go:171-174 | the home route is written to the root's "index.html", or to the root if it has an extension |
| StaticSite.OutputPathIndexed | main.go:171-174 | a route whose last name has no extension is written to root, route, "/index.html" |
| StaticSite.OutputPathAsIs | main.go:171-174 | a route whose last name has an extension is written to root followed by route |
| StaticSite.OutputPathInjective | main.go:171-174 | distinct clean routes that do not end in "index.html" get distinct output files |
| StaticSite.OutputPathOf | main.go:171-174 | the output path computation equals `OutputPath` under "public12" |
| StaticSite.BuildNext | main.go:169-186 | one iteration of the build creates the next page's file empty on top of the earlier files, then writes its render into it, or, when the render fails, ends the build with that file empty and the error |
| StaticSite.BuildStops | main.go:178-184 | once a page has failed, later pages change nothing |
| StaticSite.GenerateStaticSite | main.go:165-187 | the build loop computes `Build` with the "public12" placement and the engine's renderer |
| StaticSite.BuildSucceeds | main.go:169-187 | a build succeeds exactly when every page renders, and then its files are exactly the pages' output paths |
| StaticSite.BuildFailsAt | main.go:178-184 | the first page that fails stops the build; earlier files stay and its own file is left created and empty |
| StaticSite.BuildLastWriteWins | main.go:178-184 | a page's file holds its render when no later page writes the same path |
| StaticSite.LastWriter | main.go:169-184 | names the last page written to the same file as a given page; no later page writes it |
| StaticSite.BuildContents | main.go:169-187 | when no two different pages share a file, every page's file holds that page's render |
| StaticSite.BuildMatchesDevServer | main.go:141-187 | after a collision-free successful build, the dev server answers each registered route with its file's content |
| StaticSite.RootOutputPath | main.go:171-174 | "/" is written to "public12/index.html" |
| StaticSite.GetStartedOutputPath | main.go:171-174 | "/tutorials/sdl-gpu/get-started" is written to its directory's "index.html" |
| StaticSite.HelloSdlOutputPath | main.go:171-174 | ".../1-1-hello_sdl.html" is written as it is, under "public12" |
| StaticSite.StartupRouteAt | main.go:21-83 | every start-up route is a clean route that starts with "tutorials" or is "/", and does not end in "index.html" |
| StaticSite.StartupNoCollisions | main.go:169-174 | in the start-up registry, pages written to the same file are the same page |
| StaticSite.StartupNotStatic | main.go:142-143 | no start-up route lies under "/static/", so each reaches the page handler |
| StaticSite.StartupModesAgree | main.go:141-187 | after start-up, a successful build and the dev server serve the same content for every registered route |

## Left out

- The template engine: parsing, the `hasPrefix` and `eq` functions as seen from templates, and execution are opaque functions of an `Engine` value.
- Panics at main.go:105 and 138 are modelled as error values. `NoTemplates` stands for the index panic at main.go:94 on a page with no fragments.
- Partial output: a failed `Execute` may already have written part of a file; the model leaves the failing page's file empty.
- Partial responses: in development mode a failed `Execute` may already have streamed part of a 200 response, after which net/http recovers the panic and closes the connection without sending a 500. A failed `ParseFiles` panics at main.go:105 before anything is written, so the client gets a closed connection and no response at all. `DevServer.Response.ServerError` stands in for both: `ServerError(ExecuteFailed)` for the first, `ServerError(ParseFailed(_))` for the second.
- Filesystem effects: removing and re-creating `public12`, `MkdirAll` of each parent directory, `defer file.Close`, and a failing `os.Create` with its panic at main.go:180 are not modelled. The build is a map from output paths to contents.
- `CopyDir` (copyDir.go) and its copy of `./static/` to `./output/static/` are not part of this model. So is the log message naming `output/`, where the pages themselves go to `public12`.
- HTTP serving: ServeMux path cleaning and redirects, the file server's own behaviour, response headers and the listener are not modelled. A static request is answered with the stripped file name.
- Command-line flags and logging: the choice of mode is left to the caller of each mode's operations.
- Concurrency: the dev server's concurrent handling of requests is not modelled; the handler only reads the registry.
- `Paths.Join`: models only the two-argument calls the program makes, with `/` as the only separator (no Windows volumes or `\`).
- `Render.ParseTemplates`: a file that parses is only recorded by name; what `ParseFiles` adds to the template set is the engine's business.
