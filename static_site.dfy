/**
 * Build mode: every registered page is rendered into a file under the output
 * directory. A route whose joined path has no extension becomes a directory
 * holding an "index.html"; a route with an extension is written as it is.
 */
module StaticSite {
  import opened Wrappers
  import Paths
  import opened Registry
  import opened Render
  import opened DevServer

  /** The output directory, emptied before the build. */
  const OutputRoot: string := "public12"

  /** The file written for a route that names a directory. */
  const IndexFile: string := "index.html"

  /** Where a page's route is written under `root`. */
  function OutputPath(root: string, route: string): string
  {
    var p := Paths.Join(root, route);
    if Paths.Ext(p) == "" then Paths.Join(p, IndexFile) else p
  }

  /** "index.html" is a plain name whose extension is ".html". */
  lemma IndexFileShape()
    ensures Paths.IsName(IndexFile)
    ensures Paths.Ext(IndexFile) == ".html"
  {
    assert "index" + "." + "html" == IndexFile;
    Paths.ExtDotted("index", "html");
  }

  /**
   * Every output path has an extension: either the joined route already had
   * one, or it is a directory and the file written is its "index.html".
   */
  lemma OutputPathHasExtension(root: string, route: string)
    ensures Paths.Ext(OutputPath(root, route)) != ""
    ensures Paths.Ext(Paths.Join(root, route)) == "" ==> Paths.Base(OutputPath(root, route)) == IndexFile
    ensures Paths.Ext(Paths.Join(root, route)) != "" ==> OutputPath(root, route) == Paths.Join(root, route)
  {
    IndexFileShape();
    var p := Paths.Join(root, route);
    if Paths.Ext(p) == "" {
      Paths.JoinLastElement(p, IndexFile);
    }
  }

  // ---------------------------------------------------------------------------
  // Output paths of clean routes
  // ---------------------------------------------------------------------------

  /** A clean route: a separator before each name, or "/" alone. */
  function Route(ns: seq<string>): string
  {
    "/" + Paths.JoinSep(ns)
  }

  function Last(es: seq<string>): string
    requires |es| >= 1
  {
    es[|es| - 1]
  }

  /** A clean route extended by one name. */
  lemma RouteExtend(ns: seq<string>, n: string)
    requires Paths.AllNames(ns) && Paths.IsName(n)
    ensures Route(ns + [n]) == (if ns == [] then "" else Route(ns)) + "/" + n
  {
    if ns == [] {
      assert ns + [n] == [n];
    } else {
      Paths.JoinSepAppend(ns, [n]);
    }
  }

  lemma FrontAndLast(es: seq<string>)
    requires |es| >= 1
    ensures es[..|es| - 1] + [Last(es)] == es
  {
  }

  /** The extension of joined names is that of the last name. */
  lemma ExtOfJoinSep(es: seq<string>)
    requires |es| >= 1 && Paths.AllNames(es)
    ensures Paths.Ext(Paths.JoinSep(es)) == Paths.Ext(Last(es))
  {
    if |es| > 1 {
      var front := es[..|es| - 1];
      FrontAndLast(es);
      Paths.JoinSepAppend(front, [Last(es)]);
      assert Paths.IsName(Last(es));
      Paths.ExtOfLast(Paths.JoinSep(front), Last(es));
    }
  }

  /**
   * Under a root of plain names, a clean route is written to the root's names
   * followed by the route's, plus "index.html" when the last of them has no
   * extension.
   */
  lemma OutputPathOfRoute(rs: seq<string>, ns: seq<string>)
    requires |rs| >= 1 && Paths.AllNames(rs) && Paths.AllNames(ns)
    ensures OutputPath(Paths.JoinSep(rs), Route(ns)) ==
      if Paths.Ext(Last(rs + ns)) == "" then Paths.JoinSep(rs + ns + [IndexFile]) else Paths.JoinSep(rs + ns)
  {
    var es := rs + ns;
    assert Paths.AllNames(es) by {
      assert forall k :: 0 <= k < |ns| ==> es[|rs| + k] == ns[k];
    }
    Paths.JoinRooted(rs, ns);
    ExtOfJoinSep(es);
    if Paths.Ext(Last(es)) == "" {
      IndexFileShape();
      assert Paths.JoinSep([IndexFile]) == IndexFile;
      Paths.JoinRelative(es, [IndexFile]);
    }
  }

  /** Under a single-name root, the home route "/" is written to the root's "index.html", or to the root itself if it has an extension. */
  lemma OutputPathOfHome(root: string)
    requires Paths.IsName(root)
    ensures Paths.Ext(root) == "" ==> OutputPath(root, "/") == root + "/" + IndexFile
    ensures Paths.Ext(root) != "" ==> OutputPath(root, "/") == root
  {
    assert Paths.JoinSep([root]) == root;
    assert Route([]) == "/";
    OutputPathOfRoute([root], []);
    assert [root] + [] == [root];
    assert Paths.JoinSep([root] + [IndexFile]) == root + "/" + IndexFile;
  }

  /**
   * Under a single-name root, a clean route other than "/" whose last name has
   * no extension is written to the root, the route, then "/index.html".
   */
  lemma OutputPathIndexed(root: string, ns: seq<string>)
    requires Paths.IsName(root) && Paths.AllNames(ns) && ns != [] && Paths.Ext(Last(ns)) == ""
    ensures OutputPath(root, Route(ns)) == root + Route(ns) + "/" + IndexFile
  {
    assert Paths.JoinSep([root]) == root;
    assert Last([root] + ns) == Last(ns);
    OutputPathOfRoute([root], ns);
    IndexedUnder(root, ns);
  }

  /** A clean route whose last name has an extension is written to the root followed by the route. */
  lemma OutputPathAsIs(root: string, ns: seq<string>)
    requires Paths.IsName(root) && Paths.AllNames(ns) && ns != [] && Paths.Ext(Last(ns)) != ""
    ensures OutputPath(root, Route(ns)) == root + Route(ns)
  {
    assert Paths.JoinSep([root]) == root;
    assert Last([root] + ns) == Last(ns);
    OutputPathOfRoute([root], ns);
    JoinSepUnder(root, ns);
  }

  /** The names of a route under a root, followed by "index.html", spelled out. */
  lemma IndexedUnder(root: string, ns: seq<string>)
    requires ns != []
    ensures Paths.JoinSep([root] + ns + [IndexFile]) == root + Route(ns) + "/" + IndexFile
  {
    var j := Paths.JoinSep(ns);
    Paths.JoinSepAppend(ns, [IndexFile]);
    assert Paths.JoinSep([IndexFile]) == IndexFile;
    assert [root] + ns + [IndexFile] == [root] + (ns + [IndexFile]);
    JoinSepUnder(root, ns + [IndexFile]);
    assert root + "/" + (j + "/" + IndexFile) == root + ("/" + j) + "/" + IndexFile;
  }

  /** Joining a name before other names puts a separator between them. */
  lemma JoinSepUnder(root: string, ns: seq<string>)
    requires ns != []
    ensures Paths.JoinSep([root] + ns) == root + "/" + Paths.JoinSep(ns)
  {
    assert ([root] + ns)[1..] == ns;
  }

  /** The elements of a clean route's output path, and the shape of that list. */
  lemma OutputElements(rs: seq<string>, ns: seq<string>) returns (es: seq<string>)
    requires |rs| >= 1 && Paths.AllNames(rs) && Paths.AllNames(ns)
    ensures OutputPath(Paths.JoinSep(rs), Route(ns)) == Paths.JoinSep(es)
    ensures |es| >= 1 && Paths.NoSeparators(es)
    ensures es == rs + ns || es == rs + ns + [IndexFile]
  {
    OutputPathOfRoute(rs, ns);
    IndexFileShape();
    var named := rs + ns;
    assert Paths.AllNames(named) by {
      assert forall k :: 0 <= k < |ns| ==> named[|rs| + k] == ns[k];
    }
    if Paths.Ext(Last(named)) == "" {
      es := named + [IndexFile];
    } else {
      es := named;
    }
    assert Paths.AllNames(es);
  }

  /** Two name lists under the same root, each maybe followed by "index.html", are equal when their results are. */
  lemma IndexedEqual(rs: seq<string>, ns1: seq<string>, ns2: seq<string>, e1: seq<string>, e2: seq<string>)
    requires |rs| >= 1 && Last(rs + ns1) != IndexFile && Last(rs + ns2) != IndexFile
    requires e1 == rs + ns1 || e1 == rs + ns1 + [IndexFile]
    requires e2 == rs + ns2 || e2 == rs + ns2 + [IndexFile]
    requires e1 == e2
    ensures ns1 == ns2
  {
    var i1 := e1 != rs + ns1;
    var i2 := e2 != rs + ns2;
    assert i1 == i2 by {
      assert e1[|e1| - 1] == (if i1 then IndexFile else Last(rs + ns1));
      assert e2[|e2| - 1] == (if i2 then IndexFile else Last(rs + ns2));
    }
    var m1, m2 := rs + ns1, rs + ns2;
    assert m1 == m2 by {
      if i1 {
        assert m1 == e1[..|e1| - 1] && m2 == e2[..|e2| - 1];
      }
    }
    assert m1[|rs|..] == ns1 && m2[|rs|..] == ns2;
  }

  /**
   * Distinct clean routes are written to distinct files, as long as neither
   * route (nor the root, for "/") ends in "index.html".
   */
  lemma OutputPathInjective(rs: seq<string>, ns1: seq<string>, ns2: seq<string>)
    requires |rs| >= 1 && Paths.AllNames(rs) && Paths.AllNames(ns1) && Paths.AllNames(ns2)
    requires Last(rs + ns1) != IndexFile && Last(rs + ns2) != IndexFile
    requires OutputPath(Paths.JoinSep(rs), Route(ns1)) == OutputPath(Paths.JoinSep(rs), Route(ns2))
    ensures ns1 == ns2
  {
    var e1 := OutputElements(rs, ns1);
    var e2 := OutputElements(rs, ns2);
    Paths.JoinSepInjective(e1, e2);
    IndexedEqual(rs, ns1, ns2, e1, e2);
  }

  // ---------------------------------------------------------------------------
  // The build
  // ---------------------------------------------------------------------------

  /** Where the build places each route: its output path under `root`. */
  function Placement(root: string): string -> string
  {
    route => OutputPath(root, route)
  }

  /** How the site turns a page into the text of its file: `renderTemplate` with the site's engine. */
  function PageRender(engine: Engine): Page -> Result<string, RenderError>
  {
    page => Render.Render(page, engine)
  }

  /**
   * What a build leaves behind: the files written, by path, and the render
   * error that stopped it, if one did (the source panics).
   */
  datatype Outcome = Outcome(files: map<string, string>, failure: Option<RenderError>)

  /**
   * Build the pages in registry order into an emptied output directory, page
   * `p` going to `place(p.path)`. Each output file is created (empty) before
   * its page is rendered; a later page with the same output path overwrites an
   * earlier one; the first failed render stops the build.
   */
  function Build(pages: seq<Page>, place: string -> string, render: Page -> Result<string, RenderError>): Outcome
    decreases |pages|
  {
    if pages == [] then Outcome(map[], None)
    else
      var prior := Build(pages[..|pages| - 1], place, render);
      if prior.failure.Some? then prior
      else
        var page := pages[|pages| - 1];
        var path := place(page.path);
        match render(page)
        case Err(e) => Outcome(prior.files[path := ""], Some(e))
        case Ok(body) => Outcome(prior.files[path := body], None)
  }

  /** Once a page has failed, the pages after it change nothing. */
  lemma {:induction false} BuildStops(pages: seq<Page>, place: string -> string, render: Page -> Result<string, RenderError>, n: nat)
    requires n <= |pages| && Build(pages[..n], place, render).failure.Some?
    ensures Build(pages, place, render) == Build(pages[..n], place, render)
    decreases |pages| - n
  {
    if n < |pages| {
      assert pages[..n + 1][..n] == pages[..n];
      BuildStops(pages, place, render, n + 1);
    } else {
      assert pages[..n] == pages;
    }
  }

  /** The output path computation of `generateStaticSite`. */
  method OutputPathOf(route: string) returns (outputPath: string)
    ensures outputPath == Placement(OutputRoot)(route)
  {
    outputPath := Paths.Join(OutputRoot, route);
    if Paths.Ext(outputPath) == "" {
      outputPath := Paths.Join(outputPath, IndexFile);
    }
  }

  /**
   * One step of the build, in the terms of one iteration of its loop: the next
   * page's output file is created empty on top of what the earlier pages left,
   * then the render is written into it, or the build stops there for good.
   */
  lemma BuildNext(pages: seq<Page>, place: string -> string, render: Page -> Result<string, RenderError>,
                  i: nat, files: map<string, string>)
    requires i < |pages| && Build(pages[..i], place, render) == Outcome(files, None)
    ensures render(pages[i]).Ok? ==>
      Build(pages[..i + 1], place, render) ==
      Outcome(files[place(pages[i].path) := ""][place(pages[i].path) := render(pages[i]).value], None)
    ensures render(pages[i]).Err? ==>
      Build(pages, place, render) == Outcome(files[place(pages[i].path) := ""], Some(render(pages[i]).error))
  {
    assert pages[..i + 1][..i] == pages[..i];
    var path := place(pages[i].path);
    if render(pages[i]).Ok? {
      assert files[path := ""][path := render(pages[i]).value] == files[path := render(pages[i]).value];
    } else {
      BuildStops(pages, place, render, i + 1);
    }
  }

  /** The build loop of `generateStaticSite`. */
  method GenerateStaticSite(pages: seq<Page>, engine: Engine) returns (out: Outcome)
    ensures out == Build(pages, Placement(OutputRoot), PageRender(engine))
  {
    var files: map<string, string> := map[];
    for i := 0 to |pages|
      invariant Build(pages[..i], Placement(OutputRoot), PageRender(engine)) == Outcome(files, None)
    {
      var page := pages[i];
      BuildNext(pages, Placement(OutputRoot), PageRender(engine), i, files);
      var outputPath := OutputPathOf(page.path);
      var created := files[outputPath := ""];
      var r := RenderTemplate(page, engine);
      assert r == PageRender(engine)(page);
      if r.Err? {
        return Outcome(created, Some(r.error));
      }
      files := created[outputPath := r.value];
    }
    assert pages[..|pages|] == pages;
    return Outcome(files, None);
  }

  /** A build succeeds exactly when every page renders, and then writes exactly the pages' output paths. */
  lemma {:induction false} BuildSucceeds(pages: seq<Page>, place: string -> string, render: Page -> Result<string, RenderError>)
    ensures Build(pages, place, render).failure.None? <==>
      forall k :: 0 <= k < |pages| ==> render(pages[k]).Ok?
    ensures Build(pages, place, render).failure.None? ==>
      Build(pages, place, render).files.Keys == set k | 0 <= k < |pages| :: place(pages[k].path)
    decreases |pages|
  {
    if pages != [] {
      var front := pages[..|pages| - 1];
      var last := pages[|pages| - 1];
      BuildSucceeds(front, place, render);
      assert forall k :: 0 <= k < |front| ==> front[k] == pages[k];
      var all := set k | 0 <= k < |pages| :: place(pages[k].path);
      var before := set k | 0 <= k < |front| :: place(front[k].path);
      assert all == before + {place(last.path)} by {
        forall x | x in all ensures x in before + {place(last.path)} {
          var k :| 0 <= k < |pages| && x == place(pages[k].path);
          if k < |front| {
            assert x == place(front[k].path);
          }
        }
      }
    }
  }

  /**
   * The first page that fails to render stops the build: the files of the
   * pages before it stay, and its own output file is left created but empty.
   */
  lemma {:induction false} BuildFailsAt(pages: seq<Page>, place: string -> string, render: Page -> Result<string, RenderError>, k: nat)
    requires k < |pages| && render(pages[k]).Err?
    requires forall j :: 0 <= j < k ==> render(pages[j]).Ok?
    ensures Build(pages, place, render) ==
      Outcome(Build(pages[..k], place, render).files[place(pages[k].path) := ""],
              Some(render(pages[k]).error))
    decreases |pages|
  {
    var front := pages[..|pages| - 1];
    assert forall j :: 0 <= j < |front| ==> front[j] == pages[j];
    if k == |pages| - 1 {
      BuildSucceeds(front, place, render);
      assert front == pages[..k];
    } else {
      BuildFailsAt(front, place, render, k);
      assert front[..k] == pages[..k];
    }
  }

  /** A page's file holds its render when no later page is written to the same path. */
  lemma {:induction false} BuildLastWriteWins(pages: seq<Page>, place: string -> string, render: Page -> Result<string, RenderError>, k: nat)
    requires Build(pages, place, render).failure.None?
    requires k < |pages|
    requires forall j :: k < j < |pages| ==> place(pages[j].path) != place(pages[k].path)
    ensures place(pages[k].path) in Build(pages, place, render).files
    ensures render(pages[k]).Ok?
    ensures Build(pages, place, render).files[place(pages[k].path)] == render(pages[k]).value
    decreases |pages|
  {
    var front := pages[..|pages| - 1];
    if k < |pages| - 1 {
      assert forall j :: 0 <= j < |front| ==> front[j] == pages[j];
      BuildLastWriteWins(front, place, render, k);
    }
  }

  /** No two pages that differ are written to the same file. */
  predicate NoCollisions(pages: seq<Page>, place: string -> string)
  {
    forall i, j :: 0 <= i < |pages| && 0 <= j < |pages| && place(pages[i].path) == place(pages[j].path) ==>
      pages[i] == pages[j]
  }

  /** The last page written to the same file as page k. */
  function LastWriter(pages: seq<Page>, place: string -> string, k: nat): (w: nat)
    requires k < |pages|
    ensures k <= w < |pages| && place(pages[w].path) == place(pages[k].path)
    ensures forall j :: w < j < |pages| ==> place(pages[j].path) != place(pages[k].path)
    decreases |pages| - k
  {
    if k == |pages| - 1 then k
    else if place(pages[|pages| - 1].path) == place(pages[k].path) then |pages| - 1
    else LastWriter(pages[..|pages| - 1], place, k)
  }

  /** Without collisions every page's file holds that page's render, duplicates included. */
  lemma BuildContents(pages: seq<Page>, place: string -> string, render: Page -> Result<string, RenderError>, k: nat)
    requires Build(pages, place, render).failure.None? && NoCollisions(pages, place)
    requires k < |pages|
    ensures place(pages[k].path) in Build(pages, place, render).files
    ensures render(pages[k]).Ok?
    ensures Build(pages, place, render).files[place(pages[k].path)] == render(pages[k]).value
  {
    var last := LastWriter(pages, place, k);
    BuildLastWriteWins(pages, place, render, last);
  }

  /**
   * Build and development modes agree: when the build succeeds without
   * collisions, the dev server answers each registered route with the
   * content of the file the build wrote for it.
   */
  lemma BuildMatchesDevServer(pages: seq<Page>, place: string -> string, engine: Engine, k: nat)
    requires Build(pages, place, PageRender(engine)).failure.None? && NoCollisions(pages, place)
    requires k < |pages| && !(StaticPrefix <= pages[k].path)
    ensures place(pages[k].path) in Build(pages, place, PageRender(engine)).files
    ensures Handle(pages, pages[k].path, engine) ==
      Rendered(Build(pages, place, PageRender(engine)).files[place(pages[k].path)])
  {
    var i := FirstIndex(pages, pages[k].path).value;
    assert pages[i] == pages[k];
    BuildContents(pages, place, PageRender(engine), k);
    BuildSucceeds(pages, place, PageRender(engine));
    assert PageRender(engine)(pages[k]).Ok?;
  }

  // ---------------------------------------------------------------------------
  // The start-up registry
  // ---------------------------------------------------------------------------

  // The start-up routes, built one name at a time. Each step uses one fact
  // about string literals, stated in the spelling lemmas after them.

  lemma TutorialRoute() returns (ns: seq<string>)
    ensures |ns| >= 2 && ns[0] == "tutorials"
    ensures Paths.AllNames(ns) && Route(ns) == "/tutorials/sdl-gpu" && Last(ns) == "sdl-gpu"
  {
    var t, s := "tutorials", "sdl-gpu";
    TutorialSpelling();
    RouteExtend([], t);
    assert [] + [t] == [t];
    RouteExtend([t], s);
    ns := [t, s];
  }

  lemma GetStartedRoute() returns (ns: seq<string>)
    ensures |ns| >= 2 && ns[0] == "tutorials"
    ensures Paths.AllNames(ns) && Route(ns) == "/tutorials/sdl-gpu/get-started" && Last(ns) == "get-started"
  {
    var front := TutorialRoute();
    GetStartedSpelling();
    RouteExtend(front, "get-started");
    ns := front + ["get-started"];
  }

  lemma OdinRoute() returns (ns: seq<string>)
    ensures |ns| >= 2 && ns[0] == "tutorials"
    ensures Paths.AllNames(ns) && Route(ns) == "/tutorials/sdl-gpu/odin" && Last(ns) == "odin"
  {
    var front := TutorialRoute();
    OdinSpelling();
    RouteExtend(front, "odin");
    ns := front + ["odin"];
  }

  lemma PrerequisitesRoute() returns (ns: seq<string>)
    ensures |ns| >= 2 && ns[0] == "tutorials"
    ensures Paths.AllNames(ns) && Route(ns) == "/tutorials/sdl-gpu/odin/prerequisites" && Last(ns) == "prerequisites"
  {
    var front := OdinRoute();
    PrerequisitesSpelling();
    RouteExtend(front, "prerequisites");
    ns := front + ["prerequisites"];
  }

  lemma ChapterRoute() returns (ns: seq<string>)
    ensures |ns| >= 2 && ns[0] == "tutorials"
    ensures Paths.AllNames(ns) && Route(ns) == "/tutorials/sdl-gpu/odin/chapter-1-hello-gpu" && Last(ns) == "chapter-1-hello-gpu"
  {
    var front := OdinRoute();
    ChapterSpelling();
    RouteExtend(front, "chapter-1-hello-gpu");
    ns := front + ["chapter-1-hello-gpu"];
  }

  lemma HelloSdlRoute() returns (ns: seq<string>)
    ensures |ns| >= 2 && ns[0] == "tutorials"
    ensures Paths.AllNames(ns) && Route(ns) == "/tutorials/sdl-gpu/odin/chapter-1-hello-gpu/1-1-hello_sdl.html" && Last(ns) == "1-1-hello_sdl.html"
  {
    var front := ChapterRoute();
    HelloSdlSpelling();
    RouteExtend(front, "1-1-hello_sdl.html");
    ns := front + ["1-1-hello_sdl.html"];
  }

  // Facts about string literals, not about the program: each is kept in a
  // lemma of its own so that the route lemmas above do not spell it out.

  lemma TutorialSpelling()
    ensures Paths.IsName("tutorials") && Paths.IsName("sdl-gpu")
    ensures "/" + "tutorials" + "/" + "sdl-gpu" == "/tutorials/sdl-gpu"
  {
  }

  lemma GetStartedSpelling()
    ensures Paths.IsName("get-started")
    ensures "/tutorials/sdl-gpu" + "/" + "get-started" == "/tutorials/sdl-gpu/get-started"
  {
  }

  lemma OdinSpelling()
    ensures Paths.IsName("odin")
    ensures "/tutorials/sdl-gpu" + "/" + "odin" == "/tutorials/sdl-gpu/odin"
  {
  }

  lemma PrerequisitesSpelling()
    ensures Paths.IsName("prerequisites")
    ensures "/tutorials/sdl-gpu/odin" + "/" + "prerequisites" == "/tutorials/sdl-gpu/odin/prerequisites"
  {
  }

  lemma ChapterSpelling()
    ensures Paths.IsName("chapter-1-hello-gpu")
    ensures "/tutorials/sdl-gpu/odin" + "/" + "chapter-1-hello-gpu" == "/tutorials/sdl-gpu/odin/chapter-1-hello-gpu"
  {
  }

  lemma HelloSdlSpelling()
    ensures Paths.IsName("1-1-hello_sdl.html")
    ensures "/tutorials/sdl-gpu/odin/chapter-1-hello-gpu" + "/" + "1-1-hello_sdl.html" == "/tutorials/sdl-gpu/odin/chapter-1-hello-gpu/1-1-hello_sdl.html"
  {
  }

  /** The home route is written to "public12/index.html". */
  lemma RootOutputPath()
    ensures OutputPath(OutputRoot, "/") == OutputRoot + "/" + IndexFile
  {
    assert Paths.IsName(OutputRoot) && '.' !in OutputRoot;
    Paths.ExtNone("", OutputRoot);
    OutputPathOfHome(OutputRoot);
  }

  /** A route without an extension is written to its directory's "index.html". */
  lemma GetStartedOutputPath()
    ensures OutputPath(OutputRoot, "/tutorials/sdl-gpu/get-started") ==
      OutputRoot + "/tutorials/sdl-gpu/get-started" + "/" + IndexFile
  {
    var ns := GetStartedRoute();
    assert Paths.IsName(OutputRoot) && '.' !in "get-started";
    Paths.ExtNone("", "get-started");
    OutputPathIndexed(OutputRoot, ns);
  }

  /** A route with an extension is written as it is, under the output directory. */
  lemma HelloSdlOutputPath()
    ensures OutputPath(OutputRoot, "/tutorials/sdl-gpu/odin/chapter-1-hello-gpu/1-1-hello_sdl.html") ==
      OutputRoot + "/tutorials/sdl-gpu/odin/chapter-1-hello-gpu/1-1-hello_sdl.html"
  {
    var ns := HelloSdlRoute();
    assert Paths.IsName(OutputRoot);
    assert "1-1-hello_sdl" + "." + "html" == "1-1-hello_sdl.html";
    Paths.ExtDotted("1-1-hello_sdl", "html");
    OutputPathAsIs(OutputRoot, ns);
  }

  /** Each of the six distinct start-up routes is a clean route whose last name is not "index.html". */
  lemma StartupRoute(k: nat) returns (ns: seq<string>)
    requires k < 6
    ensures Paths.AllNames(ns) && StartupPages()[k].path == Route(ns)
    ensures Last([OutputRoot] + ns) != IndexFile
    ensures k == 0 <==> ns == []
    ensures ns != [] ==> ns[0] == "tutorials"
  {
    StartupRoutes();
    if k == 0 {
      ns := [];
      assert Route(ns) == "/";
    } else {
      if k == 1 {
        ns := TutorialRoute();
      } else if k == 2 {
        ns := GetStartedRoute();
      } else if k == 3 {
        ns := PrerequisitesRoute();
      } else if k == 4 {
        ns := ChapterRoute();
      } else {
        ns := HelloSdlRoute();
      }
      assert Last([OutputRoot] + ns) == Last(ns);
    }
  }

  /** Every start-up route, duplicates included, is one of the six clean routes. */
  lemma StartupRouteAt(k: nat) returns (ns: seq<string>)
    requires k < |StartupPages()|
    ensures Paths.AllNames(ns) && StartupPages()[k].path == Route(ns)
    ensures Last([OutputRoot] + ns) != IndexFile
    ensures ns == [] || ns[0] == "tutorials"
  {
    StartupFold(k);
    ns := StartupRoute(Fold(k));
  }

  /** In the start-up registry, pages written to the same file are the same page. */
  lemma StartupNoCollisions()
    ensures NoCollisions(StartupPages(), Placement(OutputRoot))
  {
    var p := StartupPages();
    StartupRoutesAgree();
    assert Paths.IsName(OutputRoot);
    assert Paths.JoinSep([OutputRoot]) == OutputRoot;
    forall i, j | 0 <= i < |p| && 0 <= j < |p| && OutputPath(OutputRoot, p[i].path) == OutputPath(OutputRoot, p[j].path)
      ensures p[i] == p[j]
    {
      var ni := StartupRouteAt(i);
      var nj := StartupRouteAt(j);
      OutputPathInjective([OutputRoot], ni, nj);
    }
  }

  /** The root route and routes under "/tutorials" are not under the static prefix. */
  lemma TutorialsNotStatic(ns: seq<string>)
    requires ns == [] || ns[0] == "tutorials"
    ensures !(StaticPrefix <= Route(ns))
  {
    if ns != [] {
      Paths.JoinSepHead(ns);
      assert Route(ns)[1] == 't';
    }
  }

  /** No start-up route lies under the static prefix, so every one of them reaches the page handler. */
  lemma StartupNotStatic(k: nat)
    requires k < |StartupPages()|
    ensures !(StaticPrefix <= StartupPages()[k].path)
  {
    var ns := StartupRouteAt(k);
    TutorialsNotStatic(ns);
  }

  /**
   * After start-up, a successful build and the development server serve the
   * same content for every registered route.
   */
  lemma StartupModesAgree(engine: Engine, k: nat)
    requires Build(StartupPages(), Placement(OutputRoot), PageRender(engine)).failure.None?
    requires k < |StartupPages()|
    ensures OutputPath(OutputRoot, StartupPages()[k].path) in Build(StartupPages(), Placement(OutputRoot), PageRender(engine)).files
    ensures Handle(StartupPages(), StartupPages()[k].path, engine) ==
      Rendered(Build(StartupPages(), Placement(OutputRoot), PageRender(engine)).files[OutputPath(OutputRoot, StartupPages()[k].path)])
  {
    StartupNoCollisions();
    StartupShape();
    StartupNotStatic(k);
    BuildMatchesDevServer(StartupPages(), Placement(OutputRoot), engine, k);
  }
}
