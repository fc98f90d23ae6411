/**
 * The page registry: the `Page` record, the base page list, the Odin tutorial
 * pages, and the start-up code that appends the latter to the former.
 */
module Registry {

  /** One content page: its route, its display strings and its template fragments in composition order. */
  datatype Page = Page(path: string, title: string, description: string, templatesPath: seq<string>)

  /** The base pages, in declaration order. */
  function BasePages(): seq<Page>
  {
    [ Page("/", "Learn SDL GPU", "Bla bla", ["index.html"]),
      Page("/tutorials/sdl-gpu", "SDL GPU: Get Started", "Get started!",
           ["/tutorials/sdl-gpu/template.html", "/tutorials/sdl-gpu/sidebar.html", "/tutorials/sdl-gpu/get-started.html"]),
      Page("/tutorials/sdl-gpu/get-started", "SDL GPU: Get Started", "Get started!",
           ["/tutorials/sdl-gpu/template.html", "/tutorials/sdl-gpu/sidebar.html", "/tutorials/sdl-gpu/get-started.html"]) ]
  }

  /** The pages of the SDL GPU tutorial in Odin. */
  function OdinPages(): seq<Page>
  {
    [ Page("/tutorials/sdl-gpu/odin/prerequisites", "SDL GPU Way: Prerequisites", "Get started!",
           ["/tutorials/sdl-gpu/template.html", "/tutorials/sdl-gpu/sidebar.html",
            "/tutorials/sdl-gpu/odin/prerequisites/prerequisites.html"]),
      Page("/tutorials/sdl-gpu/odin/chapter-1-hello-gpu", "SDL GPU Way: Chapter 1: Hello GPU (Odin)",
           "This chapter introduces you to basic concepts of modern GPU API's.",
           ["/tutorials/sdl-gpu/template.html", "/tutorials/sdl-gpu/sidebar.html",
            "/tutorials/sdl-gpu/odin/chapter-1-hello-gpu/index.html"]),
      Page("/tutorials/sdl-gpu/odin/chapter-1-hello-gpu/1-1-hello_sdl.html", "SDL GPU Way: 1:1 Hello SDL",
           "Open a window with SDL3.",
           ["/tutorials/sdl-gpu/template.html", "/tutorials/sdl-gpu/sidebar.html",
            "/tutorials/sdl-gpu/odin/chapter-1-hello-gpu/1-1-hello_sdl.html"]) ]
  }

  /** The registry once start-up is over: the Odin pages are appended twice. */
  function StartupPages(): seq<Page>
  {
    BasePages() + OdinPages() + OdinPages()
  }

  /** The global, growable page list. */
  class Site {
    var pages: seq<Page>

    constructor ()
      ensures pages == BasePages()
    {
      pages := BasePages();
    }

    /** `Pages = append(Pages, extra...)`. */
    method AppendPages(extra: seq<Page>)
      modifies this
      ensures pages == old(pages) + extra
    {
      pages := pages + extra;
    }
  }

  /** What `main` does to the registry before choosing a mode: two appends of the Odin pages. */
  method Startup() returns (site: Site)
    ensures fresh(site)
    ensures site.pages == StartupPages()
  {
    site := new Site();
    site.AppendPages(OdinPages());
    site.AppendPages(OdinPages());
  }

  /**
   * After start-up the registry holds nine entries: the base pages, then the
   * three Odin pages twice over.
   */
  lemma StartupShape()
    ensures |StartupPages()| == 9
    ensures StartupPages()[..3] == BasePages()
    ensures forall k :: 0 <= k < 3 ==> StartupPages()[3 + k] == StartupPages()[6 + k] == OdinPages()[k]
  {
  }

  /** The routes of the six distinct start-up pages, in registry order. */
  lemma StartupRoutes()
    ensures StartupPages()[0].path == "/"
    ensures StartupPages()[1].path == "/tutorials/sdl-gpu"
    ensures StartupPages()[2].path == "/tutorials/sdl-gpu/get-started"
    ensures StartupPages()[3].path == "/tutorials/sdl-gpu/odin/prerequisites"
    ensures StartupPages()[4].path == "/tutorials/sdl-gpu/odin/chapter-1-hello-gpu"
    ensures StartupPages()[5].path == "/tutorials/sdl-gpu/odin/chapter-1-hello-gpu/1-1-hello_sdl.html"
  {
  }

  /** The folding of the start-up registry onto its first six entries: the last three repeat the middle three. */
  function Fold(i: nat): (r: nat)
    requires i < 9
    ensures r < 6
  {
    if i >= 6 then i - 3 else i
  }

  /** Every start-up entry equals the one it folds onto. */
  lemma StartupFold(k: nat)
    requires k < |StartupPages()|
    ensures StartupPages()[Fold(k)] == StartupPages()[k]
  {
    StartupShape();
    if k >= 6 {
      assert StartupPages()[3 + (k - 6)] == StartupPages()[6 + (k - 6)];
    }
  }

  /** The first six start-up routes, one per distinct page, have pairwise different lengths. */
  lemma StartupRouteLengths()
    ensures forall i, j :: 0 <= i < j < 6 ==> |StartupPages()[i].path| != |StartupPages()[j].path|
  {
  }
}
