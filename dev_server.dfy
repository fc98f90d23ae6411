/**
 * Development mode: every request that is not for a static asset is matched
 * against the registry by exact route, and the first page with that route is
 * rendered; a route nobody registered is answered with "404 Not Found".
 */
module DevServer {
  import opened Wrappers
  import opened Text
  import opened Registry
  import opened Render

  /** The prefix under which files of the `static` directory are served. */
  const StaticPrefix: string := "/static/"

  /** What the server answers. A failed render stands for the handler's panic. */
  datatype Response =
    | NotFound
    | Rendered(body: string)
    | StaticAsset(file: string)
    | ServerError(error: RenderError)

  /** The index of the first page registered under `path`, if any. */
  function FirstIndex(pages: seq<Page>, path: string): (r: Option<nat>)
    ensures r.Some? ==>
      r.value < |pages| && pages[r.value].path == path &&
      forall j :: 0 <= j < r.value ==> pages[j].path != path
    ensures r.None? <==> forall j :: 0 <= j < |pages| ==> pages[j].path != path
    decreases |pages|
  {
    if pages == [] then None
    else if pages[0].path == path then Some(0)
    else match FirstIndex(pages[1..], path)
      case None => None
      case Some(i) => Some(i + 1)
  }

  /** The page the server picks for a route: the first registered under it. */
  function Find(pages: seq<Page>, path: string): Option<Page>
  {
    match FirstIndex(pages, path)
    case None => None
    case Some(i) => Some(pages[i])
  }

  /** The registry scan of the request handler: stop at the first page whose route matches. */
  method Lookup(pages: seq<Page>, requested: string) returns (page: Option<Page>)
    ensures page == Find(pages, requested)
  {
    page := None;
    var i := 0;
    while i < |pages|
      invariant 0 <= i <= |pages|
      invariant forall j :: 0 <= j < i ==> pages[j].path != requested
      invariant page == None
    {
      if pages[i].path == requested {
        page := Some(pages[i]);
        break;
      }
      i := i + 1;
    }
  }

  /** The answer to one request. */
  function Handle(pages: seq<Page>, requested: string, engine: Engine): Response
  {
    if HasPrefix(requested, StaticPrefix) then StaticAsset(requested[|StaticPrefix|..])
    else match Find(pages, requested)
      case None => NotFound
      case Some(page) =>
        match Render.Render(page, engine)
        case Ok(body) => Rendered(body)
        case Err(e) => ServerError(e)
  }

  /** The request handler, together with the static file route in front of it. */
  method ServeRequest(pages: seq<Page>, requested: string, engine: Engine) returns (resp: Response)
    ensures resp == Handle(pages, requested, engine)
  {
    if HasPrefix(requested, StaticPrefix) {
      return StaticAsset(requested[|StaticPrefix|..]);
    }
    var page := Lookup(pages, requested);
    if page.None? {
      return NotFound;
    }
    var out := RenderTemplate(page.value, engine);
    if out.Err? {
      return ServerError(out.error);
    }
    return Rendered(out.value);
  }

  /** Requests under the static prefix go to the file server, with the prefix stripped, whatever the registry holds. */
  lemma StaticSpec(pages: seq<Page>, requested: string, engine: Engine)
    requires StaticPrefix <= requested
    ensures Handle(pages, requested, engine).StaticAsset?
    ensures StaticPrefix + Handle(pages, requested, engine).file == requested
  {
    assert requested == StaticPrefix + requested[|StaticPrefix|..];
  }

  /**
   * Any other request whose route is registered is answered by rendering the
   * first page registered under it, whose current-page field is then the
   * requested route; the render's failure becomes a server error.
   */
  lemma HandleSpec(pages: seq<Page>, requested: string, engine: Engine, k: nat)
    requires !(StaticPrefix <= requested)
    requires k < |pages| && pages[k].path == requested
    requires forall j :: 0 <= j < k ==> pages[j].path != requested
    ensures MakeContext(pages[k]).currentPage == requested
    ensures Handle(pages, requested, engine).Rendered? <==> Render.Render(pages[k], engine).Ok?
    ensures Handle(pages, requested, engine).Rendered? ==>
      Handle(pages, requested, engine).body == Render.Render(pages[k], engine).value
    ensures Handle(pages, requested, engine).ServerError? ==>
      Render.Render(pages[k], engine) == Err(Handle(pages, requested, engine).error)
    ensures Render.Render(pages[k], engine).Err? ==>
      Handle(pages, requested, engine) == ServerError(Render.Render(pages[k], engine).error)
  {
    assert Find(pages, requested) == Some(pages[k]);
  }

  /** A request outside the static prefix is answered "404 Not Found" exactly when no page has its route. */
  lemma NotFoundSpec(pages: seq<Page>, requested: string, engine: Engine)
    requires !(StaticPrefix <= requested)
    ensures Handle(pages, requested, engine) == NotFound <==>
      forall j :: 0 <= j < |pages| ==> pages[j].path != requested
  {
  }

  /** In the start-up registry, pages registered under the same route are the same page. */
  lemma StartupRoutesAgree()
    ensures forall i, j :: 0 <= i < 9 && 0 <= j < 9 && StartupPages()[i].path == StartupPages()[j].path ==>
      StartupPages()[i] == StartupPages()[j]
  {
    StartupRouteLengths();
    var p := StartupPages();
    forall i, j | 0 <= i < 9 && 0 <= j < 9 && p[i].path == p[j].path
      ensures p[i] == p[j]
    {
      StartupFold(i);
      StartupFold(j);
      assert |p[Fold(i)].path| == |p[Fold(j)].path|;
      assert Fold(i) == Fold(j);
    }
  }

  /** A duplicated Odin route is found at its first occurrence, not its second. */
  lemma StartupFirstOccurrence(k: nat)
    requires k < |OdinPages()|
    ensures FirstIndex(StartupPages(), StartupPages()[6 + k].path) == Some(3 + k)
  {
    StartupShape();
    StartupRouteLengths();
    var p := StartupPages();
    assert p[6 + k] == p[3 + k];
    assert forall j :: 0 <= j < 3 + k ==> |p[j].path| != |p[3 + k].path|;
  }

  /**
   * After start-up every registered route is served its own page, so taking
   * the first of the duplicated Odin entries or the last gives the same page.
   */
  lemma StartupLookup(k: nat)
    requires k < |StartupPages()|
    ensures Find(StartupPages(), StartupPages()[k].path) == Some(StartupPages()[k])
  {
    StartupRoutesAgree();
  }
}
