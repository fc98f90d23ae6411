/**
 * `renderTemplate`: name the template set after its first fragment, load every
 * fragment from under the templates directory, choose the tutorial language
 * from the route, build the render context and execute. Parsing and executing
 * templates belong to the template engine and are opaque here: an `Engine`
 * says which files parse and what an execution produces, or that it fails.
 */
module Render {
  import opened Wrappers
  import opened Text
  import Paths
  import opened Registry

  // ---------------------------------------------------------------------------
  // Language selection
  // ---------------------------------------------------------------------------

  /** The language a tutorial page is written for. */
  datatype Language = Odin | C | NoLanguage

  /** The string the templates see as `ChosenLanguage`. */
  function LanguageName(l: Language): string
  {
    match l
    case Odin => "Odin"
    case C => "C"
    case NoLanguage => ""
  }

  /**
   * The language chain in `renderTemplate`: "/odin/" is tested before "/c/";
   * neither gives the empty name. The initial default of Odin is always
   * overwritten by one of the three branches.
   */
  function ChooseLanguage(path: string): Language
  {
    if Contains(path, "/odin/") then Odin
    else if Contains(path, "/c/") then C
    else NoLanguage
  }

  /** Which language a route gets, stated by where the markers occur in it. */
  lemma ChooseLanguageSpec(path: string)
    ensures ChooseLanguage(path) == Odin <==> exists i: nat :: OccursAt(path, "/odin/", i)
    ensures ChooseLanguage(path) == C <==>
      (forall i: nat :: !OccursAt(path, "/odin/", i)) && exists i: nat :: OccursAt(path, "/c/", i)
    ensures ChooseLanguage(path) == NoLanguage <==>
      (forall i: nat :: !OccursAt(path, "/odin/", i)) && (forall i: nat :: !OccursAt(path, "/c/", i))
    ensures LanguageName(ChooseLanguage(path)) in {"Odin", "C", ""}
  {
    ContainsIff(path, "/odin/");
    ContainsIff(path, "/c/");
  }

  /** "/odin/" wins over "/c/" when a route holds both. */
  lemma OdinTakesPriority(path: string, i: nat, j: nat)
    requires OccursAt(path, "/odin/", i) && OccursAt(path, "/c/", j)
    ensures ChooseLanguage(path) == Odin
  {
    ContainsAt(path, "/odin/", i);
  }

  /** The Odin prerequisites page is an Odin page; the home page has no language. */
  lemma LanguageExamples()
    ensures ChooseLanguage("/tutorials/sdl-gpu/odin/prerequisites") == Odin
    ensures ChooseLanguage("/") == NoLanguage
  {
    var p := "/tutorials/sdl-gpu/odin/prerequisites";
    assert p[18..24] == "/odin/";
    ContainsAt(p, "/odin/", 18);
    ContainsOnlyShorter("/", "/odin/");
    ContainsOnlyShorter("/", "/c/");
  }

  // ---------------------------------------------------------------------------
  // Render context and template files
  // ---------------------------------------------------------------------------

  /** The data the templates are executed against. */
  datatype Context = Context(page: Page, currentPage: string, title: string, description: string,
                             chosenLanguage: string)

  function MakeContext(page: Page): Context
  {
    Context(page, page.path, page.title, page.description, LanguageName(ChooseLanguage(page.path)))
  }

  /** The context marks the page's own route as current and copies its display strings. */
  lemma ContextOfPage(page: Page)
    ensures MakeContext(page).page == page
    ensures MakeContext(page).currentPage == page.path
    ensures MakeContext(page).title == page.title && MakeContext(page).description == page.description
    ensures MakeContext(page).chosenLanguage == "Odin" <==> Contains(page.path, "/odin/")
    ensures MakeContext(page).chosenLanguage == "" <==>
      !Contains(page.path, "/odin/") && !Contains(page.path, "/c/")
  {
  }

  /** Where a fragment is loaded from: `filepath.Join("templates", fragment)`. */
  function TemplatePath(fragment: string): string
  {
    Paths.Join("templates", fragment)
  }

  /** A fragment without ".." elements is loaded from under the templates directory, even a rooted one. */
  lemma TemplatePathUnderTemplates(fragment: string)
    requires forall k :: 0 <= k < |Paths.Split(fragment)| ==> Paths.Split(fragment)[k] != ".."
    ensures TemplatePath(fragment) == "templates" || "templates/" <= TemplatePath(fragment)
  {
    Paths.JoinStaysUnder("templates", fragment);
  }

  /** The name of the template set: `filepath.Base` of the first fragment. */
  function TemplateName(templatesPath: seq<string>): string
    requires |templatesPath| > 0
  {
    Paths.Base(templatesPath[0])
  }

  /** The home page's fragment is loaded from the templates directory and names its set. */
  lemma HomeTemplate()
    ensures TemplatePath("index.html") == "templates/index.html"
    ensures TemplateName(["index.html"]) == "index.html"
  {
    assert Paths.IsName("templates") && Paths.IsName("index.html");
    Paths.JoinRelative(["templates"], ["index.html"]);
    assert Paths.JoinSep(["templates", "index.html"]) == "templates/index.html";
    Paths.BaseOf("", "index.html");
  }

  /** A rooted fragment loses its leading separator: it is loaded from under the templates directory. */
  lemma TemplatePathRooted(ns: seq<string>)
    requires Paths.AllNames(ns)
    ensures TemplatePath("/" + Paths.JoinSep(ns)) == if ns == [] then "templates" else "templates/" + Paths.JoinSep(ns)
  {
    assert Paths.IsName("templates");
    assert Paths.JoinSep(["templates"]) == "templates";
    Paths.JoinRooted(["templates"], ns);
    if ns != [] {
      assert (["templates"] + ns)[1..] == ns;
    } else {
      assert ["templates"] + ns == ["templates"];
    }
  }

  /** The tutorial fragment is three plain names joined by separators. */
  lemma TutorialFragment()
    ensures Paths.AllNames(["tutorials", "sdl-gpu", "template.html"])
    ensures Paths.JoinSep(["tutorials", "sdl-gpu", "template.html"]) == "tutorials/sdl-gpu/template.html"
  {
    var ns := ["tutorials", "sdl-gpu", "template.html"];
    assert Paths.IsName("tutorials") && Paths.IsName("sdl-gpu") && Paths.IsName("template.html");
    assert Paths.JoinSep(ns[2..]) == "template.html";
    assert Paths.JoinSep(ns[1..]) == "sdl-gpu/template.html";
  }

  /** The tutorial pages' rooted first fragment still resolves under the templates directory. */
  lemma TutorialTemplatePath()
    ensures TemplatePath("/tutorials/sdl-gpu/template.html") == "templates/tutorials/sdl-gpu/template.html"
  {
    TutorialFragment();
    TemplatePathRooted(["tutorials", "sdl-gpu", "template.html"]);
    RootedSpelling();
    LoadedSpelling();
  }

  // Facts about string literals, not about the program: each is kept in a
  // lemma of its own so that the proof above does not spell it out.

  lemma RootedSpelling()
    ensures "/" + "tutorials/sdl-gpu/template.html" == "/tutorials/sdl-gpu/template.html"
  {
  }

  lemma LoadedSpelling()
    ensures "templates/" + "tutorials/sdl-gpu/template.html" == "templates/tutorials/sdl-gpu/template.html"
  {
  }

  /** The tutorial pages' template set is named after the file of their first fragment. */
  lemma TutorialTemplateName()
    ensures TemplateName(["/tutorials/sdl-gpu/template.html"]) == "template.html"
  {
    assert "/tutorials/sdl-gpu/template.html" == "/tutorials/sdl-gpu" + "/" + "template.html";
    Paths.BaseOf("/tutorials/sdl-gpu", "template.html");
  }

  // ---------------------------------------------------------------------------
  // Loading fragments and rendering
  // ---------------------------------------------------------------------------

  datatype RenderError = NoTemplates | ParseFailed(file: string) | ExecuteFailed

  /** What the render is handed to the engine: the set's name, the files in order, and the context. */
  datatype Plan = Plan(name: string, files: seq<string>, context: Context)

  /** The template engine, as far as the site generator sees it. */
  datatype Engine = Engine(parses: string -> bool, execute: Plan -> Option<string>)

  /** Load the fragments in order; the first one that does not parse stops the render. */
  function ParseAll(templatesPath: seq<string>, parses: string -> bool): Result<seq<string>, RenderError>
    decreases |templatesPath|
  {
    if templatesPath == [] then Ok([])
    else
      var file := TemplatePath(templatesPath[0]);
      if !parses(file) then Err(ParseFailed(file))
      else match ParseAll(templatesPath[1..], parses)
        case Err(e) => Err(e)
        case Ok(files) => Ok([file] + files)
  }

  /** Loading succeeds exactly when every fragment parses, and then yields each fragment's file in order. */
  lemma {:induction false} ParseAllSucceeds(templatesPath: seq<string>, parses: string -> bool)
    ensures ParseAll(templatesPath, parses).Ok? <==>
      forall k :: 0 <= k < |templatesPath| ==> parses(TemplatePath(templatesPath[k]))
    ensures ParseAll(templatesPath, parses).Ok? ==>
      var files := ParseAll(templatesPath, parses).value;
      |files| == |templatesPath| && forall k :: 0 <= k < |files| ==> files[k] == TemplatePath(templatesPath[k])
    decreases |templatesPath|
  {
    if templatesPath != [] {
      var rest := templatesPath[1..];
      ParseAllSucceeds(rest, parses);
      assert forall k :: 1 <= k < |templatesPath| ==> templatesPath[k] == rest[k - 1];
    }
  }

  /** Loading fails at the first fragment that does not parse, naming its file. */
  lemma {:induction false} ParseAllFailsAt(templatesPath: seq<string>, parses: string -> bool, k: nat)
    requires k < |templatesPath| && !parses(TemplatePath(templatesPath[k]))
    requires forall j :: 0 <= j < k ==> parses(TemplatePath(templatesPath[j]))
    ensures ParseAll(templatesPath, parses) == Err(ParseFailed(TemplatePath(templatesPath[k])))
    decreases k
  {
    if k > 0 {
      var rest := templatesPath[1..];
      assert parses(TemplatePath(templatesPath[0]));
      assert forall j :: 0 <= j < k - 1 ==> rest[j] == templatesPath[j + 1];
      ParseAllFailsAt(rest, parses, k - 1);
    }
  }

  /** The fragment loop of `renderTemplate`. */
  method ParseTemplates(templatesPath: seq<string>, parses: string -> bool)
    returns (r: Result<seq<string>, RenderError>)
    ensures r == ParseAll(templatesPath, parses)
  {
    var files: seq<string> := [];
    for i := 0 to |templatesPath|
      invariant |files| == i
      invariant forall k :: 0 <= k < i ==> files[k] == TemplatePath(templatesPath[k]) && parses(files[k])
    {
      var fullPath := Paths.Join("templates", templatesPath[i]);
      if !parses(fullPath) {
        ParseAllFailsAt(templatesPath, parses, i);
        return Err(ParseFailed(fullPath));
      }
      files := files + [fullPath];
    }
    ParseAllSucceeds(templatesPath, parses);
    assert files == ParseAll(templatesPath, parses).value;
    return Ok(files);
  }

  /** The plan for a page whose fragments all load. */
  function PlanFor(page: Page): Plan
    requires |page.templatesPath| > 0
  {
    Plan(TemplateName(page.templatesPath),
         seq(|page.templatesPath|, k requires 0 <= k < |page.templatesPath| => TemplatePath(page.templatesPath[k])),
         MakeContext(page))
  }

  /** Render a page: name the set, load the fragments, execute against the page's context. */
  function Render(page: Page, engine: Engine): Result<string, RenderError>
  {
    if |page.templatesPath| == 0 then Err(NoTemplates)
    else match ParseAll(page.templatesPath, engine.parses)
      case Err(e) => Err(e)
      case Ok(files) =>
        match engine.execute(Plan(TemplateName(page.templatesPath), files, MakeContext(page)))
        case None => Err(ExecuteFailed)
        case Some(out) => Ok(out)
  }

  /**
   * A render succeeds exactly when the page has fragments, all of them parse
   * and the engine executes the page's plan; its output is that execution's.
   * It fails with `NoTemplates` when there are no fragments, and with
   * `ExecuteFailed` when everything parses but the execution fails.
   */
  lemma RenderSpec(page: Page, engine: Engine)
    ensures |page.templatesPath| == 0 ==> Render(page, engine) == Err(NoTemplates)
    ensures Render(page, engine).Ok? <==>
      |page.templatesPath| > 0 &&
      (forall k :: 0 <= k < |page.templatesPath| ==> engine.parses(TemplatePath(page.templatesPath[k]))) &&
      engine.execute(PlanFor(page)).Some?
    ensures Render(page, engine).Ok? ==> Some(Render(page, engine).value) == engine.execute(PlanFor(page))
    ensures (|page.templatesPath| > 0 &&
             (forall k :: 0 <= k < |page.templatesPath| ==> engine.parses(TemplatePath(page.templatesPath[k]))) &&
             engine.execute(PlanFor(page)).None?) ==>
      Render(page, engine) == Err(ExecuteFailed)
  {
    ParseAllSucceeds(page.templatesPath, engine.parses);
    if ParseAll(page.templatesPath, engine.parses).Ok? && |page.templatesPath| > 0 {
      assert ParseAll(page.templatesPath, engine.parses).value == PlanFor(page).files;
    }
  }

  /** A render whose k-th fragment is the first that does not parse fails naming that fragment's file. */
  lemma RenderFailsAt(page: Page, engine: Engine, k: nat)
    requires k < |page.templatesPath| && !engine.parses(TemplatePath(page.templatesPath[k]))
    requires forall j :: 0 <= j < k ==> engine.parses(TemplatePath(page.templatesPath[j]))
    ensures Render(page, engine) == Err(ParseFailed(TemplatePath(page.templatesPath[k])))
  {
    ParseAllFailsAt(page.templatesPath, engine.parses, k);
  }

  /** `renderTemplate`. */
  method RenderTemplate(page: Page, engine: Engine) returns (r: Result<string, RenderError>)
    ensures r == Render(page, engine)
  {
    if |page.templatesPath| == 0 {
      return Err(NoTemplates);
    }
    var name := TemplateName(page.templatesPath);
    var parsed := ParseTemplates(page.templatesPath, engine.parses);
    if parsed.Err? {
      return Err(parsed.error);
    }
    var data := MakeContext(page);
    var out := engine.execute(Plan(name, parsed.value, data));
    if out.None? {
      return Err(ExecuteFailed);
    }
    return Ok(out.value);
  }
}
