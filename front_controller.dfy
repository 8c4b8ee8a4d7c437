/**
 * The front controller public/index.php: the parsing of the request path into
 * a controller and an action, and the dispatch that
 * answers 404, fails, or invokes the action on a controller built with its
 * dependencies.
 *
 * `class_exists` and `method_exists` are answered by an `Application` value
 * listing the classes and methods that exist; the database connection's
 * success is an input.
 */
module FrontController {
  import opened Wrappers
  import opened Strings
  import opened Autoload

  // ---------------------------------------------------------------------------
  // Routing
  // ---------------------------------------------------------------------------

  /** The controller and action names the router derives from the path. */
  datatype Route = Route(controller: string, action: string)

  /** `ucfirst(strtolower($segment))`, or "Receta" when that is empty in PHP's sense ("" or "0"). */
  function ControllerName(segment: string): (name: string)
    ensures name != "" && name != "0"
    ensures PhpEmpty(segment) ==> name == "Receta"
    ensures !PhpEmpty(segment) ==>
              |name| == |segment| && name[0] == UpperChar(LowerChar(segment[0]))
              && name[1..] == AsciiLower(segment[1..])
  {
    var n := UcFirst(AsciiLower(segment));
    if PhpEmpty(n) then "Receta" else n
  }

  /** Worked names: any capitalisation of a name gives the same controller, and "0" falls back to Receta. */
  lemma ControllerNameExamples()
    ensures ControllerName("receta") == "Receta"
    ensures ControllerName("RECETA") == "Receta"
    ensures ControllerName("api") == "Api"
    ensures ControllerName("") == "Receta"
    ensures ControllerName("0") == "Receta"
  {
    assert UcFirst(AsciiLower("receta")) == "Receta";
    assert AsciiLower("RECETA") == "receta" by {
      assert LowerChar('R') == 'r' && LowerChar('E') == 'e' && LowerChar('C') == 'c'
             && LowerChar('T') == 't' && LowerChar('A') == 'a';
    }
    assert UpperChar('a') == 'A';
    assert AsciiLower("api") == "api" by {
      assert LowerChar('a') == 'a' && LowerChar('p') == 'p' && LowerChar('i') == 'i';
    }
    assert UcFirst("api") == "Api";
    assert UcFirst(AsciiLower("0")) == "0";
  }

  /**
   * Lines 62-74 of index.php: strip '/' from both ends of the path, split it
   * on '/', name the controller after the first segment and the action after
   * the second lower-cased, "index" when there is no second segment.
   */
  function ParseRoute(path: string): (r: Route)
    ensures r.controller != "" && r.controller != "0"
    ensures '/' !in r.controller && '/' !in r.action
  {
    var parts := Split(Trim(path, {'/'}), '/');
    RouteOfKeepsOut(parts, '/');
    RouteOf(parts)
  }

  /** The route named by the first two segments of a path. */
  function RouteOf(parts: seq<string>): (r: Route)
    requires |parts| >= 1
    ensures r.controller == ControllerName(parts[0])
    ensures r.controller != "" && r.controller != "0"
    ensures |parts| == 1 ==> r.action == "index"
    ensures |parts| > 1 ==> r.action == AsciiLower(parts[1]) && |r.action| == |parts[1]|
  {
    assert AsciiLower("index") == "index";
    Route(ControllerName(parts[0]), AsciiLower(if |parts| > 1 then parts[1] else "index"))
  }

  /** Lower-casing never introduces a character that is not an ASCII letter. */
  lemma AsciiLowerKeepsOut(s: string, x: char)
    requires x !in s && !IsAsciiUpper(x) && !IsAsciiLower(x)
    ensures x !in AsciiLower(s)
  {
    var l := AsciiLower(s);
    forall i | 0 <= i < |l| ensures l[i] != x {
      assert l[i] == LowerChar(s[i]);
    }
  }

  /** A character that is not a letter and occurs in no segment occurs in neither name of the route. */
  lemma RouteOfKeepsOut(parts: seq<string>, x: char)
    requires |parts| >= 1
    requires forall k :: 0 <= k < |parts| ==> x !in parts[k]
    requires !IsAsciiUpper(x) && !IsAsciiLower(x)
    ensures x !in RouteOf(parts).controller && x !in RouteOf(parts).action
  {
    var seg := if |parts| > 1 then parts[1] else "index";
    assert x !in seg by {
      if |parts| <= 1 {
        forall i | 0 <= i < |seg| ensures IsAsciiLower(seg[i]) { }
      }
    }
    AsciiLowerKeepsOut(seg, x);
    var l := AsciiLower(parts[0]);
    AsciiLowerKeepsOut(parts[0], x);
    var c := UcFirst(l);
    forall i | 0 <= i < |c| ensures c[i] != x {
      if i > 0 { assert c[i] == l[i]; }
    }
    var r := "Receta";
    forall i | 0 <= i < |r| ensures IsAsciiUpper(r[i]) || IsAsciiLower(r[i]) { }
  }

  /** An empty path, "/" or any run of slashes routes to Receta/index. */
  lemma EmptyPathRoutesToDefault(path: string)
    requires AllIn(path, {'/'})
    ensures ParseRoute(path) == Route("Receta", "index")
  {
    TrimAllCut(path, {'/'});
    assert Split([], '/') == [[]];
    assert AsciiLower("index") == "index";
  }

  /** The worked path "/": the home page is Receta/index. */
  lemma RootRoutesToDefault()
    ensures ParseRoute("/") == Route("Receta", "index")
    ensures ParseRoute("") == Route("Receta", "index")
  {
    EmptyPathRoutesToDefault("/");
    EmptyPathRoutesToDefault("");
  }

  /** Right trimming cannot reach into a part that ends with a kept character. */
  lemma TrimRightKeepsHead(s: string, t: string, cut: set<char>) returns (k: nat)
    requires s != [] && s[|s| - 1] !in cut
    ensures k <= |t| && TrimRight(s + t, cut) == s + t[..k]
  {
    var r := TrimRight(s + t, cut);
    assert (s + t)[|s| - 1] == s[|s| - 1];
    TrimRightKeepsKept(s + t, cut, |s| - 1);
    k := |r| - |s|;
    assert r == (s + t)[..|r|] == s + t[..k];
  }

  /** The first piece of `explode` is a separator-free head followed by nothing or by a separator. */
  lemma SplitHead(a: string, x: string, d: char)
    requires d !in a
    requires x == [] || x[0] == d
    ensures Split(a + x, d)[0] == a
    ensures x != [] ==> |Split(a + x, d)| > 1
  {
    if x == [] {
      assert a + x == a;
      SplitNoSeparator(a, d);
    } else {
      assert a + x == a + [d] + x[1..];
      SplitAtFirst(a, d, x[1..]);
    }
  }

  /** Left trimming `d` off a path stops at its first segment. */
  lemma TrimLeftToFirstSegment(pre: string, c: string, tail: string, d: char)
    requires AllIn(pre, {d})
    requires c != [] && d !in c
    ensures TrimLeft(pre + c + tail, {d}) == c + tail
  {
    assert pre + c + tail == pre + (c + tail);
    assert (c + tail)[0] == c[0];
    TrimLeftPadded(pre, c + tail, {d});
  }

  /**
   * Trimming `d` off a path that starts with a separator-free segment, a
   * separator and a part that does not end with a separator keeps all three.
   */
  lemma TrimKeepsTwoSegments(pre: string, c: string, a: string, rest: string, d: char) returns (k: nat)
    requires AllIn(pre, {d})
    requires c != [] && d !in c && a != [] && a[|a| - 1] != d
    ensures k <= |rest| && Trim(pre + c + ([d] + a + rest), {d}) == (c + [d] + a) + rest[..k]
  {
    TrimLeftToFirstSegment(pre, c, [d] + a + rest, d);
    var core := c + [d] + a;
    assert c + ([d] + a + rest) == core + rest;
    assert core[|core| - 1] == a[|a| - 1];
    k := TrimRightKeepsHead(core, rest, {d});
  }

  /** The first two pieces of `explode` are the first two separator-free segments. */
  lemma SplitTwoSegments(c: string, a: string, x: string, d: char)
    requires d !in c && d !in a
    requires x == [] || x[0] == d
    ensures var parts := Split(c + [d] + (a + x), d);
            |parts| > 1 && parts[0] == c && parts[1] == a
  {
    SplitAtFirst(c, d, a + x);
    SplitHead(a, x, d);
  }

  /** The first two pieces of `explode` after `trim` are the path's first two segments. */
  lemma SplitTrimmedPath(pre: string, c: string, a: string, rest: string, d: char)
    requires AllIn(pre, {d})
    requires c != [] && d !in c && a != [] && d !in a
    requires rest == [] || rest[0] == d
    ensures var parts := Split(Trim(pre + c + [d] + a + rest, {d}), d);
            |parts| > 1 && parts[0] == c && parts[1] == a
  {
    var k := TrimKeepsTwoSegments(pre, c, a, rest, d);
    var x := rest[..k];
    ConcatAssoc(pre + c + [d], a, rest);
    ConcatAssoc(pre + c, [d], a);
    ConcatAssoc(pre + c, [d] + a, rest);
    ConcatAssoc(c + [d], a, x);
    SplitTwoSegments(c, a, x, d);
  }

  /**
   * A path whose first two segments are `c` and `a` (after any leading
   * slashes) routes to controller `ControllerName(c)` and action `a`
   * lower-cased; what follows the second segment is ignored.
   */
  lemma RouteFromSegments(pre: string, c: string, a: string, rest: string)
    requires AllIn(pre, {'/'})
    requires c != [] && '/' !in c && a != [] && '/' !in a
    requires rest == [] || rest[0] == '/'
    ensures ParseRoute(pre + c + "/" + a + rest) == Route(ControllerName(c), AsciiLower(a))
  {
    SplitTrimmedPath(pre, c, a, rest, '/');
  }

  /** `explode` after `trim` of a single padded segment is that segment. */
  lemma SplitTrimmedSegment(pre: string, c: string, post: string, d: char)
    requires AllIn(pre, {d}) && AllIn(post, {d})
    requires c != [] && d !in c
    ensures Split(Trim(pre + c + post, {d}), d) == [c]
  {
    assert c[0] !in {d} && c[|c| - 1] !in {d};
    TrimPadded(pre, c, post, {d});
    SplitNoSeparator(c, d);
  }

  /** A path with a single segment routes to that controller's "index" action. */
  lemma RouteFromOneSegment(pre: string, c: string, post: string)
    requires AllIn(pre, {'/'}) && AllIn(post, {'/'})
    requires c != [] && '/' !in c
    ensures ParseRoute(pre + c + post) == Route(ControllerName(c), "index")
  {
    SplitTrimmedSegment(pre, c, post, '/');
  }

  /** A path whose second segment is empty explodes into the first segment, then "". */
  lemma SplitEmptySecond(c: string, b: string, x: string, d: char)
    requires d !in c
    ensures var parts := Split(c + [d] + ([d] + b + x), d);
            |parts| > 1 && parts[0] == c && parts[1] == []
  {
    SplitAtFirst(c, d, [d] + b + x);
    var t := [d] + b + x;
    assert t[0] == d;
    assert Split(t, d) == [[]] + Split(t[1..], d);
  }

  /** After `trim`, a path `c//b...` still explodes into `c`, then "". */
  lemma SplitTrimmedEmptySecond(pre: string, c: string, b: string, rest: string, d: char)
    requires AllIn(pre, {d})
    requires c != [] && d !in c && b != [] && d !in b
    requires rest == [] || rest[0] == d
    ensures var parts := Split(Trim(pre + c + [d, d] + b + rest, {d}), d);
            |parts| > 1 && parts[0] == c && parts[1] == []
  {
    var a := [d] + b;
    assert a[|a| - 1] == b[|b| - 1];
    var k := TrimKeepsTwoSegments(pre, c, a, rest, d);
    RegroupDoubleSeparator(pre + c, b, rest, d);
    ConcatAssoc(pre, c, [d] + a + rest);
    var x := rest[..k];
    RegroupDoubleSeparator(c, b, x, d);
    ConcatAssoc(c, [d], a);
    ConcatAssoc(c + [d], a, x);
    SplitEmptySecond(c, b, x, d);
  }

  /** Helper: two ways of grouping a doubled separator. */
  lemma RegroupDoubleSeparator(p: string, b: string, x: string, d: char)
    ensures p + [d, d] + b + x == p + ([d] + ([d] + b) + x)
    ensures p + [d] + ([d] + b + x) == p + ([d] + ([d] + b) + x)
  {
    assert [d, d] == [d] + [d];
  }

  /**
   * A path whose second segment is empty, such as "/receta//save", names the
   * action "" (RecetaController declares no such method, so there it answers
   * 404; see `DispatchExamples`).
   */
  lemma RouteWithEmptyAction(pre: string, c: string, b: string, rest: string)
    requires AllIn(pre, {'/'})
    requires c != [] && '/' !in c && b != [] && '/' !in b
    requires rest == [] || rest[0] == '/'
    ensures ParseRoute(pre + c + "//" + b + rest) == Route(ControllerName(c), "")
  {
    SplitTrimmedEmptySecond(pre, c, b, rest, '/');
    assert AsciiLower([]) == [];
  }

  // ---------------------------------------------------------------------------
  // Dispatch
  // ---------------------------------------------------------------------------

  datatype Visibility = Public | NonPublic

  /**
   * What `class_exists` and `method_exists` see: the controller classes that
   * exist, and for each (class, method name lower-cased) its visibility. PHP
   * looks methods up case-insensitively, and `method_exists` is also true for
   * private and protected methods.
   */
  datatype Application = Application(classes: set<string>, methods: map<(string, string), Visibility>)

  /** The constructor arguments the front controller can inject. */
  datatype Dependency = RecetaModelInstance

  /** How the request ends. */
  datatype Outcome =
    | NotFound(message: string)
    | ServerError
    | Invoke(controllerClass: string, action: string, constructorArgs: seq<Dependency>)

  const ControllerNotFound: string := "Error 404: Controlador no encontrado."
  const ActionNotFound: string := "Error 404: Método de acción no encontrado."
  const RecetaControllerClass: string := "App\\Controllers\\RecetaController"
  const ApiControllerClass: string := "App\\Controllers\\ApiController"

  /** `"App\\Controllers\\{$controllerName}Controller"` */
  function ControllerClass(name: string): (c: string)
    ensures HasAppPrefix(c)
    ensures |c| == |name| + 26 && c[16..|c| - 10] == name
    ensures c[..16] == "App\\Controllers\\" && c[|c| - 10..] == "Controller"
  {
    "App\\Controllers\\" + name + "Controller"
  }

  /** Helper: the two class names index.php spells out are the ones the router builds. */
  lemma ControllerClassLiterals()
    ensures ControllerClass("Receta") == RecetaControllerClass
    ensures ControllerClass("Api") == ApiControllerClass
  {
    assert "App\\Controllers\\" + "Receta" == "App\\Controllers\\Receta";
    assert "App\\Controllers\\Receta" + "Controller" == RecetaControllerClass;
    assert "App\\Controllers\\" + "Api" == "App\\Controllers\\Api";
    assert "App\\Controllers\\Api" + "Controller" == ApiControllerClass;
  }

  /** The controllers that take the model in their constructor. */
  predicate TakesModel(controllerClass: string)
    ensures TakesModel(controllerClass) <==>
              controllerClass == ControllerClass("Receta") || controllerClass == ControllerClass("Api")
  {
    ControllerClassLiterals();
    controllerClass == RecetaControllerClass || controllerClass == ApiControllerClass
  }

  /**
   * The outcome of the front controller for a route: 404 for an unknown
   * class; a server error when the database connection fails (it is opened
   * after the class check); 404 for an unknown method; a server error when
   * the method exists but is not public (the call raises an `Error`);
   * otherwise the action invoked on a controller built with the model when it
   * takes one.
   */
  function Resolve(route: Route, app: Application, dbConnects: bool): (o: Outcome)
    ensures o.Invoke? ==>
              o.controllerClass in app.classes && dbConnects
              && (o.controllerClass, o.action) in app.methods && app.methods[(o.controllerClass, o.action)].Public?
    ensures o.Invoke? ==> (o.constructorArgs == [RecetaModelInstance] <==> TakesModel(o.controllerClass))
    ensures o.NotFound? ==> o.message == ControllerNotFound || o.message == ActionNotFound
  {
    var cls := ControllerClass(route.controller);
    if cls !in app.classes then NotFound(ControllerNotFound)
    else if !dbConnects then ServerError
    else if (cls, route.action) !in app.methods then NotFound(ActionNotFound)
    else if !app.methods[(cls, route.action)].Public? then ServerError
    else Invoke(cls, route.action, if TakesModel(cls) then [RecetaModelInstance] else [])
  }

  /**
   * Lines 81-128 of index.php, run on the route `ParseRoute` derives from the
   * request path: class check, connection, dependency list, method check, call.
   */
  method Dispatch(route: Route, app: Application, dbConnects: bool) returns (outcome: Outcome)
    ensures outcome == Resolve(route, app, dbConnects)
  {
    var controllerClass := ControllerClass(route.controller);
    var actionMethod := route.action;

    if controllerClass !in app.classes {
      return NotFound(ControllerNotFound);
    }

    if !dbConnects {
      return ServerError;
    }

    var dependenciesToInject: seq<Dependency> := [];
    if TakesModel(controllerClass) {
      dependenciesToInject := dependenciesToInject + [RecetaModelInstance];
    }

    if (controllerClass, actionMethod) in app.methods {
      if app.methods[(controllerClass, actionMethod)].Public? {
        outcome := Invoke(controllerClass, actionMethod, dependenciesToInject);
      } else {
        outcome := ServerError;
      }
    } else {
      outcome := NotFound(ActionNotFound);
    }
  }

  /**
   * The 404 and invocation conditions, and the injection rule: the model is
   * passed exactly to RecetaController and ApiController, nothing to any
   * other controller.
   */
  lemma ResolveOutcomes(route: Route, app: Application, dbConnects: bool)
    ensures Resolve(route, app, dbConnects).NotFound?
            <==> ControllerClass(route.controller) !in app.classes
                 || (dbConnects && (ControllerClass(route.controller), route.action) !in app.methods)
    ensures Resolve(route, app, dbConnects).Invoke?
            <==> ControllerClass(route.controller) in app.classes && dbConnects
                 && (ControllerClass(route.controller), route.action) in app.methods
                 && app.methods[(ControllerClass(route.controller), route.action)].Public?
    ensures Resolve(route, app, dbConnects).Invoke? ==>
              Resolve(route, app, dbConnects).controllerClass == ControllerClass(route.controller)
              && Resolve(route, app, dbConnects).action == route.action
    ensures Resolve(route, app, dbConnects).Invoke? && TakesModel(ControllerClass(route.controller)) ==>
              Resolve(route, app, dbConnects).constructorArgs == [RecetaModelInstance]
    ensures Resolve(route, app, dbConnects).Invoke? && !TakesModel(ControllerClass(route.controller)) ==>
              Resolve(route, app, dbConnects).constructorArgs == []
  {
  }

  /** The controller shown: RecetaController and its methods, by lower-cased name. */
  function ShownApplication(): Application
  {
    Application({RecetaControllerClass},
                map[(RecetaControllerClass, "__construct") := Public,
                    (RecetaControllerClass, "index") := Public,
                    (RecetaControllerClass, "save") := Public,
                    (RecetaControllerClass, "calculatesustainabilityscore") := NonPublic,
                    (RecetaControllerClass, "isajaxrequest") := NonPublic,
                    (RecetaControllerClass, "render") := NonPublic,
                    (RecetaControllerClass, "renderpartial") := NonPublic])
  }

  /**
   * Worked dispatches: the home page and the form post reach RecetaController
   * with the model; a private helper named in the URL fails instead of
   * answering 404; unknown controllers and actions answer 404.
   */
  lemma DispatchExamples()
    ensures Resolve(Route("Receta", "index"), ShownApplication(), true)
              == Invoke(RecetaControllerClass, "index", [RecetaModelInstance])
    ensures Resolve(Route("Receta", "save"), ShownApplication(), true)
              == Invoke(RecetaControllerClass, "save", [RecetaModelInstance])
    ensures Resolve(Route("Receta", "isajaxrequest"), ShownApplication(), true) == ServerError
    ensures Resolve(Route("Receta", "borrar"), ShownApplication(), true) == NotFound(ActionNotFound)
    ensures Resolve(Route("Usuario", "index"), ShownApplication(), true) == NotFound(ControllerNotFound)
    ensures Resolve(Route("Usuario", "index"), ShownApplication(), false) == NotFound(ControllerNotFound)
    ensures Resolve(Route("Receta", "index"), ShownApplication(), false) == ServerError
    ensures Resolve(Route("Receta", ""), ShownApplication(), true) == NotFound(ActionNotFound)
  {
    ControllerClassLiterals();
    assert ControllerClass("Usuario") != RecetaControllerClass by {
      assert ControllerClass("Usuario")[16] != RecetaControllerClass[16];
    }
  }

  /** The class the router builds for a controller name autoloads from Controllers/<Name>Controller.php. */
  lemma ControllerClassFile(name: string, publicDir: string)
    requires '\\' !in name
    ensures AutoloadPath(ControllerClass(name), publicDir, '/')
              == Some(BaseDir(publicDir, '/') + "Controllers/" + name + "Controller.php")
  {
    var rel := "Controllers\\" + name + "Controller";
    assert "App\\Controllers\\" == AppPrefix + "Controllers\\";
    ConcatAssoc(AppPrefix, "Controllers\\", name);
    ConcatAssoc(AppPrefix, "Controllers\\" + name, "Controller");
    var cls := AppPrefix + rel;
    assert ControllerClass(name) == cls;
    assert cls[..|AppPrefix|] == AppPrefix && cls[|AppPrefix|..] == rel;
    ReplaceCharAppend("Controllers\\" + name, "Controller", '\\', '/');
    ReplaceCharAppend("Controllers\\", name, '\\', '/');
    assert ReplaceChar("Controllers\\", '\\', '/') == "Controllers/";
    assert ReplaceChar("Controller", '\\', '/') == "Controller";
    assert ReplaceChar(name, '\\', '/') == name;
    var base := BaseDir(publicDir, '/');
    var x := "Controllers/" + name + "Controller";
    assert AutoloadPath(ControllerClass(name), publicDir, '/') == Some(base + x + ".php");
    ConcatAssoc(base, x, ".php");
    ConcatAssoc("Controllers/" + name, "Controller", ".php");
    assert "Controller" + ".php" == "Controller.php";
    ConcatAssoc(base, "Controllers/", name);
    ConcatAssoc(base, "Controllers/" + name, "Controller.php");
  }
}
