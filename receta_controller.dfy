/**
 * RecetaController: the listing action `index()` (pagination clamp, AJAX or
 * full-page rendering) and the form action `save()` (method and CSRF guard,
 * title validation, score, insert, flash message and redirect).
 *
 * The CSRF check is an input (`csrfValid` is what `CsrfToken::validate`
 * answers for the posted token). Session writes are recorded on a `Session`
 * object standing for `SessionManager`.
 */
module RecetaController {
  import opened Wrappers
  import opened Strings
  import opened RecetaModel

  /** `$limit` in `index()`: recipes per page. */
  const PageSize: nat := 5

  const FragmentTemplate: string := "recetas/recipe_list_fragment"
  const IndexTemplate: string := "recetas/index"

  /** Every exit of `save()` redirects here. */
  const IndexLocation: string := "/receta/index"

  /** The header value `isAjaxRequest()` looks for, lower-cased. */
  const XmlHttpRequest: string := "xmlhttprequest"

  function Max(a: int, b: int): int
  {
    if a >= b then a else b
  }

  /** `(int) ceil($total / $limit)` for a non-negative total. */
  function CeilDiv(total: nat, limit: nat): (c: nat)
    requires limit > 0
    ensures total == 0 ==> c == 0
    ensures total > 0 ==> c >= 1 && (c - 1) * limit < total <= c * limit
  {
    var q := (total + limit - 1) / limit;
    var m := (total + limit - 1) % limit;
    assert q * limit + m == total + limit - 1;
    assert total > 0 ==> q >= 1;
    q
  }

  /** The `(page, totalPages)` pair `index()` hands to the view. */
  datatype Pagination = Pagination(page: int, totalPages: int)

  /**
   * The pagination block of `index()`: the requested page (1 when the
   * parameter is missing) raised to at least 1, then lowered to the last page
   * when there are active recipes, or forced to page 1 of 1 when there are none.
   */
  function Paginate(requested: Option<int>, total: nat): (p: Pagination)
    ensures 1 <= p.page <= p.totalPages
    ensures total == 0 ==> p == Pagination(1, 1)
    ensures total > 0 ==> p.totalPages == CeilDiv(total, PageSize)
                          && p.page == Min(Max(1, requested.GetOr(1)), p.totalPages)
  {
    var page := Max(1, requested.GetOr(1));
    var totalPages := CeilDiv(total, PageSize);
    if total > 0 && page > totalPages then Pagination(totalPages, totalPages)
    else if total == 0 then Pagination(1, 1)
    else Pagination(page, totalPages)
  }

  /** A page already in range comes back unchanged, so re-requesting the clamped page is a fixed point. */
  lemma PaginateKeepsValidPage(requested: int, total: nat)
    requires 1 <= requested <= Max(1, CeilDiv(total, PageSize))
    ensures Paginate(Some(requested), total).page == requested
    ensures Paginate(Some(Paginate(Some(requested), total).page), total) == Paginate(Some(requested), total)
  {
  }

  /** With active recipes, the clamped page starts before the end of the list, so it is not empty. */
  lemma ClampedPageIsNonEmpty(table: seq<Row>, requested: Option<int>)
    requires |Ordered(table)| > 0
    ensures Offset(Paginate(requested, |Ordered(table)|).page, PageSize) < |Ordered(table)|
    ensures 1 <= |GetRecetasPaginadas(table, Paginate(requested, |Ordered(table)|).page, PageSize)| <= PageSize
  {
    var total := |Ordered(table)|;
    var p := Paginate(requested, total);
    var c := CeilDiv(total, PageSize);
    assert (p.page - 1) * PageSize <= (c - 1) * PageSize;
  }

  /**
   * Walking pages 1..totalPages lists every active recipe exactly once, in
   * decreasing id order.
   */
  lemma PagesCoverActiveRows(table: seq<Row>)
    ensures PagesUpTo(table, Paginate(None, |Ordered(table)|).totalPages, PageSize) == Ordered(table)
    ensures multiset(PagesUpTo(table, Paginate(None, |Ordered(table)|).totalPages, PageSize))
              == multiset(ActiveRows(table))
    ensures IdNonIncreasing(PagesUpTo(table, Paginate(None, |Ordered(table)|).totalPages, PageSize))
  {
    var total := |Ordered(table)|;
    var n := Paginate(None, total).totalPages;
    PagesUpToIsWindows(table, n, PageSize);
    WindowsUpToIsPrefix(Ordered(table), n, PageSize);
    assert Ordered(table)[..Min(n * PageSize, total)] == Ordered(table);
  }

  /**
   * `isAjaxRequest()`: the `X-Requested-With` header is present, not empty in
   * PHP's sense, and lower-cases to "xmlhttprequest".
   */
  function IsAjaxRequest(requestedWith: Option<string>): (b: bool)
    ensures b <==> requestedWith.Some? && AsciiLower(requestedWith.value) == XmlHttpRequest
  {
    requestedWith.Some? && !PhpEmpty(requestedWith.value)
    && AsciiLower(requestedWith.value) == XmlHttpRequest
  }

  /** The header matches exactly when it spells "xmlhttprequest" with each letter in either case. */
  lemma IsAjaxRequestSpelling(requestedWith: Option<string>)
    ensures IsAjaxRequest(requestedWith) <==>
              requestedWith.Some? && |requestedWith.value| == |XmlHttpRequest|
              && forall i :: 0 <= i < |XmlHttpRequest| ==>
                   requestedWith.value[i] == XmlHttpRequest[i]
                   || requestedWith.value[i] == UpperChar(XmlHttpRequest[i])
  {
    if requestedWith.Some? && |requestedWith.value| == |XmlHttpRequest| {
      var h := requestedWith.value;
      forall i | 0 <= i < |XmlHttpRequest|
        ensures LowerChar(h[i]) == XmlHttpRequest[i] <==>
                  (h[i] == XmlHttpRequest[i] || h[i] == UpperChar(XmlHttpRequest[i]))
      {
        LowerCharMatches(h[i], XmlHttpRequest[i]);
      }
      assert AsciiLower(h) == XmlHttpRequest <==>
               forall i :: 0 <= i < |XmlHttpRequest| ==> LowerChar(h[i]) == XmlHttpRequest[i];
    }
  }

  /** The header the client script's pagination links send is recognised. */
  lemma ClientPaginationHeaderIsAjax()
    ensures IsAjaxRequest(Some("XMLHttpRequest"))
    ensures !IsAjaxRequest(None) && !IsAjaxRequest(Some(""))
  {
    var h := "XMLHttpRequest";
    forall i | 0 <= i < |h|
      ensures AsciiLower(h)[i] == XmlHttpRequest[i]
    {
    }
    assert AsciiLower(h) == XmlHttpRequest;
  }

  /** The data `index()` renders and the template it renders it with. */
  datatype IndexView = IndexView(template: string, recetas: seq<Receta>, currentPage: int, totalPages: int)

  /**
   * `index()`: count, clamp, fetch the page, and pick the fragment template
   * for AJAX requests and the full page otherwise.
   */
  function Index(pageParam: Option<int>, requestedWith: Option<string>, table: seq<Row>,
                 countFails: bool): (v: IndexView)
    ensures 1 <= v.currentPage <= v.totalPages && |v.recetas| <= PageSize
  {
    var total := GetTotalRecetas(table, countFails);
    var p := Paginate(pageParam, total);
    PageContents(table, p.page, PageSize);
    IndexView(if IsAjaxRequest(requestedWith) then FragmentTemplate else IndexTemplate,
              GetRecetasPaginadas(table, p.page, PageSize), p.page, p.totalPages)
  }

  /**
   * What the listing shows: a page within range; with active recipes a
   * non-empty page of at most five; with none, page 1 of 1 and no recipes;
   * and the fragment exactly for AJAX requests.
   */
  lemma IndexShowsClampedPage(pageParam: Option<int>, requestedWith: Option<string>, table: seq<Row>,
                              countFails: bool)
    ensures var v := Index(pageParam, requestedWith, table, countFails);
            var p := Paginate(pageParam, GetTotalRecetas(table, countFails));
            v.currentPage == p.page && v.totalPages == p.totalPages
            && v.recetas == GetRecetasPaginadas(table, p.page, PageSize)
    ensures var v := Index(pageParam, requestedWith, table, countFails);
            (v.template == FragmentTemplate <==> IsAjaxRequest(requestedWith))
            && (v.template == IndexTemplate <==> !IsAjaxRequest(requestedWith))
    ensures var v := Index(pageParam, requestedWith, table, countFails);
            !countFails && |Ordered(table)| > 0 ==> v.recetas != []
    ensures var v := Index(pageParam, requestedWith, table, countFails);
            !countFails && |Ordered(table)| == 0 ==> v.recetas == [] && v.currentPage == 1 == v.totalPages
    ensures var v := Index(pageParam, requestedWith, table, countFails);
            countFails ==> v.currentPage == 1 == v.totalPages
  {
    var total := GetTotalRecetas(table, countFails);
    var p := Paginate(pageParam, total);
    PageContents(table, p.page, PageSize);
    if !countFails && |Ordered(table)| > 0 {
      ClampedPageIsNonEmpty(table, pageParam);
    }
  }

  /** A flash entry: `['error' => ...]`, `['validation' => ...]` or `['success' => ...]`. */
  datatype Flash = Flash(kind: string, text: string)

  const SecurityErrorText: string := "Error de seguridad o método incorrecto."
  const TitleTooShortText: string := "El título es muy corto."
  const InternalErrorPrefix: string := "Error interno: "

  /** The success message, with the score interpolated. */
  function SuccessText(score: nat): string
  {
    "¡Receta guardada! Score Eco-Nutri: " + NatToString(score) + "/10."
  }

  /** The posted form fields. */
  type Post = map<string, string>

  /** `$_POST[$key] ?? $default` */
  function Field(post: Post, key: string, default: string): string
  {
    if key in post then post[key] else default
  }

  /** What `save()` decides before it touches the model. */
  datatype SaveDecision =
    | RejectRequest
    | RejectInput(errors: seq<string>)
    | Accept(titulo: string, descripcion: string, ingredientesData: string)

  /** The guard sequence of `save()`: method and CSRF token, then the trimmed title's length. */
  function DecideSave(requestMethod: string, csrfValid: bool, post: Post): (d: SaveDecision)
    ensures d.RejectRequest? <==> requestMethod != "POST" || !csrfValid
    ensures d.RejectInput? ==> d.errors == [TitleTooShortText]
    ensures d.Accept? ==> |d.titulo| >= 5
  {
    if requestMethod != "POST" || !csrfValid then RejectRequest
    else
      var titulo := Trim(Field(post, "titulo", ""), PhpTrimSet);
      var errors := if |titulo| < 5 then [TitleTooShortText] else [];
      if errors != [] then RejectInput(errors)
      else Accept(titulo, Trim(Field(post, "descripcion", ""), PhpTrimSet),
                  Field(post, "ingredientes_data", "[]"))
  }

  /**
   * A recipe is stored exactly for a POST with a valid token whose trimmed
   * title has at least five bytes; what is stored is the trimmed title and
   * description and the raw ingredients payload (`[]` when absent).
   */
  lemma DecideSaveAcceptsExactly(requestMethod: string, csrfValid: bool, post: Post)
    ensures DecideSave(requestMethod, csrfValid, post).Accept? <==>
              requestMethod == "POST" && csrfValid && |Trim(Field(post, "titulo", ""), PhpTrimSet)| >= 5
    ensures DecideSave(requestMethod, csrfValid, post).RejectRequest? <==>
              requestMethod != "POST" || !csrfValid
    ensures var d := DecideSave(requestMethod, csrfValid, post);
            d.Accept? ==> |d.titulo| >= 5 && Unpadded(d.titulo, PhpTrimSet)
                          && Unpadded(d.descripcion, PhpTrimSet)
                          && d.titulo == Trim(Field(post, "titulo", ""), PhpTrimSet)
                          && d.descripcion == Trim(Field(post, "descripcion", ""), PhpTrimSet)
                          && d.ingredientesData == (if "ingredientes_data" in post then post["ingredientes_data"] else "[]")
    ensures var d := DecideSave(requestMethod, csrfValid, post);
            d.RejectInput? ==> d.errors == [TitleTooShortText]
  {
  }

  /** A title padded with spaces is judged by its trimmed length: "  Sopa  " is too short. */
  lemma PaddedShortTitleRejected()
    ensures DecideSave("POST", true, map["titulo" := "  Sopa  "]) == RejectInput([TitleTooShortText])
  {
    TrimPadded("  ", "Sopa", "  ", PhpTrimSet);
    assert "  " + "Sopa" + "  " == "  Sopa  ";
  }

  /** The HTTP outcome of an action. */
  datatype Response = Redirect(location: string) | UncaughtError

  /**
   * `save()` as written. `RecetaModel` declares no `saveReceta`, so on an
   * accepted form the call raises PHP's `Error` ("Call to undefined method"),
   * which `catch (\Exception $e)` does not catch: the request dies with an
   * uncaught error instead of setting a flash message and redirecting.
   */
  function SaveResponseAsWritten(d: SaveDecision): (r: Response)
    ensures r.Redirect? <==> !d.Accept?
  {
    if d.Accept? then UncaughtError else Redirect(IndexLocation)
  }

  /** A well-formed submission hits the missing method and is not redirected. */
  lemma SaveAsWrittenFailsOnValidForm()
    ensures SaveResponseAsWritten(DecideSave("POST", true, map["titulo" := "Ensalada de quinoa"])) == UncaughtError
  {
    TrimPadded("", "Ensalada de quinoa", "", PhpTrimSet);
    assert "" + "Ensalada de quinoa" + "" == "Ensalada de quinoa";
  }

  /** `calculateSustainabilityScore()`: a placeholder `rand(6, 9)`, any value in range. */
  method CalculateSustainabilityScore(ingredientesJson: string) returns (score: int)
    ensures 6 <= score <= 9
  {
    score :| 6 <= score <= 9;
  }

  /** The session state `save()` writes through `SessionManager`. */
  class Session {
    var flash: map<string, Flash>
    var oldInput: Option<Post>

    constructor ()
      ensures flash == map[] && oldInput == None
    {
      flash := map[];
      oldInput := None;
    }

    /** `SessionManager::setFlash($key, $value)` */
    method SetFlash(key: string, value: Flash)
      modifies this
      ensures flash == old(flash)[key := value]
      ensures oldInput == old(oldInput)
    {
      flash := flash[key := value];
    }

    /** `SessionManager::setOldInput($_POST)` */
    method SetOldInput(post: Post)
      modifies this
      ensures oldInput == Some(post)
      ensures flash == old(flash)
    {
      oldInput := Some(post);
    }
  }

  /** The controller and the model injected into it. */
  class RecetaController {
    const recetaModel: RecetasTable

    constructor (recetaModel: RecetasTable)
      ensures this.recetaModel == recetaModel
    {
      this.recetaModel := recetaModel;
    }

    /**
     * `save()`, with the model's insert present: every path sets the
     * "message" flash and redirects to /receta/index; the table changes only
     * on an accepted form whose insert succeeds, by one active row whose score
     * (`score`, the value drawn) is in [6, 9]; old input is kept only on a
     * validation failure.
     */
    method Save(session: Session, requestMethod: string, csrfValid: bool, post: Post,
                insertFailure: Option<string>) returns (response: Response, ghost score: int)
      requires recetaModel.Valid()
      modifies session, recetaModel
      ensures recetaModel.Valid()
      ensures response == Redirect(IndexLocation)
      ensures DecideSave(requestMethod, csrfValid, post).RejectRequest? ==>
                session.flash == old(session.flash)["message" := Flash("error", SecurityErrorText)]
                && session.oldInput == old(session.oldInput)
                && recetaModel.rows == old(recetaModel.rows) && recetaModel.nextId == old(recetaModel.nextId)
      ensures DecideSave(requestMethod, csrfValid, post).RejectInput? ==>
                session.flash == old(session.flash)["message" :=
                  Flash("validation", Join(DecideSave(requestMethod, csrfValid, post).errors, "<br>"))]
                && session.oldInput == Some(post)
                && recetaModel.rows == old(recetaModel.rows) && recetaModel.nextId == old(recetaModel.nextId)
      ensures DecideSave(requestMethod, csrfValid, post).Accept? && insertFailure.Some? ==>
                session.flash == old(session.flash)["message" :=
                  Flash("error", InternalErrorPrefix + insertFailure.value)]
                && session.oldInput == old(session.oldInput)
                && recetaModel.rows == old(recetaModel.rows) && recetaModel.nextId == old(recetaModel.nextId)
      ensures DecideSave(requestMethod, csrfValid, post).Accept? && insertFailure.None? ==>
                var d := DecideSave(requestMethod, csrfValid, post);
                6 <= score <= 9
                && recetaModel.rows == old(recetaModel.rows)
                     + [Row(old(recetaModel.nextId), d.titulo, d.descripcion, d.ingredientesData, score, 1)]
                && recetaModel.nextId == old(recetaModel.nextId) + 1
                && session.flash == old(session.flash)["message" := Flash("success", SuccessText(score))]
                && session.oldInput == old(session.oldInput)
    {
      if requestMethod != "POST" || !csrfValid {
        assert DecideSave(requestMethod, csrfValid, post) == RejectRequest;
        session.SetFlash("message", Flash("error", SecurityErrorText));
        return Redirect(IndexLocation), 0;
      }

      var titulo := Trim(Field(post, "titulo", ""), PhpTrimSet);
      var descripcion := Trim(Field(post, "descripcion", ""), PhpTrimSet);
      var ingredientesData := Field(post, "ingredientes_data", "[]");
      var errors: seq<string> := [];

      if |titulo| < 5 {
        errors := errors + [TitleTooShortText];
      }

      if errors != [] {
        assert DecideSave(requestMethod, csrfValid, post) == RejectInput(errors);
        session.SetFlash("message", Flash("validation", Join(errors, "<br>")));
        session.SetOldInput(post);
        return Redirect(IndexLocation), 0;
      }

      assert DecideSave(requestMethod, csrfValid, post) == Accept(titulo, descripcion, ingredientesData);
      var drawn := CalculateSustainabilityScore(ingredientesData);
      score := drawn;

      var error := recetaModel.SaveReceta(titulo, descripcion, ingredientesData, drawn, insertFailure);
      if error.None? {
        session.SetFlash("message", Flash("success", SuccessText(drawn)));
      } else {
        session.SetFlash("message", Flash("error", InternalErrorPrefix + error.value));
      }

      response := Redirect(IndexLocation);
    }
  }
}
