# Recetas Sostenibles: a Dafny model of the recipe catalogue core

Recetas Sostenibles is a small PHP MVC application for sustainable recipes. This
project models and proves properties of its core:

- **The front controller** (`public/index.php`). It turns the request path into a
  controller and an action. It answers 404 for an unknown controller class. Otherwise
  it opens the database connection and builds the controller, injecting the recipe
  model into the controllers that take it. Only then does it check the action: 404
  for an unknown method, and the call for a known one. Its class autoloader maps `App\`
  class names to files below `app/`.
- **The recipe controller** (`app/Controllers/RecetaController.php`).
  - `index()` clamps the requested page to the pages that exist. It then renders
    either the list fragment (for AJAX requests) or the full page.
  - `save()` first checks the method and the CSRF token, then the trimmed title's
    length. It is meant to store the recipe with a sustainability score, record a
    flash message and redirect to `/receta/index`. The model's `Save` does that.
    As written, the call that stores the recipe names a method the model class
    does not have; see "## Findings".
- **The recipe model** (`app/Models/RecetaModel.php`). It counts the active recipes
  and returns one page of them, newest id first, with `LIMIT`/`OFFSET`.
- **The form script** (`public/assets/js/app.js`). It keeps the list of selected
  ingredients with their quantities and mirrors the list into a hidden form field.
  It also gates the ingredient search on the trimmed query's length.

The Dafny modules follow the same split:

| file | module | models |
|---|---|---|
| `strings.dfy` | `Strings` | PHP `trim`, `strtolower`, `ucfirst`, `empty`, `explode`, `implode`, `str_replace`; JavaScript `trim` and `length` |
| `receta_model.dfy` | `RecetaModel` | the `recetas` table and the listing and count queries; `RecetasTable.SaveReceta` stands in for the insert method that `save()` calls and `RecetaModel` does not declare |
| `receta_controller.dfy` | `RecetaController` | pagination, AJAX detection, `index()`, `save()` |
| `autoload.dfy` | `Autoload` | the autoloader's class → file mapping |
| `front_controller.dfy` | `FrontController` | routing and dispatch |
| `client_app.dfy` | `ClientApp` | the selected-ingredient list and the search gate |
| `wrappers.dfy` | `Wrappers` | `Option` |

How the source's forms map to Dafny:

- Computations (the pagination clamp, route parsing, the queries, the autoloader)
  are functions.
- State changed step by step becomes imperative code:
  - `save()` is a method on a `RecetaController` class. It writes a `Session`
    object and inserts into a `RecetasTable` object.
  - Dispatch is a method that builds its dependency list in place.
  - The script's ingredient list is a `SelectedIngredients` class whose `Add` and
    `Remove` methods reassign the list and the hidden field.

The SQL queries become functions on the table's rows:

- `WHERE is_active = 1` keeps the active rows in table order.
- `ORDER BY id DESC` is an insertion sort. On a table keyed by id, any two
  descending orderings of the same rows are equal, so this sort is the order the
  database returns.
- `LIMIT`/`OFFSET` is a window.

A PHP string is a sequence of `char`, one per byte, so `strlen` is the sequence
length.

## Model

| member | source | states |
|---|---|---|
| `Strings.Trim` | app/Controllers/RecetaController.php:85-86 | `trim` never lengthens a string, and the result neither starts nor ends with a character of the strip list |
| `Strings.TrimLeft` | public/index.php:62 | left trimming removes a prefix made only of strip-list characters, and what is left does not start with one |
| `Strings.TrimRight` | public/index.php:62 | right trimming removes a suffix made only of strip-list characters, and what is left does not end with one |
| `Strings.TrimIsInfix` | public/index.php:62 | the trimmed string is a contiguous middle of the input, with only strip-list characters before and after it |
| `Strings.TrimPadded` | app/Controllers/RecetaController.php:85 | any run of strip-list characters around a non-empty unpadded core trims to exactly that core |
| `Strings.TrimAllCut` | public/index.php:62 | a string made only of strip-list characters trims to the empty string |
| `Strings.TrimIdempotent` | public/assets/js/app.js:116 | trimming twice gives the same result as trimming once |
| `Strings.TrimRightKeepsKept` | public/index.php:62 | right trimming keeps every character up to the last one outside the strip list |
| `Strings.LowerChar` | public/index.php:67 | `strtolower` on one byte: upper-case ASCII letters become lower case, every other byte is unchanged, and no upper-case letter remains |
| `Strings.UpperChar` | public/index.php:67 | the `ucfirst` byte map: lower-case ASCII letters become upper case, every other byte is unchanged |
| `Strings.LowerCharMatches` | app/Controllers/RecetaController.php:129 | a byte lower-cases to a given lower-case letter exactly when it is that letter in either case |
| `Strings.AsciiLower` | public/index.php:67-74 | `strtolower` keeps the length and leaves no upper-case letter; a byte is a lower-case letter afterwards exactly when it was a letter before |
| `Strings.AsciiLowerIdempotent` | public/index.php:74 | lower-casing an already lower-cased name changes nothing |
| `Strings.UcFirst` | public/index.php:67 | `ucfirst` keeps the length, upper-cases the first byte and keeps the rest |
| `Strings.PhpEmpty` | public/index.php:70 | `empty()` on a string holds exactly for strings of at most one byte, all of them '0': "" and "0" |
| `Strings.Split` | public/index.php:63 | `explode` always gives at least one piece, and no piece contains the separator |
| `Strings.JoinSplit` | public/index.php:63 | joining the pieces of `explode` with the separator restores the string |
| `Strings.SplitJoin` | public/index.php:63 | splitting separator-free pieces joined by the separator gives back the pieces |
| `Strings.SplitNoSeparator` | public/index.php:63 | a string without the separator explodes into itself alone |
| `Strings.SplitAtFirst` | public/index.php:63 | the first piece of `explode` ends at the first separator |
| `Strings.Join` | app/Controllers/RecetaController.php:96 | `implode` of no pieces is "", of one piece is that piece, and otherwise starts with the first piece |
| `Strings.ReplaceChar` | public/index.php:37 | after `str_replace` of one character by a different one, the replaced character no longer occurs |
| `Strings.ReplaceCharRoundTrip` | public/index.php:37 | when the target character did not occur, replacing back restores the string |
| `Strings.ReplaceCharAppend` | public/index.php:37 | `str_replace` distributes over concatenation |
| `Strings.NatToString` | app/Controllers/RecetaController.php:107 | the interpolated score is a non-empty string of decimal digits with no leading zero |
| `Strings.NatToStringValue` | app/Controllers/RecetaController.php:107 | reading the digits of the interpolated number back gives the number |
| `Strings.Utf16Length` | public/assets/js/app.js:118 | JavaScript `length` is between the character count and twice it, and equals the character count when every character is in the Basic Multilingual Plane |
| `Strings.Utf16LengthChar` | public/assets/js/app.js:118 | a character above U+FFFF counts 2 code units, any other 1 |
| `Strings.Utf16LengthAppend` | public/assets/js/app.js:118 | the length of a concatenation is the sum of the lengths |
| `RecetaModel.ActiveRows` | app/Models/RecetaModel.php:32 | `WHERE is_active = 1` keeps each active row as often as it occurs in the table and no inactive row |
| `RecetaModel.InsertById` | app/Models/RecetaModel.php:39 | inserting into a list ordered by decreasing id keeps it ordered and adds exactly the inserted row |
| `RecetaModel.SortByIdDesc` | app/Models/RecetaModel.php:39 | `ORDER BY id DESC` gives a non-increasing id order and a permutation of its input |
| `RecetaModel.ConsNonIncreasing` | app/Models/RecetaModel.php:39 | a row whose id is at least the head's can be put in front of an ordered list without breaking the order |
| `RecetaModel.InsertByIdStrict` | app/Models/RecetaModel.php:39 | inserting a row with a new id into a strictly descending list keeps it strictly descending |
| `RecetaModel.SortByIdDescStrict` | app/Models/RecetaModel.php:39 | on a table keyed by id, the sort is strictly descending |
| `RecetaModel.DescendingOrderUnique` | app/Models/RecetaModel.php:39 | two strictly descending permutations of the same rows are equal, so `ORDER BY id DESC` leaves no choice |
| `RecetaModel.DescendingTail` | app/Models/RecetaModel.php:39 | the tail of a descending list is descending and holds exactly the rows other than the head |
| `RecetaModel.DescendingHeadsEqual` | app/Models/RecetaModel.php:39 | two descending permutations of the same rows start with the same row |
| `RecetaModel.Ordered` | app/Models/RecetaModel.php:32-39 | the listing query's rows are in non-increasing id order and are exactly the active rows, each as often as in the table |
| `RecetaModel.Window` | app/Models/RecetaModel.php:40 | `LIMIT limit OFFSET off` returns `min(limit, n - off)` rows (none past the end), each the row at its offset |
| `RecetaModel.Offset` | app/Models/RecetaModel.php:27-29 | the offset is 0 for any page up to 1, and `(page - 1) * limit` otherwise |
| `RecetaModel.OffsetStep` | app/Models/RecetaModel.php:29 | consecutive pages start exactly `limit` rows apart, so their windows are adjacent and do not overlap |
| `RecetaModel.PageRows` | app/Models/RecetaModel.php:39-40 | `LIMIT limit OFFSET off` on the ordered rows: a page holds exactly `min(limit, n - off)` rows, none past the end, the i-th being the ordered row at offset `off + i` |
| `RecetaModel.GetRecetasPaginadas` | app/Models/RecetaModel.php:24-49 | the page has one recipe per selected row, each that row's projection onto the selected columns |
| `RecetaModel.PageContents` | app/Models/RecetaModel.php:32-40 | a page holds exactly `min(limit, n - off)` recipes for the n active rows the count query counts (none past the end), all from active rows of the table; on a keyed table their ids strictly decrease |
| `RecetaModel.KeyedActiveRows` | app/Models/RecetaModel.php:32 | filtering on `is_active` keeps ids distinct |
| `RecetaModel.WindowExtendsPrefix` | app/Models/RecetaModel.php:40 | a window continues the prefix that ends where the window starts |
| `RecetaModel.WindowsUpToIsPrefix` | app/Models/RecetaModel.php:29-40 | windows 1 to n of `limit` rows together are exactly the first `n * limit` rows of the ordered result |
| `RecetaModel.PagesUpToIsWindows` | app/Models/RecetaModel.php:27-40 | the rows `getRecetasPaginadas` returns for pages 1 to n, concatenated, are windows 1 to n of the ordered result |
| `RecetaModel.FetchColumn` | app/Database.php:78-85 | `fetchColumn` returns the first column of the first row, and 0 when there is no row or the query fails |
| `RecetaModel.CountQuery` | app/Models/RecetaModel.php:58-59 | the count query fails exactly when told to, and otherwise returns the number of rows the listing pages through |
| `RecetaModel.GetTotalRecetas` | app/Models/RecetaModel.php:56-61 | the count is 0 when the query fails, and otherwise the number of rows the listing pages through |
| `RecetaModel.CountIsActiveRows` | app/Models/RecetaModel.php:58-60 | a successful count equals the number of active rows, and a row is listed exactly when it is in the table and active |
| `RecetaModel.RecetasTable.SaveReceta` | app/Controllers/RecetaController.php:106-110 | the insert appends one active row with the next id and the given fields; a failing insert returns its message and leaves the table unchanged; ids stay unique and below the counter |
| `RecetaModel.NewestFirst` | app/Models/RecetaModel.php:39-40 | an active row inserted with a larger id than every existing row heads page 1 of the listing |
| `RecetaModel.HeadHasLargestId` | app/Models/RecetaModel.php:39 | the head of the `ORDER BY id DESC` result has the largest id |
| `RecetaModel.NewRowHasLargestId` | app/Models/RecetaModel.php:39 | after inserting a row with a larger id, every other row has a smaller id than it |
| `RecetaController.CeilDiv` | app/Controllers/RecetaController.php:37 | `ceil(total / limit)` is 0 for no rows, and otherwise the least page count that covers the total |
| `RecetaController.Paginate` | app/Controllers/RecetaController.php:28-45 | `1 <= page <= totalPages` always; with no active recipes the result is page 1 of 1; otherwise totalPages is `ceil(total / 5)` and page is `min(max(1, requested), totalPages)`, with a missing parameter read as 1 |
| `RecetaController.PaginateKeepsValidPage` | app/Controllers/RecetaController.php:31-41 | a page already in range comes back unchanged, so clamping is idempotent |
| `RecetaController.ClampedPageIsNonEmpty` | app/Controllers/RecetaController.php:37-48 | with active recipes, the clamped page's offset lies before the end of the list, so the page holds 1 to 5 recipes |
| `RecetaController.PagesCoverActiveRows` | app/Controllers/RecetaController.php:36-48 | the rows of the pages the listing returns for pages 1 to totalPages, concatenated, are every active row exactly once, in decreasing id order |
| `RecetaController.IsAjaxRequest` | app/Controllers/RecetaController.php:126-130 | the request is AJAX exactly when the header is present and lower-cases to "xmlhttprequest"; the `!empty` test excludes nothing more |
| `RecetaController.IsAjaxRequestSpelling` | app/Controllers/RecetaController.php:126-130 | the request counts as AJAX exactly when `X-Requested-With` spells "xmlhttprequest" with each letter in either case |
| `RecetaController.ClientPaginationHeaderIsAjax` | public/assets/js/app.js:180-181 | the header the script's pagination requests send is recognised as AJAX; a missing or empty header is not |
| `RecetaController.Index` | app/Controllers/RecetaController.php:25-70 | `index()` shows a page between 1 and the page count, with at most 5 recipes |
| `RecetaController.IndexShowsClampedPage` | app/Controllers/RecetaController.php:28-69 | `index()` shows the page `Paginate` clamps the requested page to (a missing parameter read as 1), with `Paginate`'s page count and the recipes `getRecetasPaginadas` returns for that page and 5 per page; the page is non-empty when active recipes exist, and page 1 of 1 with none or when the count fails; `index()` renders the fragment exactly for AJAX requests and the full page otherwise |
| `RecetaController.DecideSave` | app/Controllers/RecetaController.php:78-100 | the request is refused exactly for a method other than POST or an invalid token; invalid input gives the one title message; an accepted title has at least 5 bytes |
| `RecetaController.DecideSaveAcceptsExactly` | app/Controllers/RecetaController.php:78-100 | a recipe is accepted exactly for a POST with a valid token whose trimmed title has at least 5 bytes; the stored title and description are trimmed, the payload is raw (`[]` when absent), and a short title gives the one validation message |
| `RecetaController.PaddedShortTitleRejected` | app/Controllers/RecetaController.php:85-92 | the title is judged after trimming: "  Sopa  " is too short |
| `RecetaController.SaveResponseAsWritten` | app/Controllers/RecetaController.php:105-115 | as written, `save()` redirects exactly when the form is rejected; an accepted form ends in an uncaught error |
| `RecetaController.SaveAsWrittenFailsOnValidForm` | app/Controllers/RecetaController.php:106-111 | a valid POST titled "Ensalada de quinoa" is not redirected by the code as written |
| `RecetaController.CalculateSustainabilityScore` | app/Controllers/RecetaController.php:120-124 | the score is in [6, 9] |
| `RecetaController.Session.SetFlash` | app/Controllers/RecetaController.php:79 | a flash write sets the one key and leaves the old input alone |
| `RecetaController.Session.SetOldInput` | app/Controllers/RecetaController.php:97 | saving the old input leaves the flash messages alone |
| `RecetaController.RecetaController.Save` | app/Controllers/RecetaController.php:75-116 | every path redirects to /receta/index and sets the "message" flash: an error for a bad method or token, the validation text (with the old input kept) for a short title, "Error interno: " plus the message for a failed insert, and otherwise the success text with the score. The table gains exactly one active row with the trimmed fields and a score in [6, 9], and the id counter advances, only on an accepted form whose insert succeeds; on every other path both are unchanged |
| `Autoload.AutoloadPath` | public/index.php:15-43 | a class maps to a file exactly when its name starts with `App\` |
| `Autoload.AutoloadPathShape` | public/index.php:19-37 | the file is the base directory, then the class name without its `App\` prefix with every backslash replaced by the directory separator, then ".php" |
| `Autoload.AutoloadPathInjective` | public/index.php:31-37 | two `App\` classes free of the directory separator that map to the same file are the same class |
| `Autoload.AutoloadRecetaModel` | public/index.php:18-37 | `App\Models\RecetaModel` maps to `Models/RecetaModel.php` under the base directory, and a class outside `App\` maps to no file |
| `FrontController.ControllerName` | public/index.php:67-72 | the controller name is never "" or "0": an empty segment or "0" names Receta, and any other segment gives a name of its length whose first byte is upper-cased after lower-casing and whose rest is lower-cased |
| `FrontController.ControllerNameExamples` | public/index.php:67-72 | "receta" and "RECETA" name Receta, "api" names Api, and "" and "0" fall back to Receta |
| `FrontController.AsciiLowerKeepsOut` | public/index.php:74 | lower-casing introduces no character that is not a letter |
| `FrontController.RouteOfKeepsOut` | public/index.php:67-74 | a non-letter character found in no segment is in neither the controller nor the action name |
| `FrontController.ParseRoute` | public/index.php:62-74 | whatever the path, the controller name is neither "" nor "0", and neither name contains '/' |
| `FrontController.RouteOf` | public/index.php:67-74 | the controller is `ControllerName` of the first segment, so neither "" nor "0"; with one segment the action is "index", otherwise the second segment lower-cased, of the same length |
| `FrontController.EmptyPathRoutesToDefault` | public/index.php:62-74 | an empty path or any run of slashes routes to Receta/index |
| `FrontController.RootRoutesToDefault` | public/index.php:62-74 | "/" and "" route to Receta/index |
| `FrontController.TrimRightKeepsHead` | public/index.php:62 | right trimming cannot reach into a part that ends with a kept character |
| `FrontController.SplitHead` | public/index.php:63 | the first piece of `explode` is the separator-free head |
| `FrontController.TrimLeftToFirstSegment` | public/index.php:62 | left trimming the slashes of a path stops at its first segment |
| `FrontController.TrimKeepsTwoSegments` | public/index.php:62 | trimming a path that starts with two segments keeps both segments |
| `FrontController.SplitTwoSegments` | public/index.php:63 | the first two pieces of `explode` are the first two segments |
| `FrontController.SplitTrimmedPath` | public/index.php:62-63 | after trim and explode, the first two pieces are the path's first two segments |
| `FrontController.RouteFromSegments` | public/index.php:62-74 | a path whose first two segments are c and a routes to controller `ControllerName(c)` and action a lower-cased, whatever follows and however many leading slashes precede |
| `FrontController.SplitTrimmedSegment` | public/index.php:62-63 | a single segment between slashes explodes into itself alone |
| `FrontController.RouteFromOneSegment` | public/index.php:62-74 | a path with one segment routes to that controller's "index" action |
| `FrontController.SplitEmptySecond` | public/index.php:63 | a doubled separator after the first segment explodes into that segment, then "" |
| `FrontController.SplitTrimmedEmptySecond` | public/index.php:62-63 | after trim and explode, a path with "//" after its first segment gives that segment, then "" |
| `FrontController.RouteWithEmptyAction` | public/index.php:62-74 | "/receta//save" and every path made of slashes, a segment c, "//", a non-empty slash-free segment and then nothing or a '/'-led rest route to `ControllerName(c)` with the empty action (that Receta/"" answers 404 is stated in `DispatchExamples`) |
| `FrontController.ControllerClass` | public/index.php:81 | the class name starts with `App\`, and the controller name sits between `App\Controllers\` and `Controller` |
| `FrontController.TakesModel` | public/index.php:110-113 | the model is injected exactly into the classes the router builds for Receta and Api |
| `FrontController.Resolve` | public/index.php:81-128 | an action is invoked only on an existing class, with a working connection, for an existing public method, and with the model exactly when the class takes it; a 404 carries one of the two messages |
| `FrontController.Dispatch` | public/index.php:81-128 | the dispatch run on a route gives exactly the outcome `Resolve` defines, checking the class, then the connection, then the method |
| `FrontController.ResolveOutcomes` | public/index.php:81-128 | 404 exactly for an unknown class, or for an unknown method once connected; the action is invoked exactly when class and method exist, the connection succeeds and the method is public, on the class named after the route; the model is injected exactly into RecetaController and ApiController, and nothing into any other controller |
| `FrontController.DispatchExamples` | public/index.php:81-128 | Receta/index and Receta/save reach RecetaController with the model; a private helper named in the URL fails instead of answering 404; unknown controllers and actions answer 404; a failed connection fails only after the class check |
| `FrontController.ControllerClassFile` | public/index.php:37-81 | for a controller name without a backslash, the class built for it autoloads from `Controllers/<Name>Controller.php` under the base directory; the router has no whitelist, so a name with a backslash would load from another directory, which this lemma does not cover |
| `ClientApp.RemoveId` | public/assets/js/app.js:96 | the filter never lengthens the list and leaves no entry with the removed id |
| `ClientApp.RemoveIdMembers` | public/assets/js/app.js:96 | an entry survives removal exactly when it was in the list with a different id |
| `ClientApp.RemoveIdAbsent` | public/assets/js/app.js:96 | removing an id that is not in the list changes nothing |
| `ClientApp.RemoveIdAppend` | public/assets/js/app.js:96 | removal works piecewise on concatenated lists, so the surviving entries keep their order |
| `ClientApp.OnlyEntryWithId` | public/assets/js/app.js:21 | with distinct ids, no entry before or after a given one shares its id |
| `ClientApp.RemoveIdOfHead` | public/assets/js/app.js:96 | removing the head's id when no later entry has it leaves the rest |
| `ClientApp.RemoveIdUnique` | public/assets/js/app.js:96 | with distinct ids, removing the id of entry k deletes exactly that entry |
| `ClientApp.RemoveIdKeepsInvariant` | public/assets/js/app.js:96 | removal keeps ids distinct and quantities positive |
| `ClientApp.AppendKeepsInvariant` | public/assets/js/app.js:21-49 | appending a record with a new id and a positive quantity keeps ids distinct and quantities positive |
| `ClientApp.SelectedIngredients.Add` | public/assets/js/app.js:16-50 | a duplicate id is refused first, then a missing or non-positive quantity; a refusal leaves the list and the hidden field unchanged. Otherwise exactly one `{id, nombre, huella_carbono, cantidad_gramos}` record is appended after the untouched earlier entries and the hidden field holds the serialised list. Ids stay distinct and quantities positive |
| `ClientApp.SelectedIngredients.Remove` | public/assets/js/app.js:94-97 | the list becomes its entries with a different id, in order; the hidden field holds the serialised list; ids stay distinct and quantities positive |
| `ClientApp.OnSearchInput` | public/assets/js/app.js:116-121 | a search is scheduled exactly when the trimmed value has at least 3 UTF-16 code units, and it searches that trimmed value; otherwise the results are cleared |
| `ClientApp.SearchQueryLength` | public/assets/js/app.js:116-121 | a searched query has at least 2 characters, and at least 3 when the input stays in the Basic Multilingual Plane |
| `ClientApp.BlankInputClears` | public/assets/js/app.js:116-120 | input made only of whitespace and line terminators never starts a search |
| `ClientApp.SameTrimSameAction` | public/assets/js/app.js:116 | inputs with the same trimmed text lead to the same action |
| `ClientApp.PaddingIsIgnored` | public/assets/js/app.js:116 | whitespace around a query does not change what is searched |
| `ClientApp.AstralCharacterCountsTwice` | public/assets/js/app.js:116-118 | two non-blank characters, the second above U+FFFF, already start a search, since JavaScript counts the second twice |

## Left out

- The static-file passthrough of the built-in web server (`public/index.php` lines 6-8), session start, loading the database configuration and `parse_url`. Routing starts from the request path.
- `class_exists`, `method_exists`, `file_exists` and `require`. These are given as an `Application` value (classes and method visibilities) or omitted; the autoloader model stops at the file path.
- Constructing a controller with the wrong arguments and the behaviour of controllers other than RecetaController. ApiController and its `searchIngredientes` action are not part of this model, and neither is the effect of the invoked action.
- `FrontController.Dispatch`: takes the route `ParseRoute` computes rather than the raw request. The routing lemmas are stated for every path of a given shape, not for particular literal paths other than "/" and "".
- `http_response_code`, `die`, `header` and `exit` are modelled only as the outcome value (`NotFound` with its message, `ServerError`, `Invoke`, `Redirect`).
- `render`, `renderPartial`, the view templates and the CSRF token and flash reads for the view. `Index` records only the template name, the recipes and the page numbers.
- `CsrfToken::validate` is a boolean input. `SessionManager` is not part of this model; its effects are recorded on the `Session` object.
- `Paginate`: the `(int)` cast of the `page` query parameter is not modelled; the input is the already-cast integer, or None when the parameter is missing.
- `CeilDiv`: computed on integers rather than through floating-point `ceil`. The two agree for every total below 2^53: the total and 5 are exact doubles, and the correctly rounded quotient cannot cross an integer, so `ceil` of it is the integer ceiling.
- `GetRecetasPaginadas`: an exception raised by the listing query is not modelled. Only the count query's failure is modelled, as the 0 that `Database::fetchColumn` returns.
- `CalculateSustainabilityScore`: `rand(6, 9)` is any value in the range, chosen nondeterministically, not a distribution.
- `RecetaController.RecetaController.Save`: the drawn score is returned only as a ghost out-parameter, for the contract to name; the method's run-time result is the response.
- `strlen`, `trim` and `strtolower` work on bytes; the model uses one `char` per byte and does not model multi-byte UTF-8 titles, so a title's length is its character count.
- The database schema, the PDO wrapper (`app/Database.php` apart from the count fallback) and `seed.php` are not part of this model.
- The DOM work in `public/assets/js/app.js` (list items, remove buttons, clearing the search box), `prompt`, `fetch`, `setTimeout` debouncing, `history.pushState` and `setupPagination`.
- `SelectedIngredients.Add`: `parseFloat` is an optional real number (None for NaN). Floating-point rounding and `Infinity` are not modelled.
- `JSON.stringify` is a function fixed when the list is created; the JSON format is not modelled. The hidden field starts empty.
- The page script's global `selectedIngredients` is a field of one object, so aliasing of the array by other scripts is not modelled. The remove handler's `parseInt` of the button's `data-id` is taken as the integer id.

## Findings

| source | as written | input that shows it | evidently intended | confidence | as-written member | corrected member |
|---|---|---|---|---|---|---|
| app/Controllers/RecetaController.php:106-111 | `save()` calls `$this->recetaModel->saveReceta(...)`, but `RecetaModel` declares no such method. The resulting `Error` is not an `Exception`, so the `catch` does not handle it. | a POST with a valid CSRF token and titulo "Ensalada de quinoa" | the recipe is inserted, the success flash is set and the request is redirected to /receta/index | not executed; app/Models/RecetaModel.php:7-63 is the whole class and declares only `getRecetasPaginadas` and `getTotalRecetas` | `RecetaController.SaveAsWrittenFailsOnValidForm` | `RecetaController.RecetaController.Save` |
