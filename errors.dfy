/**
  The error taxonomy of src/error.rs: its display texts, the HTTP response
  each variant turns into, and the conversions from library errors.
*/
module Errors {
  import opened Text

  datatype AppError =
    | Config(detail: String)
    | Auth
    | Forbidden
    | BadRequest(detail: String)
    | Upstream(detail: String)
    | Internal

  const BAD_REQUEST: nat := 400
  const UNAUTHORIZED: nat := 401
  const FORBIDDEN: nat := 403
  const INTERNAL_SERVER_ERROR: nat := 500
  const BAD_GATEWAY: nat := 502

  /** The JSON body `{"error": message}`. */
  datatype ErrorBody = ErrorBody(error: String)

  datatype ErrorResponse = ErrorResponse(status: nat, body: ErrorBody)

  /** The `#[error(...)]` texts. */
  function Display(e: AppError): String {
    match e
    case Config(m) => "configuration error: " + m
    case Auth => "authentication failed"
    case Forbidden => "forbidden"
    case BadRequest(m) => "bad request: " + m
    case Upstream(m) => "upstream error: " + m
    case Internal => "internal error"
  }

  /** Distinct errors display differently, so a logged text identifies its error. */
  lemma {:induction false} DisplayInjective(e1: AppError, e2: AppError)
    requires Display(e1) == Display(e2)
    ensures e1 == e2
  {
    assert Display(e1)[0] == Display(e2)[0];
    match e1
    case Config(m) =>
      var n := |"configuration error: "|;
      assert m == Display(e1)[n..] == Display(e2)[n..];
    case BadRequest(m) =>
      var n := |"bad request: "|;
      assert m == Display(e1)[n..] == Display(e2)[n..];
    case Upstream(m) =>
      var n := |"upstream error: "|;
      assert m == Display(e1)[n..] == Display(e2)[n..];
    case _ =>
  }

  /** `IntoResponse for AppError`. */
  function IntoResponse(e: AppError): (r: ErrorResponse)
    ensures r.status in {BAD_REQUEST, UNAUTHORIZED, FORBIDDEN, INTERNAL_SERVER_ERROR, BAD_GATEWAY}
    ensures r.status == INTERNAL_SERVER_ERROR <==> e.Config? || e.Internal?
    ensures (e.Config? || e.BadRequest? || e.Upstream?) ==> r.body.error == e.detail
    ensures e.Internal? ==> r.body.error == "internal error"
    ensures e.BadRequest? ==> r.status == BAD_REQUEST
    ensures e.Upstream? ==> r.status == BAD_GATEWAY
    ensures e.Auth? ==> r == ErrorResponse(UNAUTHORIZED, ErrorBody("authentication required"))
    ensures e.Forbidden? ==> r == ErrorResponse(FORBIDDEN, ErrorBody("forbidden"))
  {
    match e
    case Config(m) => ErrorResponse(INTERNAL_SERVER_ERROR, ErrorBody(m))
    case Auth => ErrorResponse(UNAUTHORIZED, ErrorBody("authentication required"))
    case Forbidden => ErrorResponse(FORBIDDEN, ErrorBody("forbidden"))
    case BadRequest(m) => ErrorResponse(BAD_REQUEST, ErrorBody(m))
    case Upstream(m) => ErrorResponse(BAD_GATEWAY, ErrorBody(m))
    case Internal => ErrorResponse(INTERNAL_SERVER_ERROR, ErrorBody("internal error"))
  }

  /** Outside 500, the status alone tells which variant produced a response. */
  lemma StatusIdentifiesVariant(e1: AppError, e2: AppError)
    requires IntoResponse(e1).status == IntoResponse(e2).status != INTERNAL_SERVER_ERROR
    ensures e1.Auth? == e2.Auth? && e1.Forbidden? == e2.Forbidden?
    ensures e1.BadRequest? == e2.BadRequest? && e1.Upstream? == e2.Upstream?
  {
  }

  /** The library errors the application converts with `?`. */
  datatype LibraryError =
    | Transport(text: String)   // reqwest::Error, carried as its display text
    | Template                  // askama::Error
    | Json                      // serde_json::Error

  /** The `From` conversions: transport failures are upstream errors, the rest internal. */
  function FromLibraryError(err: LibraryError): (e: AppError)
    ensures e.Upstream? <==> err.Transport?
    ensures err.Transport? ==> e.detail == err.text
    ensures !err.Transport? ==> e == Internal
  {
    match err
    case Transport(text) => Upstream(text)
    case Template => Internal
    case Json => Internal
  }

  /**
    What a client sees of a converted library error: a transport failure is a
    502 carrying its text, a template or JSON failure a 500 with no detail.
  */
  lemma LibraryErrorResponse(err: LibraryError)
    ensures err.Transport? ==> IntoResponse(FromLibraryError(err)) == ErrorResponse(BAD_GATEWAY, ErrorBody(err.text))
    ensures !err.Transport? ==> IntoResponse(FromLibraryError(err)) == ErrorResponse(INTERNAL_SERVER_ERROR, ErrorBody("internal error"))
  {
  }
}
