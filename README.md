# Collaborator audit dashboard: verified model of its request-level logic

The dashboard is a small web service. It signs a GitHub user in through OAuth
and serves a dashboard page. The code defines the collaborator records and
their permission label, but no endpoint fetches repositories or
collaborators. This project models the service's deterministic decision and
string logic in Dafny, and proves what that logic promises:

- **Pagination cursor** (`src/utils.rs`): `parse_next_link` reads GitHub's
  `link` header, a comma-separated list of `<url>; rel="..."` items in the
  syntax of section 3 of RFC 8288. It returns the URL of the first item that
  mentions `rel="next"`.
- **OAuth scope check** (`src/auth.rs`): `has_required_scopes` accepts a
  granted scope string only if it holds both `repo` and `read:org`.
- **Records and permission label** (`src/models.rs`): the session, the
  collaborator and its permissions, and the dashboard query. A
  collaborator's five permission flags are shown as one label. The
  dashboard query becomes the repository filter options.
- **Request gates** (`src/middleware.rs`): `require_auth` admits a request
  only with a readable session. `csrf_protect` admits a state-changing
  request only when its `x-csrf-token` header matches the session's token.
- **Error taxonomy** (`src/error.rs`): the six `AppError` variants, the HTTP
  status and JSON body each one becomes, and the conversions from library
  errors.

The code is pure throughout. It is modelled with datatypes, functions and
lemmas. Strings are `seq<char>`.

Modules:
- `Base`: `Option` and `Result`.
- `Text`: the parts of Rust's `str` API the code uses: `trim`, `find`,
  `contains`, `starts_with`, `split`.
- `Links`, `Scopes`, `Models`, `Errors`, `Middleware`: one module per source
  file.

`parse_next_link` has three outcomes: `Next(url)`, `NoNext`, and `Panics`.
`Panics` stands for the Rust slice panic, which happens when the matching
item's first `>` comes before its first `<`. It is an explicit outcome, not a
precondition, so the model accepts every header the code accepts.

Facts about the code that the model keeps:
- The pagination cursor is the first item whose trimmed text contains the
  substring `rel="next"`, not an item whose relation is exactly `next`. If
  that item lacks a bracket, the parser gives up (`None`) rather than trying
  a later item.
- `pull` is never read: `read` is the fallback when admin, maintain, push
  and triage are all false.
- `/remove` is a placeholder that returns an empty result
  (`src/handlers.rs:165-167`), and `src/github.rs` only builds an HTTP
  client, so the code has no retry, pagination loop, concurrent fan-out or
  removal logic to model.

## Model

| member | source | states |
|---|---|---|
| `Links.ParseNextLink` | src/utils.rs:56-67 | An absent header has no next link. A returned URL never contains `>`. |
| `Links.Target` | src/utils.rs:61-63 | For one trimmed item: no link iff it lacks `<` or `>`. If the first `<` comes before the first `>`, the link is exactly the text strictly between them; it contains no `>` and is shorter than the item. Otherwise the slice panics. |
| `Links.MisorderedBracketsPanic` | src/utils.rs:61-63 | When the first `>` comes before the first `<`, the outcome is always the slice panic. |
| `Links.FirstNext` | src/utils.rs:58-66 | Any outcome other than "no link" comes from an item whose trimmed text contains `rel="next"`. |
| `Links.FirstMatchDecides` | src/utils.rs:58-64 | Items are scanned in comma-split order. The outcome is that of the first item whose trimmed text contains `rel="next"`. Later items are never consulted. |
| `Links.NoMatchNoNext` | src/utils.rs:60-66 | If no item mentions `rel="next"` (only `prev`, `last`, ...), there is no next link. |
| `Links.MalformedFirstMatchHidesLater` | src/utils.rs:61-62 | If the first matching item lacks `<` or `>`, the result is no link, even when a later item would give one. |
| `Links.ParseNextLinkRoundTrip` | src/utils.rs:56-67 | For a URL without `,`, `<` or `>`, a header whose first next-item is `<url>; rel="next"`, with any whitespace around it, gives back exactly `url`. Any comma-free non-next items may come before it and any comma-free items after it, so GitHub's `, ` separator is covered. |
| `Text.Find` | src/utils.rs:61-62 | `find` returns no index iff the character is absent; otherwise it returns the index of its first occurrence. |
| `Text.SplitJoin` | src/utils.rs:58 | Pieces without a separator, joined with one and split again, give back the same pieces. |
| `Text.JoinSplit` | src/utils.rs:58 | A string split at a separator and joined again gives back the string. |
| `Text.TrimIgnoresPadding` | src/middleware.rs:44 | Whitespace added on either side never changes what `trim` returns. |
| `Scopes.Normalized` | src/auth.rs:78-82 | Every token in the normalised list is non-empty, has no whitespace at either end, and contains no comma or space. |
| `Scopes.NormalizedOfTokens` | src/auth.rs:78-82 | Clean tokens joined by a comma or a space normalise back to exactly those tokens, in order. |
| `Scopes.HasRequiredScopesOfTokens` | src/auth.rs:77-85 | For clean tokens joined by a comma or a space, the check passes iff both `repo` and `read:org` are among them. |
| `Scopes.NormalizedAtSeparator` | src/auth.rs:79-81 | A comma or a space splits the scope string into two halves that are normalised independently. |
| `Scopes.ScopeOrderIrrelevant` | src/auth.rs:84 | Swapping the two sides of a separator never changes the result. |
| `Scopes.ExtraScopesKeepAcceptance` | src/auth.rs:84 | Adding extra scopes before or after an accepted grant keeps it accepted. |
| `Scopes.EmptyPiecesIgnored` | src/auth.rs:81 | A doubled separator gives the same tokens as a single one. |
| `Scopes.OuterSeparatorsIgnored` | src/auth.rs:79-81 | A leading or trailing comma or space gives the same tokens. |
| `Scopes.NormalizedSeparator` | src/auth.rs:79-81 | A lone comma or space holds no token. |
| `Scopes.MissingScopeRejected` | src/auth.rs:78-84 | The empty string is rejected, and so is a grant whose only token is `repo` or `read:org`. |
| `Scopes.CommaSeparatedAccepted` | src/auth.rs:79 | `repo,read:org` is accepted. |
| `Scopes.SpaceSeparatedAccepted` | src/auth.rs:79 | `repo read:org` is accepted. |
| `Scopes.CommaSpaceExampleAccepted` | src/auth.rs:79-81 | `read:org, repo` is accepted. |
| `Scopes.CapitalisedScopeRejected` | src/auth.rs:84 | `Repo,read:org` is rejected: matching is case-sensitive. |
| `Scopes.NarrowerScopeRejected` | src/auth.rs:84 | `public_repo read:org` is rejected: matching is exact. |
| `Models.PermissionLabel` | src/models.rs:49-61 | The label is one of admin, maintain, write, triage, read. It is `admin` whenever the admin flag is set. |
| `Models.PermissionLabelIsStrongestGranted` | src/models.rs:49-61 | The label is the strongest one the flags grant in the order admin > maintain > write (push) > triage > read. No other label has that property. |
| `Models.PushIsShownAsWrite` | src/models.rs:54-55 | Push without admin or maintain is shown as `write`. |
| `Models.LabelIgnoresIdentityAndPull` | src/models.rs:49-61 | Collaborators whose flags agree, `pull` aside, get the same label, whatever their login, id or role name. |
| `Models.DefaultPermissionsRead` | src/models.rs:25-37 | Default permissions have all flags clear and are shown as `read`. |
| `Models.FilterOptionsFrom` | src/models.rs:144-151 | The filter options carry the query's `ignore_forks` and `ignore_archived` flags unchanged. |
| `Errors.IntoResponse` | src/error.rs:30-43 | Each variant gets its own status: Config and Internal 500, Auth 401, Forbidden 403, BadRequest 400, Upstream 502; so the status is 500 iff the variant is Config or Internal. Config, BadRequest and Upstream carry their message through. Auth's body is "authentication required", Forbidden's "forbidden", and Internal's "internal error" with no detail. |
| `Errors.StatusIdentifiesVariant` | src/error.rs:32-39 | Apart from 500, the status alone tells which variant produced a response. |
| `Errors.DisplayInjective` | src/error.rs:9-23 | Distinct errors have distinct display texts. |
| `Errors.FromLibraryError` | src/error.rs:45-61 | A transport error becomes Upstream carrying its text. A template or JSON error becomes Internal. |
| `Errors.LibraryErrorResponse` | src/error.rs:45-61 | A converted transport error reaches the client as 502 with its text. A template or JSON error reaches it as 500 "internal error". |
| `Middleware.SafeMethodsExempt` | src/middleware.rs:80-85 | A token is required exactly for POST, PUT, PATCH and DELETE, and for no other method. |
| `Middleware.HeaderToken` | src/middleware.rs:40-44 | The header yields a token iff it is present and every byte is a tab or visible ASCII. The token is the header with only whitespace removed around it, and has no whitespace at either end. |
| `Middleware.CsrfProtect` | src/middleware.rs:29-55 | A safe request is forwarded. A state-changing request with no readable session gets 401 "authentication required". With a session, it is forwarded iff the trimmed header equals the session's token, and gets 403 "invalid csrf token" otherwise. No other outcome occurs. |
| `Middleware.CsrfIgnoresHeaderPadding` | src/middleware.rs:40-52 | Spaces and tabs around the header token never change the decision. |
| `Middleware.PaddedSessionTokenAccepted` | src/middleware.rs:40-54 | A state-changing request with a session is let through when its header carries the session's token, padded with any spaces or tabs. |
| `Middleware.SafeRequestUnchecked` | src/middleware.rs:36-38 | A safe request is forwarded whatever its header and session. |
| `Middleware.UnauthenticatedResponse` | src/middleware.rs:66-78 | Both outcomes clear the session cookie with the given `secure` flag. A path starting with `/remove` gets 401 "authentication required"; any other path is redirected to `/auth/login`. |
| `Middleware.RequireAuth` | src/middleware.rs:19-26 | The request is forwarded, with the session attached, iff a session was read. A missing session and a read error both get the unauthenticated response for the request's path. |
| `Middleware.GatesAgreeOnSession` | src/middleware.rs:19-26 | `require_auth` forwards exactly when there is a session for `csrf_protect` to check against, and it attaches that session. |

## Left out

- `src/handlers.rs`: OAuth redirect and token exchange over HTTP, session creation, template rendering and logout are network and cookie glue. `/remove` is a placeholder. The callback's scope check is covered by `Scopes`.
- `src/main.rs`: router wiring, socket binding, and deriving the cookie key with SHA-512. The router attaches neither gate to a route; each gate is modelled on its own.
- `src/github.rs`: HTTP client construction.
- `src/utils.rs`: `AppConfig::from_env` and `require_env` read environment variables; `init_tracing` sets up logging; `random_token` draws random characters. `max_concurrency` is set but never read.
- `src/auth.rs`: session and OAuth-state cookies are read, written and cleared through base64, JSON and an encrypted cookie jar. The outcome of `read_session` is an input field of `Middleware.Request`. Clearing the session cookie is `ClearSession(secure)`. `secure` stands for "the base URL's scheme is https".
- Forwarding to the next handler is `Forward`. Inserting the session into the request's extensions is `Forward(Some(session))`. Response bodies are the message text only, and `Redirect` is axum's 303 redirect.
- JSON deserialisation of the records (including `#[serde(default)]` on the permission flags) is not modelled; `DEFAULT_PERMISSIONS` stands for the default value.
- Text.Trim: removes only ASCII whitespace (space and U+0009 to U+000D), not every Unicode White_Space character. This is exact for the CSRF header, which must be ASCII to be read at all, but not for the `link` header and scope string, which may hold other characters.
- Links.Target: works on characters, not UTF-8 byte offsets. Because `<` and `>` are single bytes, the slice bounds agree with Rust's.
- `Middleware.Method`: an extension method may carry any name except the nine standard ones, which `http::Method` always parses to its standard variants. Lower-case spellings such as `post` are extensions there too; the model does not restrict the name further (for example to HTTP token characters).
- The remaining records of `src/models.rs` (repositories and owners, the per-repository collaborator listing, OAuth and token-exchange payloads, removal requests and results) carry no logic of their own and are not modelled.
