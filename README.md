# hc core in Dafny

`hc` is a local HTTP client with a web front end. A Go server keeps saved
requests and folders in SQLite, sends requests through a proxy, and guards its
API with a same-origin check. This project models that core and proves the
properties its code promises. Nothing here runs.

- **Store** (`storage.dfy`, module `Storage`). The two tables are maps from id
  to row. Each has an AUTOINCREMENT counter, and `CURRENT_TIMESTAMP` is an
  abstract clock. Each SQL statement the store issues is a function on the
  tables. The class `DB` holds the tables as fields, and its methods
  (`CreateFolder` … `DeleteRequest`, `WithTx`) change them by running those
  statements. The listing methods are selection loops: they build the
  `ORDER BY` result one row at a time. The schema declares foreign keys, but
  the connection never enables them. So a delete removes exactly one row, and a
  parent or folder id may name nothing, as the code does.
- **Header encoding** (`header_codec.dfy`, module `HeaderCodec`). Headers are
  stored as a JSON object text, with keys in sorted order (`string_order.dfy`
  gives that order). A decoder reads the text back. The main result is that
  decoding what was encoded gives the same headers back.
- **Proxy** (`proxy.dfy`, module `Proxy`). It covers URL and method
  validation, the outbound header rules (supplied headers set one by one, then
  a Content-Type default), and response-header flattening with `", "`.
  - The class `HttpRequest` stands for the header map that `Header.Set`
    mutates in place.
  - The class `Client` takes the network exchange and `http.NewRequest`'s own
    checks as function-valued fields.
- **Origin guard** (`origin.dfy`, module `Origin`). This is the decision
  `OriginValidator` makes for one request. `url.Parse` is a parameter.
- **Error bodies** (`models.dfy`, module `Models`). These are the records and
  the two `ErrorResponse` constructors.

## Model

| member | source | states |
|---|---|---|
| Models.NewErrorResponse | internal/models/error.go:9-13 | the body carries exactly one message, the one given |
| Models.NewErrorResponseWithMessages | internal/models/error.go:16-20 | the body carries the given messages unchanged: same length, same order |
| Models.SingleIsSpecialCase | internal/models/error.go:9-20 | the single-message body equals the many-message body of a one-element list; an empty list stays empty |
| StringOrder.Antisymmetric | internal/storage/sqlite.go:47 | two names each no greater than the other are equal |
| StringOrder.Transitive | internal/storage/sqlite.go:47 | the name order is transitive |
| StringOrder.Total | internal/storage/sqlite.go:47 | any two names are comparable, so `ORDER BY name` is defined for every table |
| StringOrder.SortedSet | internal/storage/sqlite.go:448 | the keys json.Marshal writes: each key of the map exactly once, strictly ascending |
| HeaderCodec.SerializeHeaders | internal/storage/sqlite.go:443-454 | the text is a brace-delimited object, and it is `{}` exactly when the map is empty (nil included) |
| HeaderCodec.DeserializeHeaders | internal/storage/sqlite.go:457-469 | the empty string decodes to the empty map; text not opening with `{` is an error; every failure carries the one malformed-input error |
| HeaderCodec.ParseEscaped | internal/storage/sqlite.go:464 | a string literal written by the encoder reads back as the same text, leaving what follows untouched |
| HeaderCodec.StoredPointwise | internal/storage/sqlite.go:464 | storing the members of a key list into a map gives every listed key its value and leaves every other key as it was |
| HeaderCodec.ParseMembersOfEncoding | internal/storage/sqlite.go:464 | the member list of any non-empty key sequence parses back to those keys' values (the empty map is the `{}` case of DeserializeHeaders) |
| HeaderCodec.RoundTrip | internal/storage/sqlite.go:443-469 | deserializing the serialized headers gives back exactly the same map |
| HeaderCodec.SerializeInjective | internal/storage/sqlite.go:443-454 | two different header maps are never stored as the same text |
| HeaderCodec.EdgeCases | internal/storage/sqlite.go:443-469 | an empty map is written `{}`; `""` and `{}` decode to the empty map; `{invalid json}` is an error |
| Storage.InsertFolderRow | internal/storage/sqlite.go:45 | the new folder gets the counter plus one, both timestamps now, and the given name and parent; every other row and the request table are unchanged; table validity is kept |
| Storage.UpdateFolderRow | internal/storage/sqlite.go:48 | one row affected exactly when the id exists; that row gets the new name and parent, keeps its id and creation time, and is stamped now; nothing else changes; a missing id leaves the tables as they were |
| Storage.DeleteFolderRow | internal/storage/sqlite.go:49 | the id's row and only it is removed (no cascade); one row affected exactly when it existed; counters unchanged, so ids are not reused |
| Storage.InsertRequestRow | internal/storage/sqlite.go:52 | the new request row gets the counter plus one, the six given columns and both timestamps now; everything else is unchanged |
| Storage.UpdateRequestRow | internal/storage/sqlite.go:55 | one row affected exactly when the id exists; its six columns are rewritten and it is stamped now; its id and creation time are kept; nothing else changes |
| Storage.DeleteRequestRow | internal/storage/sqlite.go:56 | the id's row and only it is removed; one row affected exactly when it existed |
| Storage.RunStmt | internal/storage/sqlite.go:20-56 | every statement keeps the tables valid: rows under their own ids, ids issued by the counter, timestamps ordered and not in the future |
| Storage.RunUnit | internal/storage/sqlite.go:141-159 | a unit of work succeeds exactly when it never gives up; a failure carries the error of its first Abort; success keeps the tables valid |
| Storage.AbortPropagates | internal/storage/sqlite.go:147-152 | once the work reaches an Abort, the transaction's result is that Abort's own error |
| Storage.ReadRequest | internal/storage/sqlite.go:332-336 | a row reads as a request exactly when its headers text decodes, with every other column copied; otherwise the error is "failed to deserialize headers: " and the decoder's error |
| Storage.ReadBackStored | internal/storage/sqlite.go:279-307 | a request stored with its headers encoded reads back as the same request, under its new id and timestamps |
| Storage.DB.constructor | internal/storage/sqlite.go:125-138 | a new database has both tables empty and both counters at zero |
| Storage.DB.CreateFolder | internal/storage/sqlite.go:164-180 | inserts the folder and returns it as re-read: a fresh id above every id in the table, both timestamps now |
| Storage.DB.GetFolder | internal/storage/sqlite.go:183-201 | returns the row exactly when the id exists, and "folder not found" otherwise |
| Storage.DB.GetFolders | internal/storage/sqlite.go:204-232 | lists every folder exactly once, as stored, with names in ascending order |
| Storage.DB.UpdateFolder | internal/storage/sqlite.go:235-253 | the new tables are the UPDATE's; the result is "folder not found" exactly when the id was absent |
| Storage.DB.DeleteFolder | internal/storage/sqlite.go:256-274 | the new tables are the DELETE's; the result is "folder not found" exactly when the id was absent |
| Storage.DB.CreateRequest | internal/storage/sqlite.go:279-307 | inserts the request with its headers encoded and returns the caller's request under a fresh id with both timestamps now, headers included |
| Storage.DB.GetRequest | internal/storage/sqlite.go:310-339 | "request not found" for a missing id; otherwise the row read with its headers decoded, or the decode error |
| Storage.DB.GetRequests | internal/storage/sqlite.go:342-383 | fails exactly when some row's headers do not decode, with the decode error; otherwise lists every request exactly once, decoded, most recently updated first |
| Storage.DB.UpdateRequest | internal/storage/sqlite.go:386-417 | the new tables are the UPDATE's with the headers encoded; the result is "request not found" exactly when the id was absent |
| Storage.DB.DeleteRequest | internal/storage/sqlite.go:420-438 | the new tables are the DELETE's; the result is "request not found" exactly when the id was absent |
| Storage.DB.WithTx | internal/storage/sqlite.go:141-159 | if the work gives up, every change it made is rolled back and its own error is returned; otherwise its changes are kept and the result is success |
| Proxy.ValidateURL | internal/proxy/proxy.go:74-82 | passes exactly when the URL starts with `http://` or `https://`; the empty URL gets "URL is required"; any other failure gets the scheme message |
| Proxy.ValidateURLCases | internal/proxy/proxy.go:74-82 | the scheme test is literal and case-sensitive: `HTTP://…` and `ftp://…` are refused, a bare `http://` passes |
| Proxy.ToUpperIdempotent | internal/proxy/proxy.go:85 | upper-casing twice is upper-casing once |
| Proxy.ValidateMethod | internal/proxy/proxy.go:84-92 | passes exactly when the upper-cased method is one of the seven; a failure names the upper-cased method |
| Proxy.ValidateMethodIgnoresCase | internal/proxy/proxy.go:84-92 | a method and its upper-case form get the same verdict |
| Proxy.ValidateMethodAcceptsLowerCase | internal/proxy/proxy.go:84-92 | the lower-case `get` passes |
| Proxy.ValidateMethodRejectsEmpty | internal/proxy/proxy.go:84-92 | the empty method is refused, and the message names nothing after the prefix |
| Proxy.ValidateMethodRejectsUnknown | internal/proxy/proxy.go:84-92 | the unknown method `INVALID` is refused with "invalid HTTP method: INVALID" |
| Proxy.Join | internal/proxy/proxy.go:97 | no values join to ""; one value joins to itself; a non-empty join starts with the first value |
| Proxy.JoinSnoc | internal/proxy/proxy.go:97 | joining one more value appends the separator and that value |
| Proxy.JoinLossy | internal/proxy/proxy.go:97 | a value containing ", " flattens like two values |
| Proxy.HeaderGet | internal/proxy/proxy.go:33 | the first value under the key, or "" when the key is absent or has no value |
| Proxy.CopyHeaders | internal/proxy/proxy.go:94-100 | the result is exactly `Flatten(src)`: one entry per source key, holding its values joined by ", "; a single-valued header comes through unchanged |
| Proxy.OutboundHeader | internal/proxy/proxy.go:30-35 | each supplied header is set as a single value; with a body and no non-empty Content-Type, Content-Type becomes application/json; a supplied non-empty one is kept |
| Proxy.OutboundHeaderAddsOnlyContentType | internal/proxy/proxy.go:30-35 | without a body the outbound header is exactly the supplied one; Content-Type is the only key ever added, and only with a body |
| Proxy.RequestMethod | internal/proxy/proxy.go:26 | the method `http.NewRequest` records is never empty: an empty method becomes GET, any other is kept |
| Proxy.ValidatedMethodKept | internal/proxy/proxy.go:26 | a method that passed ValidateMethod is recorded unchanged, so the default never applies to it |
| Proxy.HttpRequest.constructor | internal/proxy/proxy.go:26 | the new request has the given URL and body, an empty header, and the given method, or GET when the method is empty |
| Proxy.HttpRequest.Set | internal/proxy/proxy.go:31 | the key now holds just the one value; nothing else changes |
| Proxy.SetHeaders | internal/proxy/proxy.go:102-106 | the request's header is its old header with every supplied key replaced by its single value; method, URL and body are untouched |
| Proxy.Client.constructor | internal/proxy/proxy.go:17-23 | the client's timeout is 30 seconds |
| Proxy.Client.ExecuteRequest | internal/proxy/proxy.go:25-56 | a request-building error is returned as it is; otherwise the outbound request carries the method (GET when empty), URL, body and prepared header; the answer's headers are flattened |
| Proxy.Client.ProxyRequest | internal/proxy/proxy.go:65-72 | forwards exactly the proxy call's method, URL, headers and body |
| Origin.IsAPIRoute | internal/middleware/origin.go:65-68 | true exactly for `/api` and paths starting with `/api/` |
| Origin.IsAPIRouteCases | internal/middleware/origin.go:65-68 | `/api`, `/api/` and `/api/requests` are API routes; `/apifoo`, `/`, `/index.html` and `""` are not |
| Origin.NatDecimal | internal/middleware/origin.go:73-75 | `%d` of a non-negative number: all digits, at least one, with a leading zero only for zero |
| Origin.Decimal | internal/middleware/origin.go:73-75 | `%d` of any int is non-empty and starts with a minus sign exactly when the number is negative |
| Origin.NatDecimalInjective | internal/middleware/origin.go:73-75 | different non-negative numbers are written differently |
| Origin.DecimalInjective | internal/middleware/origin.go:73-75 | different ports are written differently |
| Origin.NatDecimalDenotes | internal/middleware/origin.go:73-75 | the digits written for a non-negative number spell that number |
| Origin.DecimalDenotes | internal/middleware/origin.go:73-75 | the text written for any int, read back as an optional minus sign and digits, is that int |
| Origin.Decimal8080 | internal/middleware/origin.go:73 | port 8080 is written `8080` |
| Origin.IsAllowedOrigin | internal/middleware/origin.go:71-85 | allowed exactly when the origin is `http://localhost:`, `http://127.0.0.1:` or `http://[::1]:` followed by the port |
| Origin.AllowedIsPlainHttp | internal/middleware/origin.go:72-76 | every allowed origin is plain http (never https) and ends with `:` followed by the port's digits |
| Origin.AllowedOriginDeterminesPort | internal/middleware/origin.go:71-85 | an origin is allowed for at most one port |
| Origin.RejectsEmptyAndPortless | internal/middleware/origin.go:71-85 | the empty origin and `http://localhost` without a port are never allowed |
| Origin.AllowedOn8080 | internal/middleware/origin.go:71-85 | on port 8080 the localhost, 127.0.0.1 and [::1] origins are allowed |
| Origin.RefusedOn8080 | internal/middleware/origin.go:71-85 | on port 8080, https, another port and a foreign host are refused |
| Origin.EffectiveOrigin | internal/middleware/origin.go:26-37 | the Origin header if present; otherwise `scheme://host` of a Referer that parses; otherwise none |
| Origin.ParsedRefererClaimsOrigin | internal/middleware/origin.go:31-35 | a Referer that parses always claims an origin, even with no scheme or host |
| Origin.OriginValidator | internal/middleware/origin.go:16-62 | non-API paths pass; an API request is refused exactly when it claims an origin that is not allowed, and the refusal is 403 with "Forbidden: Invalid origin" |
| Origin.PassedRequestsAreLocal | internal/middleware/origin.go:41-59 | an API request let through claims no origin or a plain-http one |
| Origin.HttpsOriginDenied | internal/middleware/origin.go:51-57 | an https Origin on an API route is always refused |
| Origin.SchemelessRefererDenied | internal/middleware/origin.go:29-57 | with no Origin, a Referer parsing to neither scheme nor host is refused, while no Referer at all passes |
| Origin.OriginValidatorOriginCases | internal/middleware/origin.go:21-59 | on port 8080, a local Origin passes, `http://evil.com` gets the 403 body, and a non-API path passes whatever its Origin |
| Origin.LocalRefererOrigin | internal/middleware/origin.go:32-34 | a Referer of the local page claims the first allowed origin |
| Origin.OriginValidatorRefererCases | internal/middleware/origin.go:29-48 | with no Origin, a local Referer passes, and a request with neither header passes |

## Left out

- Network, time and I/O:
  - `http.Client.Do`, the body read, the 30-second timeout's effect and
    `time.Since` are the `send` parameter of `Proxy.Client`.
  - `http.NewRequest`'s own checks of method and URL are the
    `newRequestError` parameter.
  - `ReadBodyAsString` (proxy.go:108-118) is pure I/O on a reader and is not
    modelled.
- Database setup: `InitDB`, `getDBPath` and `createTables` open files and
  directories. They are not modelled beyond the empty database that
  `Storage.DB.constructor` builds.
- Engine failures: SQLite errors on Exec, Query, Scan, BeginTx, Commit,
  Rollback, LastInsertId and RowsAffected, and the logging around them, are
  not modelled. Every statement succeeds in the model.
- Storage.DB.WithTx: the unit of work is a sequence of store statements,
  each of which may instead give up with an error, not arbitrary Go code
  running on the transaction. A rollback failure is only logged in the source
  and is not modelled.
- Storage.DB.GetFolders: the engine's `ORDER BY` followed by appending rows is
  modelled as one loop that picks the least remaining row each time. Rows with
  equal keys may come in any order, as SQLite does not fix their order.
- Storage.DB.GetRequests: the decode error text is the model decoder's one
  malformed-input message, not `encoding/json`'s exact wording.
- HeaderCodec.SerializeHeaders: escapes only `"` and `\`. `json.Marshal`
  also writes `\n`, `\r` and `\t`, `\u` escapes for the other control
  characters, for `<`, `>` and `&`, and for U+2028 and U+2029, and it replaces
  invalid UTF-8. None of that is modelled. So a value holding a control
  character is written as text that is not JSON, though the model's own
  decoder still reads it back.
- HeaderCodec.DeserializeHeaders: reads only the encoder's own syntax. Other
  JSON (whitespace, other escapes, `null`, which `json.Unmarshal` accepts as a
  nil map) is reported as malformed.
- Integer widths: ids are Go `int` and SQLite 64-bit integers. The model's ids
  and counters are unbounded, so overflow of the AUTOINCREMENT counter is not
  modelled.
- Timestamps are a natural-number clock with one tick per second or more.
  `time.Time` values, time zones and formatting are not modelled.
- Proxy.ValidateMethod: upper-cases ASCII letters only. `strings.ToUpper`'s
  Unicode case mapping is not modelled.
- Proxy.OutboundHeader: keys are compared as given. With a body, a supplied
  `content-type` key gets a second key `Content-Type: application/json` in
  the model. Go canonicalises the supplied key, so `Header.Get` finds it and
  nothing is added.
- Proxy.SetHeaders: header keys are used as given. `Header.Set`'s
  canonicalisation of key spelling (`content-type` becomes `Content-Type`) is
  not modelled, nor is the random order in which Go iterates a map when two
  keys canonicalise alike.
- Proxy.Client.ExecuteRequest: the response duration is whatever the
  transport reports. Go's distinction between a nil and an empty header map
  is not modelled.
- Origin.OriginValidator: `url.Parse` is a parameter, so which Referer texts
  parse is not modelled. The warning and error logging is left out.
- Models.NewErrorResponseWithMessages: Go keeps a nil slice apart from an
  empty one, and a nil list of messages marshals as `null`, not `[]`. The
  model has one empty sequence for both.
- `Response.Duration` is an `int64` of milliseconds in the source. Its width
  is not modelled.
