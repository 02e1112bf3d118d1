# baton-percipio: a verified model of the connector's paging and report engine

baton-percipio is a connector that syncs users and courses from the Percipio
learning platform. This project models in Dafny the part of it that has real
state and real failure modes:

- **The two token codecs (`Pagination`, `Users`).** The user listing pages
  by offset until `offset+limit` reaches the total. Content discovery pages
  under a server-issued paging request id until the next offset passes the
  final offset.
- **The `Link` header parser (`LinkHeader`).** It finds the `rel="last"`
  target (RFC 8288, section 3) and reads its `offset` query parameter.
- **The client (`Percipio`).** This covers the `x-total-count` header, the
  `GetCourses` query and final-offset rule, and the report poller. The poller
  classifies each trimmed response body as retry, payload or failure, within a
  bounded number of attempts. It also covers the report lifecycle kept in
  `Client.ReportStatus`.
- **The report cache (`ReportCache`).** `StatusesStore` maps content id to
  user id to normalised status. `Load` fills it in place and `Get` reads it.
- **The course builder (`Courses`).** This covers the three entitlements of a
  course and `Grants`. `Grants` requests, polls for and caches the report at
  most once per client, then grants each cached status to its user.

The libraries these functions rely on are modelled as far as the connector
depends on them:

| Go function | Dafny module | What is modelled exactly |
|---|---|---|
| `strconv.Atoi` | `Decimal` | syntax and 64-bit range |
| `strconv.Itoa` | `Decimal` | all of it |
| `int` addition | `GoInt` | 64-bit wrap-around |
| `unicode/utf8` | `Utf8` | `DecodeRune` and `EncodeRune`, including U+FFFD for every byte outside a well-formed sequence |
| `encoding/json` | `Json` | a JSON parser, Go's rules for decoding into a struct, and `json.Marshal` for flat structs, including its HTML escaping |
| `net/url` | `Url` | the parts of `url.Parse`, `ParseQuery` and `Values.Get` that decide a link target's offset, and the port and bracket checks on the authority |

The network is an input. It is modelled as:
- a header map for a page response;
- the decoded answer to the report request;
- one outcome per poll request: send failed, read failed, or body bytes.

`Client` and `StatusesStore` are classes whose methods update their fields.
`Load`, `PollLearningActivityReport` and `CollectGrants` are loops with
invariants. Everything else is functions and lemmas.

## Model

| member | source | states |
|---|---|---|
| GoInt.Add | pkg/connector/client/pagination.go:94 | Go's `offset + limit` on `int`: the exact sum when it fits in 64 bits, otherwise the sum wrapped by 2^64 |
| Decimal.Itoa | pkg/connector/users.go:122 | strconv.Itoa: a `-` for negatives, then the shortest digit string whose value is the magnitude |
| Decimal.Atoi | pkg/connector/users.go:107 | strconv.Atoi succeeds exactly on `[+-]?[0-9]+` with a value in 64-bit range and returns that value; text that is not of that form is a syntax error |
| Decimal.AtoiItoa | pkg/connector/users.go:107-122 | Atoi(Itoa(n)) == n for every 64-bit n |
| Decimal.AtoiEmpty | pkg/connector/client/percipio.go:80-81 | Atoi("") is a syntax error, which is why a missing header fails |
| Utf8.DecodeRune | pkg/connector/client/percipio.go:244 | the rune json.Unmarshal reads at a byte position: an ASCII byte is that character, one byte long; any other start gives a non-ASCII rune; one to four bytes are consumed |
| Utf8.Decode | pkg/connector/client/percipio.go:244 | the text of a byte sequence has at most one character per byte, and its first character is the first rune read |
| Utf8.EncodeRune | pkg/connector/client/pagination.go:111 | one to four bytes, a single byte exactly for an ASCII character |
| Utf8.Encode | pkg/connector/client/pagination.go:111 | at least one byte per character |
| Utf8.DecodeEncodeRune | pkg/connector/client/percipio.go:244 | every encoded rune, followed by anything, is read back as itself with its own length |
| Utf8.DecodeEncode | pkg/connector/client/percipio.go:244 | decoding the UTF-8 encoding of any text gives the text back |
| Utf8.DecodeAscii | pkg/connector/client/percipio.go:244 | ASCII bytes decode one character each, to the character with the same code |
| Utf8.StrayByte | pkg/connector/client/percipio.go:244 | a continuation byte or an invalid leading byte becomes one U+FFFD and decoding resumes at the next byte |
| Json.Parse | pkg/connector/client/percipio.go:244 | blank text, text whose first non-space character is `}`, `]`, `:` or `,`, and text that opens arrays or objects more than 10000 deep (outside string literals) is not JSON |
| Json.OpenRunTooDeep | pkg/connector/client/percipio.go:244 | a run of `[` longer than the depth still allowed makes the text too deep, whatever follows |
| Json.NestedMemberRefused | pkg/connector/client/percipio.go:244 | an object whose second member opens 10000 arrays is not JSON, whatever its keys, its first value and its tail |
| Json.ObjectMembers | pkg/connector/client/percipio.go:244 | json.Unmarshal into a struct reports a syntax error exactly when the text is not JSON |
| Json.SerializeObject | pkg/connector/client/pagination.go:111 | json.Marshal of a flat struct is an object text starting with `{` |
| Json.SerializedShallow | pkg/connector/client/pagination.go:182-186 | json.Marshal's output for any flat struct of ints and strings opens one object and is never too deep, however its strings are escaped |
| Json.ParseSerialized | pkg/connector/client/pagination.go:182-186 | parsing json.Marshal's output of any fields of ints and strings (any string, escaped as Go escapes it) gives back exactly those members in order |
| Json.ObjectMembersSerialized | pkg/connector/client/pagination.go:143 | decoding json.Marshal's output into a struct sees exactly the struct's fields |
| Json.IntField | pkg/connector/client/pagination.go:66-76 | an int field no member names keeps its initial value; the only error is a wrong type for that field; a changed value comes from a number member whose key matches |
| Json.StringField | pkg/connector/client/percipio.go:243-250 | a string field no member names keeps its initial value; the only error is a wrong type for that field; a changed value is the string of a member whose key matches |
| Json.LongSFolds | pkg/connector/client/percipio.go:244 | the key "ſtatus" (long s) addresses the field `status`, as Go's case folding makes it |
| Json.EscapeUnescaped | pkg/connector/client/pagination.go:111 | a string without quotes, backslashes or characters Go escapes is written as itself |
| Json.OneFieldText | pkg/connector/client/pagination.go:111 | json.Marshal of a one-field struct is `{"name":value}` |
| Json.ThreeFieldsText | pkg/connector/client/pagination.go:186 | json.Marshal of a three-field struct is the three members, comma-separated, in field order, in braces |
| Json.FieldPresent | pkg/connector/client/pagination.go:151-153 | a field named by exactly one member (case-insensitive key match) decodes to that member's value |
| Json.FieldsAbsent | pkg/connector/client/pagination.go:151-153 | a field no member names keeps its initial value |
| Url.Parse | pkg/connector/client/pagination.go:225 | url.Parse rejects control characters before the fragment, and a successful parse is the reference parse of the text before `#` (which rejects a leading `:`) |
| Url.GetScheme | pkg/connector/client/pagination.go:225 | getScheme fails exactly on a leading `:`; a scheme found starts with a letter and is the text before the first `:`; without one the whole text is the rest |
| Url.HostError | pkg/connector/client/percipio.go:60-63 | a host starting `[` is "missing ]" exactly when it has no `]`; a host without `[` or `:` is judged by host-mode unescaping alone; the only errors are a missing `]`, a bad port, a bad escape and a character a host may not hold |
| Url.UnescapeHostError | pkg/connector/client/percipio.go:60-63 | a host (or zone) that passes has only well-formed escapes; a failing one is a bad escape or a character a host may not hold |
| Url.ZoneIndex | pkg/connector/client/percipio.go:60-63 | the first `%25` at or after a position, and -1 only when there is none |
| Url.LiteralHostPasses | pkg/connector/client/percipio.go:60-63 | text made only of characters a host may hold, with no `%`, passes unescaping in host and zone mode |
| Url.HostCharRefused | pkg/connector/client/percipio.go:60-63 | the first ASCII character a host may not hold (a space, `{`, `^`, ...) makes unescaping fail as an invalid host |
| Url.AsciiEscapeRefused | pkg/connector/client/percipio.go:60-63 | in a host, an escape of an ASCII byte other than `%25` is a bad escape |
| Url.HostWithPort | pkg/connector/client/percipio.go:60-63 | a host `name:digits`, whose name holds only characters a host may hold and no `:` or leading `[`, passes the host check |
| Url.AuthorityError | pkg/connector/client/percipio.go:60-63 | an authority without `@` is judged as a host; "invalid userinfo" only when there is an `@` |
| Url.UserinfoRefused | pkg/connector/client/percipio.go:60-63 | `user@host` with a valid host and a character validUserinfo refuses in the user part is "invalid userinfo" |
| Url.AuthorityRefusedWithQuery | pkg/connector/client/pagination.go:225-229 | `scheme://authority/path?query` with a failing authority is rejected with that authority's error |
| Url.AsciiEscapeHostRefused | pkg/connector/client/percipio.go:60-63 | the base URL `http://%XX/` with XX an ASCII byte other than 25 is rejected as a bad escape |
| Url.AsciiEscapeHostRejected | pkg/connector/client/percipio.go:60-63 | the base URL `http://%41/` is rejected as a bad escape, so `New` fails on it |
| Url.BadCharHostRefused | pkg/connector/client/pagination.go:225-229 | a target `http://a` + c + `b/p?offset=5`, where c is an ASCII character a host may not hold, is rejected as an invalid host |
| Url.SpacedHostRejected | pkg/connector/client/pagination.go:225-229 | the target `http://a b/p?offset=5` is rejected as an invalid host |
| Url.HostWithBadPort | pkg/connector/client/percipio.go:60-63 | a host `name:port` whose port has a non-digit is an invalid port |
| Url.AuthorityRefused | pkg/connector/client/percipio.go:60-63 | `scheme://authority/path` with a failing authority is rejected with that authority's error |
| Url.PortRefused | pkg/connector/client/percipio.go:60-63 | `scheme://name:port/path` with a non-digit in the port is rejected as an invalid port |
| Url.LetterPortRejected | pkg/connector/client/percipio.go:60-63 | the base URL `http://a:b/` is rejected as an invalid port, so `New` fails on it |
| Url.QueryUnescape | pkg/connector/client/pagination.go:231 | unescaping succeeds exactly when every `%` starts a two-hex-digit escape; the result is never longer than the text, and as long when there is no `%` |
| Url.ParseQuery | pkg/connector/client/pagination.go:231 | no more pairs than characters; a single part holding `;` yields no pair |
| Url.Get | pkg/connector/client/pagination.go:231 | "" when no pair has the key; a non-empty value is the value of a pair with that key |
| Url.ParseAbsolutePath | pkg/connector/client/pagination.go:225-231 | a target `/path?query`, with a path free of `%`, `?`, `#` and control characters, parses with that raw query |
| Url.GetFound | pkg/connector/client/pagination.go:231 | a non-empty `Get(key)` is the value of some pair with that key |
| Url.LeadingPair | pkg/connector/client/pagination.go:231 | a query `k=v&rest` with plain k and v parses to the pair (k, v) followed by the pairs of rest |
| Url.UnescapePlain | pkg/connector/client/pagination.go:231 | query unescaping leaves text without `%` and `+` unchanged |
| Pagination.EncodeUserPagination | pkg/connector/client/pagination.go:21-23 | the user token is json.Marshal of `{offset}` |
| Pagination.DecodeUserPagination | pkg/connector/client/pagination.go:66-76 | text that is not JSON is a syntax error; `null` gives offset 0 |
| Pagination.UserPaginationRoundTrip | pkg/connector/client/pagination.go:68-111 | decoding an encoded UserPagination gives it back, for every offset |
| Pagination.UserPaginationText | pkg/connector/client/pagination.go:105-111 | the user token is exactly `{"offset":` then the decimal offset then `}` |
| Pagination.EncodeContentPagination | pkg/connector/client/pagination.go:30-34 | the content token is json.Marshal of `{offset, pagingRequestId, finalOffset}` in that field order |
| Pagination.ContentPaginationText | pkg/connector/client/pagination.go:182-186 | the content token is exactly `{"offset":o,"pagingRequestId":"id","finalOffset":f}`, with the id quoted and escaped as Go escapes it |
| Pagination.DecodeContentPagination | pkg/connector/client/pagination.go:141-153 | text that is not JSON is a syntax error; `null` gives `(0, "", 0)` |
| Pagination.ContentFieldsDecode | pkg/connector/client/pagination.go:151-153 | each field of an encoded ContentPagination decodes to its own value |
| Pagination.ContentPaginationRoundTrip | pkg/connector/client/pagination.go:143-186 | decoding an encoded ContentPagination gives it back, for every offset, final offset and paging id that is a Unicode text |
| Pagination.ParseUserPaginationToken | pkg/connector/client/pagination.go:41-85 | a nil token gives (0, 1000); the limit is Size when Size > 0 and 1000 otherwise, and never comes from the text; an empty text gives offset 0; malformed JSON gives (0, 0, err); otherwise the offset is the decoded one |
| Pagination.GetUserNextToken | pkg/connector/client/pagination.go:92-126 | "" exactly when the wrapped offset+limit >= total; otherwise a token that decodes to offset+limit |
| Pagination.UserTokenRoundTrip | pkg/connector/client/pagination.go:76-111 | for limit > 0, parsing a non-empty next token with Size = limit gives (offset+limit, limit, nil) |
| Pagination.UserTokenMalformed | pkg/connector/client/pagination.go:66-75 | a token that is not JSON gives (0, 0, syntax error) |
| Pagination.ParseContentPaginationToken | pkg/connector/client/pagination.go:133-163 | a nil or empty token gives (0, "", 0, nil); malformed JSON gives (0, "", 0, err); otherwise the three decoded fields |
| Pagination.GetContentNextToken | pkg/connector/client/pagination.go:170-200 | "" exactly when the wrapped offset+limit > finalOffset, so it is non-empty when the next offset equals finalOffset; otherwise a token that decodes to (offset+limit, id, finalOffset) |
| Pagination.ContentTokenRoundTrip | pkg/connector/client/pagination.go:151-186 | parsing a non-empty next content token carries the paging id (a Unicode text) and final offset unchanged, with offset+limit |
| Pagination.ContentTokenPastTopWraps | pkg/connector/client/pagination.go:170-200 | when offset+limit passes MaxInt64 the next offset wraps negative, so a token is still written, for any non-negative final offset, and it parses as that negative offset |
| Pagination.ContentTokenMalformed | pkg/connector/client/pagination.go:149 | a token that is not JSON gives (0, "", 0, syntax error) |
| Pagination.ContentPages | pkg/connector/client/pagination.go:170-200 | a content sweep starts at the given offset, and every page lies between it and finalOffset |
| Pagination.ContentPagesStep | pkg/connector/client/pagination.go:172-180 | in a content sweep consecutive pages are one limit apart; every page but the last is followed by one no later than finalOffset; the last is within one page of it |
| Pagination.NextPageToken | pkg/connector/client/pagination.go:172-186 | the token after a page that has a successor reads back as that successor |
| Pagination.NoTokenPastFinal | pkg/connector/client/pagination.go:174-179 | once the next offset passes finalOffset no token is written |
| Pagination.ContentPagesFollowTokens | pkg/connector/client/pagination.go:133-200 | the sweep the tokens drive: after every page but the last, the token parses as the next page under the same id and final offset |
| Pagination.ContentPagesEnd | pkg/connector/client/pagination.go:174 | after the last page of the sweep no token is written |
| Pagination.ContentPagesCover | pkg/connector/client/pagination.go:172-180 | page i starts at offset + i*limit, and the last page starts in (finalOffset-limit, finalOffset] |
| Pagination.ContentPagesReachFinal | pkg/connector/client/pagination.go:174 | a final offset on a page boundary is itself fetched, as the last page |
| LinkHeader.CloseAt | pkg/connector/client/pagination.go:214 | the first `>` at or after a position, or none |
| LinkHeader.MatchAtIff | pkg/connector/client/pagination.go:214-215 | the scan matches at a position exactly when the pattern `<([^>]+)>;\s*[^,]*rel="last"` does, and the capture is the bracketed text |
| LinkHeader.RelLastFromIff | pkg/connector/client/pagination.go:214 | the scan for `rel="last"` before any comma agrees with the pattern's `\s*[^,]*rel="last"` |
| LinkHeader.FindLeftmost | pkg/connector/client/pagination.go:215 | the leftmost match wins |
| LinkHeader.FindNone | pkg/connector/client/pagination.go:217-219 | with no match anywhere nothing is found |
| LinkHeader.FindSound | pkg/connector/client/pagination.go:215-222 | whatever is found is the capture of a match |
| LinkHeader.OffsetValue | pkg/connector/client/pagination.go:231-241 | a missing offset is an error; otherwise success exactly when Atoi succeeds, with its value, and Atoi's error otherwise |
| LinkHeader.TargetOffset | pkg/connector/client/pagination.go:225-229 | a target url.Parse rejects is an error carrying url.Parse's error |
| LinkHeader.ParseLinkHeader | pkg/connector/client/pagination.go:207-250 | "no rel=last" exactly when the pattern matches nowhere |
| LinkHeader.LinkHeaderTarget | pkg/connector/client/pagination.go:214-237 | the header's value is the offset of the leftmost matching link's target |
| LinkHeader.LinkHeaderNoLast | pkg/connector/client/pagination.go:217-219 | without a `rel="last"` link the header is an error |
| LinkHeader.QueryOffset | pkg/connector/client/pagination.go:231 | a query starting `offset=v&` gives v |
| LinkHeader.TargetWithOffset | pkg/connector/client/pagination.go:225-241 | a target `/path?offset=v&...` yields Atoi(v) |
| LinkHeader.SpacedHostTarget | pkg/connector/client/pagination.go:225-229 | the rel=last target `http://a b/p?offset=5` yields url.Parse's invalid-host error, not an offset |
| LinkHeader.TargetWithoutOffset | pkg/connector/client/pagination.go:232-235 | a target whose query has no offset is an error |
| LinkHeader.SingleLink | pkg/connector/client/pagination.go:214-222 | a header that opens with a `rel="last"` link yields that link's target |
| LinkHeader.LastLinkOffset | pkg/connector/client/pagination.go:207-250 | a `rel="last"` link to `/path?offset=v&...` yields v as a decimal |
| LinkHeader.NoRelLastBeforeComma | pkg/connector/client/pagination.go:214 | parameters that do not hold `rel="last"` and end at a comma never contain a `rel="last"` |
| LinkHeader.NoMatchBeforeComma | pkg/connector/client/pagination.go:214 | a link whose parameters end at a comma without `rel="last"` is not a match: `[^,]*` cannot cross the comma |
| LinkHeader.LinkAtSuffix | pkg/connector/client/pagination.go:214 | a `rel="last"` link after any text matches where it starts and captures its target |
| LinkHeader.LinkAfterFirst | pkg/connector/client/pagination.go:214-222 | in a `rel="first"` link, a comma, then a `rel="last"` link (the fixture's shape), the second link's target is the one read |
| LinkHeader.LastLinkAfterFirst | test/testHelpers.go:63-66 | the fixture's shape with last target `/path?offset=v&...` yields v; for the fixture header, v = 2000 |
| Percipio.GetTotalCount | pkg/connector/client/percipio.go:79-82 | Atoi of the first `x-total-count` value: a missing header is a syntax error, and any well-formed 64-bit decimal is accepted (no ceiling) |
| Percipio.TotalCountRoundTrip | pkg/connector/client/percipio.go:79-82 | a header holding Itoa(n) gives n (for example "150" gives 150) |
| Percipio.TotalCountMissing | pkg/connector/client/percipio.go:80-81 | a response without the header fails |
| Percipio.CoursesQuery | pkg/connector/client/percipio.go:132-140 | the query always has max=limit and offset, and has pagingRequestId exactly when the incoming id is non-empty |
| Percipio.GetCourses | pkg/connector/client/percipio.go:142-166 | a transport error is returned as is; the new id is the `x-paging-request-id` header; the final offset is 0 unless this is a first call with a link header; only a link-parse failure fails an answered call |
| Percipio.FirstPageFinalOffset | pkg/connector/client/percipio.go:151-160 | on a first call with a link header, the call succeeds exactly when the header parses, and the final offset is its value |
| Percipio.FirstPageLastLink | pkg/connector/client/percipio.go:151-160 | a first page whose `rel="last"` link points at `/path?offset=v&...` ends the listing at Atoi(v), and fails when v is not a number |
| Percipio.TrimStart | pkg/connector/client/percipio.go:229 | the count of leading white-space bytes |
| Percipio.TrimEnd | pkg/connector/client/percipio.go:229 | the length without trailing white space |
| Percipio.TrimSpace | pkg/connector/client/percipio.go:229 | empty exactly for all-white-space bodies; otherwise the body between its first and last non-space bytes |
| Percipio.HeaderGet | pkg/connector/client/percipio.go:80 | a header that is missing, or has no value, reads as ""; a non-empty result is one of the header's values |
| Percipio.DecodeReportStatus | pkg/connector/client/percipio.go:243-250 | text that is not JSON is an unmarshal error |
| Percipio.Classify | pkg/connector/client/percipio.go:228-268 | a payload exactly when the trimmed body starts with `[`, and it is the trimmed body; a retry exactly when the body is blank or is a `{` status object whose UTF-8 text decodes with status PENDING or IN_PROGRESS; a `{` body that does not decode is a bad status object carrying the decode error, and one whose status is neither is "generation failed" with that status; any other first byte is "unexpected format"; never "timed out" |
| Percipio.NeverTimedOut | pkg/connector/client/percipio.go:205-268 | no single answer makes the poll time out |
| Percipio.Outcomes | pkg/connector/client/percipio.go:205-268 | one outcome per allowed request, in order |
| Percipio.DecidedAt | pkg/connector/client/percipio.go:205-268 | the first outcome that does not retry decides the poll |
| Percipio.TimesOut | pkg/connector/client/percipio.go:271 | the outcomes time out exactly when all of them retry |
| Percipio.DecideFromOutcome | pkg/connector/client/percipio.go:205-268 | whatever the poll returns, other than a time-out, is one request's outcome |
| Percipio.PollTimesOut | pkg/connector/client/percipio.go:205-271 | "report polling timed out" exactly when the URL is valid (or no request is allowed) and every allowed request retries |
| Percipio.PollPayload | pkg/connector/client/percipio.go:237-239 | a report only ever comes from an answered request and is its trimmed body, non-empty and starting with `[` |
| Percipio.PollDecidedAt | pkg/connector/client/percipio.go:205-268 | with a valid URL the poll returns the outcome of the first request that does not retry |
| Percipio.StatusObjectDecodes | pkg/connector/client/percipio.go:243-244 | a marshalled `{id, status}` object decodes back to that id and status with an empty error |
| Percipio.StatusKeyDecodes | pkg/connector/client/percipio.go:243-250 | an object with one member whose key folds onto `status` decodes to that status, with empty id and error |
| Percipio.StatusKeyBody | pkg/connector/client/percipio.go:242-264 | such a body retries when the status is PENDING or IN_PROGRESS and otherwise fails with that status |
| Percipio.DeepStatusBodyFails | pkg/connector/client/percipio.go:242-250 | a status object nested past 10000 levels fails to decode, so the poll stops with a status-object error even when the status is PENDING |
| Percipio.LongSStatusRetries | pkg/connector/client/percipio.go:242-258 | the UTF-8 body `{"ſtatus":"PENDING"}` retries, as json.Unmarshal matches the key to `status` |
| Percipio.AttemptOutcome | pkg/connector/client/percipio.go:214-268 | a send failure and only a send failure is a transport failure; a read failure and only a read failure is a read failure; a read body is classified |
| Percipio.Poll | pkg/connector/client/percipio.go:201-272 | no allowed request times out at once; a report is only returned for a URL that parses |
| Percipio.ReportUrl | pkg/connector/client/percipio.go:284 | the report URL starts with the base URL, ends with the report id, and its length is theirs plus the organization id and the two fixed path parts |
| Percipio.StatusBody | pkg/connector/client/percipio.go:242-264 | a body holding a status object retries when the status is PENDING or IN_PROGRESS, and otherwise fails with "report generation failed with status" and that status |
| Percipio.RunningThenReport | pkg/connector/client/percipio.go:205-271 | running status objects (such as PENDING then IN_PROGRESS) followed by an array: the poll returns the array |
| Percipio.Client.constructor | pkg/connector/client/percipio.go:70-76 | a new client has an empty report status and an empty cache |
| Percipio.Client.New | pkg/connector/client/percipio.go:43-77 | fails exactly when the base URL does not parse (control characters, a bad scheme, a missing `]`, a non-numeric port, a bad escape, an escape of an ASCII byte or a character a host may not hold in the host, bad user information), with url.Parse's error; otherwise a fresh client in the initial state |
| Percipio.Client.GenerateLearningActivityReport | pkg/connector/client/percipio.go:170-199 | the report status is replaced by the server's answer on success and untouched on error |
| Percipio.Client.PollAttempt | pkg/connector/client/percipio.go:214-268 | one request decides exactly the outcome its answer classifies to: a send or read failure fails, and it retries exactly when the answer was read and its body is blank or a still-running status object |
| Percipio.Client.PollLearningActivityReport | pkg/connector/client/percipio.go:201-272 | the loop returns exactly what `Percipio.Poll` decides, sends at most the maximum number of requests, every request before the last one sent retried, and a time-out means every allowed request was sent |
| Percipio.Client.GetLearningActivityReport | pkg/connector/client/percipio.go:274-305 | only when polling and decoding both succeed is the status set to COMPLETED and the report loaded into the cache; otherwise status and cache are untouched and the error is the poll's, or "undecodable" |
| ReportCache.ToStatus | pkg/connector/client/reportCache.go:47-56 | "Started" maps to in_progress and "Completed" to completed, each exactly; everything else maps to unknown; the result is always one of the three |
| ReportCache.StatusesStore.constructor | pkg/connector/client/percipio.go:71 | the cache starts empty |
| ReportCache.StatusesStore.Load | pkg/connector/client/reportCache.go:15-27 | the store afterwards is the old store with every row applied in order, and Load returns nil |
| ReportCache.StatusesStore.Get | pkg/connector/client/reportCache.go:34-40 | the inner map for a present course id and nil for an absent one, reading only |
| ReportCache.Loaded | pkg/connector/client/reportCache.go:16-24 | loading a report never drops a content id already in the store |
| ReportCache.LoadedKeys | pkg/connector/client/reportCache.go:16-24 | the outer keys afterwards are the old keys together with every content id of the report |
| ReportCache.RowUsersSnoc | pkg/connector/client/reportCache.go:16-24 | the users a report lists under a content id, one row at a time |
| ReportCache.AbsentHasNoRows | pkg/connector/client/reportCache.go:16-24 | a content id missing after loading was missing before and has no row |
| ReportCache.LoadedUsers | pkg/connector/client/reportCache.go:17-23 | the users under a content id afterwards are the old ones together with those of its rows |
| ReportCache.UsersStep | pkg/connector/client/reportCache.go:17-19 | the inner map found for a row (or the new empty one) holds exactly those users |
| ReportCache.LoadedLast | pkg/connector/client/reportCache.go:22 | a pair's status is toStatus of the last row that names the pair; later rows overwrite earlier ones |
| ReportCache.LoadedUnmentioned | pkg/connector/client/reportCache.go:16-24 | a pair no row names keeps what it had, present or absent: Load merges rather than replaces |
| ReportCache.LoadedNormalised | pkg/connector/client/reportCache.go:22 | loading keeps every stored status one of in_progress, completed or unknown; from the empty store this holds of every value |
| ReportCache.LoadedConcat | pkg/connector/client/reportCache.go:16-24 | loading two reports is loading their concatenation |
| Users.GetDisplayName | pkg/connector/users.go:30-48 | "First Last" with both names, the one name with one, else the email, else the id, else "<no name>"; never empty |
| Users.UserStatusOf | pkg/connector/users.go:70-73 | enabled exactly when IsActive, disabled exactly when not |
| Users.ParsePaginationToken | pkg/connector/users.go:97-115 | a nil token gives (0, 1000); Size > 0 overrides the limit; a non-empty token is Atoi'd as the offset; a non-numeric one gives (0, 0, err) |
| Users.GetNextToken | pkg/connector/users.go:117-123 | "" exactly when the wrapped offset+limit >= total; otherwise a decimal string Atoi reads as offset+limit |
| Users.NextTokenRoundTrip | pkg/connector/users.go:107-122 | parsing a non-empty next token with Size = limit gives (offset+limit, limit, nil) |
| Users.TokenPastTopWraps | pkg/connector/users.go:117-123 | when offset+limit passes MaxInt64 the next offset wraps negative, so a token is still written, for any non-negative total, and it parses as that negative offset |
| Users.TokenNotANumber | pkg/connector/users.go:107-110 | a token that is not a number gives (0, 0, syntax error) |
| Users.Join | pkg/connector/users.go:39 | strings.Join: "" for no parts; the result starts with the first part, followed by the separator when there are two or more |
| Users.UserPages | pkg/connector/users.go:143-161 | the user listing starts at the given offset, and every later page starts after it and before the total |
| Users.UserPagesFollowTokens | pkg/connector/users.go:143-161 | the user listing: page i starts at offset + i*limit, each next token reads back as the next page, and the last page writes "" |
| Users.UserPagesAt | pkg/connector/users.go:143-161 | page i of the user listing starts at offset + i*limit |
| Users.UserPagesChain | pkg/connector/users.go:143-161 | each page of the user listing but the last writes a token that reads back as the next page |
| Users.UserPagesLast | pkg/connector/users.go:143-161 | the last page of the user listing writes "" |
| Users.UserPagesCount | pkg/connector/users.go:143-161 | when the total lies in (offset+(k-1)*limit, offset+k*limit] the listing fetches exactly k pages |
| Courses.Entitlements | pkg/connector/courses.go:101-123 | exactly three entitlements in the order assigned, completed, in_progress, with their display names and descriptions, and an empty next token |
| Courses.CachedStatusEntitlement | pkg/connector/courses.go:18-22 | a cached status names one of the course's entitlements exactly when it is not "unknown" |
| Courses.CollectGrants | pkg/connector/courses.go:161-169 | one grant per (user, status) entry of the map, the status as the entitlement slug, each user once, in any order |
| Courses.GrantedSlugs | pkg/connector/courses.go:159-169 | from a normalised cache every granted slug is a status, never "assigned" |
| Courses.Generated | pkg/connector/courses.go:143-149 | the request step never touches the cache; a non-empty status makes no request; an error leaves the state as it was |
| Courses.Fetched | pkg/connector/courses.go:151-157 | no fetch unless the gate holds; an error leaves the state as it was; a changed state is COMPLETED under the same report id; with no attempts allowed a pending fetch times out |
| Courses.PrepareWith | pkg/connector/courses.go:143-157 | an error leaves the cache as it was; a changed cache comes with no error and status COMPLETED |
| Courses.PrepareAsWritten | pkg/connector/courses.go:143-157 | with the code's gate, a status of "PENDING" makes no call and changes nothing; a changed cache comes with status COMPLETED |
| Courses.Prepare | pkg/connector/courses.go:143-157 | with the intended gate, a status that is neither empty nor pending makes no call; a changed cache comes with status COMPLETED |
| Courses.GatesAgree | pkg/connector/courses.go:151 | the intended gate accepts everything the written one does, and differs from it on "PENDING" alone |
| Courses.AsWrittenNeverFetches | pkg/connector/courses.go:151 | as written, a report request accepted with "PENDING" is recorded but never fetched, on that call or any later one |
| Courses.PrepareErrorUnchanged | pkg/connector/courses.go:143-157 | an error from either report call leaves the cache untouched, and, when a request had already been recorded, the whole state |
| Courses.SettledMakesNoCalls | pkg/connector/courses.go:143-157 | once the status is neither empty nor pending (COMPLETED, say), Grants makes no report call at all |
| Courses.PostOnlyWhenEmpty | pkg/connector/courses.go:143-149 | the report request is made only when the status is empty |
| Courses.PollOnlyWhenPending | pkg/connector/courses.go:151-157 | when the status after the request step is not pending, the poll traffic has no effect and the cache is untouched |
| Courses.FetchSettles | pkg/connector/client/percipio.go:297 | a successful fetch sets the status to COMPLETED, and every later call leaves the state alone |
| Courses.FirstCallLoads | pkg/connector/courses.go:143-157 | on a new client, a request accepted as PENDING whose report arrives loads that report into the cache and completes |
| Courses.CourseBuilder.constructor | pkg/connector/courses.go:174-179 | the builder wraps the client |
| Courses.CourseBuilder.Grants | pkg/connector/courses.go:132-172 | the report state afterwards is the one `Courses.Prepare` gives; an error returns no grants and an empty token; otherwise one grant per entry of the course's cached map, and none for an absent course |

## Findings

| source | as written | input that shows it | evidently intended | confidence | as-written member | corrected member |
|---|---|---|---|---|---|---|
| pkg/connector/courses.go:151 | `Grants` fetches the report only when `ReportStatus.Status == "pending"`, in lower case. The status is the server's answer to the report request verbatim. percipio.go:195 expects that answer to be "PENDING", and the poller compares "PENDING" (percipio.go:258). | A new client whose report request is answered `{"id": "r1", "status": "PENDING"}`. The status becomes "PENDING" and the report is never polled for, on any later call. The cache stays empty, so every course has no grants. | Fetch the report once the request is pending, whichever the spelling. | medium; not executed | Courses.AsWrittenNeverFetches | Courses.FirstCallLoads |

`Courses.PrepareAsWritten` gates the fetch with `Courses.PendingAsWritten`,
the lower-case comparison. `Courses.Prepare` and `Courses.CourseBuilder.Grants`
gate it with `Courses.Pending`, which accepts both "PENDING" and "pending".
For every other status the two gates agree.

## Tests that describe other code

Some of the repository's tests exercise functions or behaviour that the
code next to them does not have. The model follows the code:

- **A 100-page ceiling.** `pkg/connector/client/pagination_test.go:354-377`
  and `pkg/connector/list_builders_test.go:192-216` expect a constant
  `MaxPagesPerSync` of 100 and functions `GetNextToken` and
  `GetSimpleNextToken` that stop at page 100. `pkg/connector/client/pagination.go`
  defines none of them. Its `GetUserNextToken` (lines 92-126) and
  `GetContentNextToken` (lines 170-200) stop only on the total or the final
  offset.
- **A validating total count.** `pkg/connector/client/percipio_test.go:11-58`
  expects `getTotalCount` to reject "2000000" as "suspiciously high total
  count" and a missing header as "missing x-total-count header".
  `pkg/connector/client/percipio.go:79-82` is plain Atoi, so "2000000" is
  accepted and a missing header gives Atoi's syntax error.
- **Content-discovery counting.** `pkg/connector/client/percipio_test.go:59-117`
  tests `getTotalCountForContentDiscovery`, which percipio.go does not define.
- **Course paging helpers.** `pkg/connector/courses.go:63` and `:86` call
  `client.ParsePaginationToken` and `client.GetNextToken`, which
  `pkg/connector/client/pagination.go` does not define. It has
  `ParseContentPaginationToken` and `GetContentNextToken`, which the model
  uses for the content sweep.

## Code that does not fit together

A few call sites and declarations disagree with each other. The model takes
one reading in each case:

- **The cache field.** `pkg/connector/courses.go:159` reads
  `o.client.Cache`, but `Client` declares the cache as the field
  `StatusesStore` (`pkg/connector/client/percipio.go:34-41`), and
  `GetLearningActivityReport` loads into that field. The model reads grants
  from the one store, `client.store`.
- **ParseLinkHeader's arguments.** `pkg/connector/client/percipio.go:156`
  calls `ParseLinkHeader(linkHeader)` with one argument;
  `pkg/connector/client/pagination.go:207` declares it as
  `(ctx, linkHeader)`. The context only feeds logging, so the model's
  `LinkHeader.ParseLinkHeader` takes the header alone.
- **The retry bound.** `pkg/connector/client/percipio.go:205` loops up to
  `config.RetryAttemptsMaximum`, which `pkg/config/config.go` does not
  declare. The model takes the bound as a parameter, `maxAttempts`, of
  `Percipio.Poll` and `Percipio.Client.PollLearningActivityReport`.
- **The course builder's arguments.** `pkg/connector/connector.go:52` and
  `pkg/connector/courses_test.go:32`, `:59` and `:74` pass two arguments to
  `newCourseBuilder`: the client and a course-limit list. Its definition,
  `pkg/connector/courses.go:174`, takes only the client. The model follows
  the definition: `Courses.CourseBuilder.constructor` takes the client, and
  the course limit is not modelled.

## Left out

- **HTTP transport.** Request building, the bearer token, headers, uhttp,
  `http.DefaultClient` and `io.ReadAll` are left out. Their results are
  inputs: a header map, the decoded answer to the report request, and one
  abstract `Attempt` per poll request.
- Time: the sleep between poll attempts, `time.Now`, and the ten-year lookback of the report request.
- Logging: all of it; it does not affect results.
- **SDK objects.** Resource, entitlement and grant construction are left
  out; the model keeps the slug, display name, description, course and
  principal. Rate-limit annotations, and the user profile map beyond
  IsActive, are also left out.
- Percipio.Client.GetLearningActivityReport: the report array's JSON decoding is a parameter (`decodeReport`), since it is library work over many fields; a report is a sequence of (content, user, status) rows.
- **Percipio.Client.GetLearningActivityReport: Load's error.** This branch
  of the code is omitted, because `Load` always returns nil.
- Courses.CourseBuilder.Grants: `NewResourceID`'s error is omitted; for a user id string it does not fail.
- Course limits: the `limitCourses` list that connector.go passes to `newCourseBuilder` is not modelled, because the definition of `newCourseBuilder` does not take it.
- Percipio.Client.New: the uhttp client construction errors are not modelled; only the URL parse can fail.
- Percipio.Client.New: can accept a bracketed host whose text is not an IP address, where a Go release's url.Parse checks IP literals, because that check is not modelled.
- Percipio.ReportUrl: the base URL is the raw string given to `New`, not `url.URL.String()` of its parse.
- **Percipio.TrimSpace.** This is bytes.TrimSpace restricted to ASCII
  white space. Unicode spaces such as U+0085 and U+00A0 are not trimmed.
- **Poll bodies are decoded as UTF-8.** A poll body reaches the status decoder as the text `Utf8.Decode` makes of its bytes. Each byte outside a well-formed sequence becomes U+FFFD, as in encoding/json. Go reports a non-ASCII byte outside a string as a syntax error. Here that byte becomes a non-ASCII character, which the parser rejects just the same.
- Users.UserPages and Pagination.ContentPages: the sweeps are modelled only while total (for users) or finalOffset (for content) is at most MaxInt64 - limit. Above that bound Go's `offset + limit` (users.go:118, pagination.go:172) wraps negative. The page just below MaxInt64 then still writes a token, for a negative offset, so the listing does not end there. `Users.TokenPastTopWraps` and `Pagination.ContentTokenPastTopWraps` prove that token; the listing the API serves after it is not modelled.
- **Ids and header values are Unicode text.** Paging request ids, user ids, tokens and header values are Dafny `string`s, sequences of Unicode characters. A Go string can hold bytes that are not UTF-8, which json.Marshal writes as `\ufffd`; such ids are not represented, and the round trips are stated for Unicode ids only.
- Percipio.HeaderGet: header names are lower-case map keys; Go's canonicalisation of header keys is not modelled.
- **Url.Parse: partly modelled.** These parts are modelled:
  - the check for control characters;
  - the scheme scan and the first-segment colon rule;
  - `%` escapes and the query split;
  - the authority's host, after the last `@`: a `[` host needs its `]`, a
    port must be digits only, and the zone after `%25` in brackets is
    unescaped in zone mode;
  - host unescaping: an escape of an ASCII byte other than `%25` and an
    ASCII character a host may not hold are refused;
  - the user information: its characters and its escapes.

  These parts are not: the values that unescaping makes of the host, the
  user information and the path, and any check a Go release makes that the
  text in brackets is an IP address. Where that check applies, this model
  can accept a bracketed host that Go's url.Parse refuses.
- **Link-header fixture.** `LinkHeader.LastLinkAfterFirst` covers the
  fixture's shape. There is no lemma that evaluates the literal 200-character
  header, because its character-by-character evaluation is too costly.
- The courses `List` and the users `List` bodies: they call SDK constructors, and the courses `List` calls `client.ParsePaginationToken` and `client.GetNextToken`, which pkg/connector/client/pagination.go does not define (see above). The users listing is modelled by its token sequence in `Users.UserPages`, and the content sweep by `Pagination.ContentPages`.
- **Concurrency.** None is modelled; each sweep is a single caller.
- **Tests that describe other code.** The tests listed under "Tests that
  describe other code" are not modelled, since the functions they call are
  not in this repository's code.
