# CloakAPI guardrail, modelled in Dafny

CloakAPI is a reverse proxy that redacts personal data (PII) from JSON responses
before they reach analysts. It writes one audit row per request. It also offers
admin endpoints over the audit log and a dashboard that reads the caller's role
from a JWT. This project models that guardrail core and proves what it promises:

- **Value maskers** (`PiiMasker`): email, phone, Turkish national id (TCKN) and
  IPv4 maskers. Also the two-decimal rounding of location coordinates, done on
  exact reals.
- **Free-text detector** (`PiiDetector`). The four regular expressions are
  hand-written recognisers that follow the expressions' structure and their
  leftmost, backtracking choice order. Replace-all is a left-to-right scan that
  replaces leftmost, non-overlapping matches.
- **JSON masking walker** (`JsonMasking`). It is a depth-first walk over a JSON
  datatype with key-based classification, a free-text fallback and the
  `location` special case. It is written twice:
  - `WalkNode`, a specification function that returns the rewritten tree and the
    report;
  - `MaskNode`, a method that threads a mutable accumulator the way the service
    threads `ref maskedCount`, the path list and the tag set. It is proved equal
    to `WalkNode`. Its object loop, array loop and string case are the methods
    `MaskFields`, `MaskItems` and `MaskString`.
- **Response middleware** (`ResponseMasking`). It covers the masking-eligibility
  rule, the Allow/Mask decision and the audit row. `Invoke` is a method over a
  response with a swappable body stream and an audit sink.
- **Audit record** (`AuditRecord`, `AuditDto`): the mutable `AuditEvent` with its
  two setters, which de-duplicate ignoring case, and the tolerant read-back into
  DTOs.
- **Admin queries** (`AdminQueries`):
  - clamping of page, page size and take;
  - total pages and the page slice;
  - the audit filters;
  - the top-endpoints mode;
  - the PII-distribution tally loop.
- **Dashboard roles** (`DashboardRoles`): `normalizeRole`, `isAdmin` and
  `extractRoleFromClaims`, using JavaScript's white-space set for `trim`.

`Text`, `IgnoreCaseSet` and `Json` hold shared helpers:
- ASCII character classes, ASCII case folding, `Split`/`Join` and digit strings;
- the ordinal-ignore-case `Distinct`/`HashSet` behaviour, as the first
  occurrence kept in input order;
- ordered JSON objects.

A body that fails to parse as JSON on the masking path is not passed through:
`JsonMaskingService.MaskJson` does not catch the parse exception, and neither
does the middleware. So the model gives a `Faulted` outcome:
- nothing is written to the body;
- no audit row is written;
- the original body stream is restored, as the `finally` block does.

## Model

| member | source | states |
|---|---|---|
| PiiMasker.MaskEmail | backend/src/CloakAPI.Guardrail/PiiMasker.cs:7-18 | "***" exactly when there is no '@' or the first '@' is at index 0 or 1 |
| PiiMasker.MaskEmailKeeps | backend/src/CloakAPI.Guardrail/PiiMasker.cs:7-18 | otherwise the first two characters, max(3, local length - 2) asterisks, then '@' and the domain unchanged, and that '@' is the first one of the result, so at most two local characters are revealed |
| PiiMasker.MaskEmailIdempotent | backend/src/CloakAPI.Guardrail/PiiMasker.cs:7-18 | masking an already masked address changes nothing |
| PiiMasker.MaskPhone | backend/src/CloakAPI.Guardrail/PiiMasker.cs:20-26 | "***" exactly when fewer than four digits occur; otherwise "***-***-" followed by the last four digits of the input |
| PiiMasker.MaskPhoneIdempotent | backend/src/CloakAPI.Guardrail/PiiMasker.cs:20-26 | a masked phone masks to itself |
| PiiMasker.MaskTckn | backend/src/CloakAPI.Guardrail/PiiMasker.cs:28-33 | always 11 characters whose first nine are '*'; the last two digits are kept exactly when 11 digits were extracted, otherwise eleven asterisks |
| PiiMasker.MaskTcknTwice | backend/src/CloakAPI.Guardrail/PiiMasker.cs:28-33 | masking a masked id yields eleven asterisks, since only two digits survive |
| PiiMasker.MaskIpv4 | backend/src/CloakAPI.Guardrail/PiiMasker.cs:35-40 | the fixed placeholder unless the text splits into exactly four dot-separated parts; then the parts of the result are the first part, "***", "***" and the last part |
| PiiMasker.MaskIpv4Idempotent | backend/src/CloakAPI.Guardrail/PiiMasker.cs:35-40 | a masked address masks to itself |
| PiiMasker.RoundLocationComponentBounds | backend/src/CloakAPI.Guardrail/PiiMasker.cs:42-43 | the rounded value lies within half a hundredth of the input, has at most two decimals and keeps the sign |
| PiiMasker.RoundLocationComponentMidpoint | backend/src/CloakAPI.Guardrail/PiiMasker.cs:42-43 | a value exactly half-way between hundredths rounds away from zero, on both signs |
| PiiMasker.RoundLocationComponentIdempotent | backend/src/CloakAPI.Guardrail/PiiMasker.cs:42-43 | rounding a rounded value changes nothing |
| PiiMasker.RoundLocationComponentExample | backend/src/CloakAPI.Guardrail/PiiMasker.cs:42-43 | 41.015137 rounds to 41.02 |
| PiiMasker.TryRoundLocationComponent | backend/src/CloakAPI.Guardrail/PiiMasker.cs:45-55 | succeeds exactly when the text parses as a number; on failure the text comes back unchanged, on success it is the formatted rounding of the parsed value |
| PiiDetector.MatchAt | backend/src/CloakAPI.Guardrail/PiiDetector.cs:7-21 | a match of any of the four patterns is non-empty and lies inside the text |
| PiiDetector.PhoneAt | backend/src/CloakAPI.Guardrail/PiiDetector.cs:11-13 | a phone match ends in four digits |
| PiiDetector.PhoneAccepted | backend/src/CloakAPI.Guardrail/PiiDetector.cs:11-13 | at a word boundary, two country digits and then groups of three, three and four digits, each after a space or hyphen and the last ending at a word boundary, are matched to the end of the last group |
| PiiDetector.PhoneSample | backend/src/CloakAPI.Guardrail/PiiDetector.cs:11-13 | in "+90 555 123 4567" the match starts after the '+', which is not at a word boundary, and runs to the end |
| PiiDetector.TcknMatchIsElevenDigitRun | backend/src/CloakAPI.Guardrail/PiiDetector.cs:15-17 | the id pattern matches at a position exactly when eleven digits start there with no word character before or after them |
| PiiDetector.TcknRunLength | backend/src/CloakAPI.Guardrail/PiiDetector.cs:15-17 | a bounded digit run of any length other than 11 (10 or 12, say) holds no id match anywhere |
| PiiDetector.OctetIsByteNumeral | backend/src/CloakAPI.Guardrail/PiiDetector.cs:19-21 | the four octet alternatives, taken as whole strings, accept exactly the decimal numerals 0..255 without a leading zero |
| PiiDetector.Ipv4MatchIsDottedQuad | backend/src/CloakAPI.Guardrail/PiiDetector.cs:19-21 | a matched address splits at its dots into exactly four octets that join back to it, and the IPv4 masker keeps its first and last octet |
| PiiDetector.DottedQuadIsIpv4Match | backend/src/CloakAPI.Guardrail/PiiDetector.cs:19-21 | conversely, four octets joined by dots with no word character around them are matched exactly |
| PiiDetector.EmailMatchShape | backend/src/CloakAPI.Guardrail/PiiDetector.cs:7-9 | a matched address has its first '@' at index 1 or later, then a dot followed by a final label of at least two letters that ends the match |
| PiiDetector.EmailAccepted | backend/src/CloakAPI.Guardrail/PiiDetector.cs:7-9 | conversely, at a word boundary a non-empty local part, '@', a domain and a last label of two or more letters after a dot, ended by a character that is neither a domain nor a word character, is matched exactly up to that character |
| PiiDetector.EmailSample | backend/src/CloakAPI.Guardrail/PiiDetector.cs:7-9 | "jo@example.com" is matched whole |
| PiiDetector.EmailCaseInsensitive | backend/src/CloakAPI.Guardrail/PiiDetector.cs:7-9 | the email recogniser gives the same match on the lower-cased text |
| PiiDetector.PhoneMatchMasked | backend/src/CloakAPI.Guardrail/PiiDetector.cs:11-13 | masking a phone match gives "***-***-" and the match's last four characters |
| PiiDetector.MaskInTextWithoutMatch | backend/src/CloakAPI.Guardrail/PiiDetector.cs:23-38 | a text that does not contain the pattern is returned unchanged, whatever the masker |
| PiiDetector.MaskInTextIdentity | backend/src/CloakAPI.Guardrail/PiiDetector.cs:28-38 | with a masker that returns its argument, replace-all returns the text unchanged |
| PiiDetector.MaskInTextSplices | backend/src/CloakAPI.Guardrail/PiiDetector.cs:28-38 | replace-all equals the text with its leftmost non-overlapping matches, in order, each replaced by the masker's value, and everything between them untouched |
| PiiDetector.MaskAllInFreeTextClean | backend/src/CloakAPI.Guardrail/PiiDetector.cs:40-48 | a text containing none of the four patterns passes through the email, phone, id and IPv4 stages unchanged |
| PiiDetector.NoEmailWithoutAt | backend/src/CloakAPI.Guardrail/PiiDetector.cs:7-9 | a text without '@' contains no email match |
| PiiDetector.PhoneMatchNeedsDigitPair | backend/src/CloakAPI.Guardrail/PiiDetector.cs:11-13 | a phone match anywhere means two digits stand next to each other |
| PiiDetector.NoPhoneWithoutDigitPair | backend/src/CloakAPI.Guardrail/PiiDetector.cs:11-13 | so a text without two adjacent digits contains no phone match |
| PiiDetector.ReplaceWholeMatch | backend/src/CloakAPI.Guardrail/PiiDetector.cs:28-38 | a text that one match covers entirely is replaced by the masker's value of the whole text |
| PiiDetector.OnlyIpv4Stage | backend/src/CloakAPI.Guardrail/PiiDetector.cs:40-48 | a text shorter than 11 characters, without '@' and without two adjacent digits, passes the email, phone and id stages unchanged and meets only the IPv4 stage |
| PiiDetector.QuadTextMasked | backend/src/CloakAPI.Guardrail/PiiDetector.cs:37-38 | a text that is exactly four octets joined by dots leaves the IPv4 stage as its first octet, ".***.***." and its last octet |
| PiiDetector.SingleDigitQuad | backend/src/CloakAPI.Guardrail/PiiDetector.cs:19-21 | four single digits joined by dots are four octets |
| PiiDetector.SingleDigitQuadMasked | backend/src/CloakAPI.Guardrail/PiiDetector.cs:40-48 | free text such as "1.2.3.4" is masked to "1.***.***.4" |
| IgnoreCaseSet.AddAllProperties | backend/src/CloakAPI.Guardrail/JsonMaskingService.cs:156-156 | a union into a case-insensitive set keeps the old entries first, stays free of case-insensitive duplicates, covers every added string and adds nothing else |
| IgnoreCaseSet.DedupProperties | backend/src/CloakAPI.Data/AuditEvent.cs:24-32 | the de-duplicated list has no two entries equal ignoring case, covers every input, holds only inputs and is no longer than the input |
| IgnoreCaseSet.DedupKeepsFirst | backend/src/CloakAPI.Data/AuditEvent.cs:24-32 | the first input is the first entry kept |
| IgnoreCaseSet.DedupIdempotent | backend/src/CloakAPI.Data/AuditEvent.cs:24-32 | de-duplicating twice is de-duplicating once |
| Json.SetOther | backend/src/CloakAPI.Guardrail/JsonMaskingService.cs:199-221 | assigning one member of an object leaves every other member's value as it was |
| JsonMasking.DetectPiiTypes | backend/src/CloakAPI.Guardrail/JsonMaskingService.cs:178-186 | each of "Email", "Phone", "TCKN" and "IP" is reported exactly when the text contains that pattern, and "Location" never is |
| JsonMasking.TagsDistinct | backend/src/CloakAPI.Guardrail/JsonMaskingService.cs:84-145 | the five type tags are pairwise different |
| JsonMasking.KeySetsClassify | backend/src/CloakAPI.Guardrail/JsonMaskingService.cs:8-45 | a key in any case-variant of the email, phone, id, IP or notes set selects that branch; the sets are disjoint, so the order of the tests never shadows a key |
| JsonMasking.ClassifyKeyIgnoresCase | backend/src/CloakAPI.Guardrail/JsonMaskingService.cs:113-151 | a key and its lower-cased form are classified alike |
| JsonMasking.KeyedLeaf | backend/src/CloakAPI.Guardrail/JsonMaskingService.cs:113-149 | a string under an email, phone, id or IP key is replaced by that masker's value and adds one to the count, its tag and its own path |
| JsonMasking.ChangedTextIsDetected | backend/src/CloakAPI.Guardrail/JsonMaskingService.cs:151-172 | when the free-text pass changes a string, detection on the original reports at least one type |
| JsonMasking.MaskLeafExtends | backend/src/CloakAPI.Guardrail/JsonMaskingService.cs:108-175 | a string leaf only appends to the report under its own path and keeps it consistent; when the count does not grow, the string is unchanged |
| JsonMasking.FreeTextLeafExtends | backend/src/CloakAPI.Guardrail/JsonMaskingService.cs:166-174 | the leaf always becomes the free-text masking of the string; it is counted exactly when that changes it, and then once, at its own path, with the tags detected in the original; otherwise the report is left as it was |
| JsonMasking.WalkNodeExtends | backend/src/CloakAPI.Guardrail/JsonMaskingService.cs:65-176 | the walk only appends paths under the node's own path, adds one to the count per path and keeps the report consistent; a walk that counts nothing leaves the subtree unchanged; a number, boolean or null is kept and counts nothing |
| JsonMasking.WalkFieldsExtends | backend/src/CloakAPI.Guardrail/JsonMaskingService.cs:73-94 | the same for the members of an object |
| JsonMasking.WalkFieldsStable | backend/src/CloakAPI.Guardrail/JsonMaskingService.cs:75-91 | walking later members never changes a member already walked |
| JsonMasking.WalkFieldsMember | backend/src/CloakAPI.Guardrail/JsonMaskingService.cs:77-89 | member by member, with the report the earlier members left: a null member is kept and counts nothing; a location object is rounded in place and counted once, at its member path, with the Location tag; any other member becomes the walk of its value under its own name and member path |
| JsonMasking.WalkItemsExtends | backend/src/CloakAPI.Guardrail/JsonMaskingService.cs:96-106 | the same for the elements of an array |
| JsonMasking.WalkFields | backend/src/CloakAPI.Guardrail/JsonMaskingService.cs:73-94 | an object keeps its keys, in order |
| JsonMasking.WalkItems | backend/src/CloakAPI.Guardrail/JsonMaskingService.cs:96-106 | an array keeps its length |
| JsonMasking.KeyedItemsMasked | backend/src/CloakAPI.Guardrail/JsonMaskingService.cs:96-103 | strings in an array under a keyed property inherit its key and each goes through that key's masker |
| JsonMasking.KeyedItemsCounted | backend/src/CloakAPI.Guardrail/JsonMaskingService.cs:96-103 | such an array adds its length to the count and the paths path[0], path[1], ... in order |
| JsonMasking.KeyedItemsTagged | backend/src/CloakAPI.Guardrail/JsonMaskingService.cs:96-103 | a non-empty such array adds the key's tag once; an empty one adds nothing |
| JsonMasking.RoundLocation | backend/src/CloakAPI.Guardrail/JsonMaskingService.cs:195-222 | a location object keeps its keys in order and every member other than lat and lon unchanged |
| JsonMasking.LocationRounded | backend/src/CloakAPI.Guardrail/JsonMaskingService.cs:199-221 | lat and lon are each replaced by their rounded component |
| JsonMasking.NumericCoordinateRounded | backend/src/CloakAPI.Guardrail/JsonMaskingService.cs:201-203 | a numeric coordinate becomes a number within half a hundredth of it with at most two decimals |
| JsonMasking.MaskingAccumulator.constructor | backend/src/CloakAPI.Guardrail/JsonMaskingService.cs:55-57 | a fresh accumulator holds the empty report |
| JsonMasking.MaskingAccumulator.Record | backend/src/CloakAPI.Guardrail/JsonMaskingService.cs:118-120 | one masking adds one to the count, unions the tags and appends the path |
| JsonMasking.MaskNode | backend/src/CloakAPI.Guardrail/JsonMaskingService.cs:65-176 | the rewritten node and the accumulator's new report are exactly what the walk specification gives from the old report |
| JsonMasking.MaskFields | backend/src/CloakAPI.Guardrail/JsonMaskingService.cs:73-94 | the object loop: the rewritten members and the new report are what the walk over the members gives, so each member ends up as the member lemma says |
| JsonMasking.MaskItems | backend/src/CloakAPI.Guardrail/JsonMaskingService.cs:96-106 | the array loop: the rewritten elements and the new report are what the walk over the elements gives, each element under its indexed path and the array's parent name |
| JsonMasking.MaskString | backend/src/CloakAPI.Guardrail/JsonMaskingService.cs:108-175 | a string value gets the masker its property name selects, or the free-text scan, and the report grows as the leaf specification says |
| JsonMasking.MaskJson | backend/src/CloakAPI.Guardrail/JsonMaskingService.cs:47-63 | the method's outcome is the document-level specification, with the root-string correction listed under Findings |
| JsonMasking.MaskedDocumentReport | backend/src/CloakAPI.Guardrail/JsonMaskingService.cs:55-62 | the final report has as many paths as its count, tags exactly when it counts something, has no duplicate tags, uses only the five tags, and every path starts at "$"; a count of zero means the tree is unchanged |
| JsonMasking.MaskDocumentOutcome | backend/src/CloakAPI.Guardrail/JsonMaskingService.cs:47-63 | the call faults exactly when the text is not JSON; a document that is the literal null comes back as it is with an empty report; otherwise the report is consistent, and one that counts nothing re-serialises the parsed tree |
| JsonMasking.AsWrittenAgreesBelowRoot | backend/src/CloakAPI.Guardrail/JsonMaskingService.cs:47-63 | the service's document masking and the corrected one agree on every document that is not a single string |
| JsonMasking.RootStringDocument | backend/src/CloakAPI.Guardrail/JsonMaskingService.cs:166-174 | for a document that is one string the free-text pass changes, the service serialises the string unmasked yet reports one masked value at "$"; the corrected version serialises the masked string with the same report |
| JsonMasking.RootQuadDocument | backend/src/CloakAPI.Guardrail/JsonMaskingService.cs:174 | the document "1.2.3.4" (a JSON string) comes back unchanged with a count of 1 at "$"; corrected, it comes back as "1.***.***.4" |
| AuditRecord.AuditEvent.constructor | backend/src/CloakAPI.Data/AuditEvent.cs:7-22 | a fresh event has empty strings, zeros and "[]" in both list columns |
| AuditRecord.AuditEvent.SetPiiTypesFound | backend/src/CloakAPI.Data/AuditEvent.cs:24-27 | only the type column changes, to the serialised list de-duplicated ignoring case |
| AuditRecord.AuditEvent.SetMaskedFields | backend/src/CloakAPI.Data/AuditEvent.cs:29-32 | only the path column changes, likewise |
| AuditRecord.StoredListReadsBack | backend/src/CloakAPI.Data/AuditEvent.cs:24-32 | a stored list reads back as a list with no two entries equal ignoring case, that covers every input, holds only inputs and starts with the first input |
| AuditRecord.CaseVariantsCollapse | backend/src/CloakAPI.Data/AuditEvent.cs:29-32 | two paths that differ only in case are stored as one, so the stored list can be shorter than the masked count |
| AuditRecord.CaseVariantsExample | backend/src/CloakAPI.Data/AuditEvent.cs:29-32 | "$.Email" and "$.email" are stored as just "$.Email" |
| AuditDto.TryParseStringArray | backend/src/CloakAPI.Guardrail/AuditDtoMapper.cs:24-35 | a missing or blank text, a text that is not a string array and the literal null all give the empty list; a string array gives its items, null entries included in place; the result holds a null entry exactly when the stored array does |
| AuditDto.ToDto | backend/src/CloakAPI.Guardrail/AuditDtoMapper.cs:8-22 | every scalar column is copied unchanged and both list columns are parsed tolerantly |
| AuditDto.StoredListRoundTrip | backend/src/CloakAPI.Guardrail/AuditDtoMapper.cs:24-35 | a list written by a setter reads back as exactly the de-duplicated list, with no null entry |
| AuditDto.DefaultRowReadsEmpty | backend/src/CloakAPI.Guardrail/AuditDtoMapper.cs:24-35 | a fresh event reads back with two empty lists |
| AuditDto.RecordAndRead | backend/src/CloakAPI.Guardrail/AuditDtoMapper.cs:8-22 | an event filled by the setters and mapped carries both de-duplicated lists, which are free of case-insensitive duplicates and cover every input path |
| ResponseMasking.SubjectOf | backend/src/CloakAPI.Guardrail/JsonResponseMaskingMiddleware.cs:26-28 | the subject is the sub claim, else the name-identifier claim, else "" |
| ResponseMasking.ContentTypeExamples | backend/src/CloakAPI.Guardrail/JsonResponseMaskingMiddleware.cs:43-44 | a JSON content type with parameters or in another case counts as JSON; text/plain, a missing type and a blank type do not |
| ResponseMasking.MissingRoleNeverMasks | backend/src/CloakAPI.Guardrail/JsonResponseMaskingMiddleware.cs:25-45 | a request without a role claim is never masked |
| ResponseMasking.BypassPassesThrough | backend/src/CloakAPI.Guardrail/JsonResponseMaskingMiddleware.cs:49-70 | an ineligible response is served with its body unchanged, its length header kept, decision Allow, count 0 and no types or paths |
| ResponseMasking.ServedDecision | backend/src/CloakAPI.Guardrail/JsonResponseMaskingMiddleware.cs:76-81 | the decision is Mask exactly when something was masked, otherwise Allow; the count equals the number of paths, types appear exactly when the count is positive, types are the five tags without duplicates, and paths start at "$" |
| ResponseMasking.FailsOnlyOnExceptions | backend/src/CloakAPI.Guardrail/JsonResponseMaskingMiddleware.cs:36-104 | handling fails exactly when the downstream throws or an eligible body is not JSON |
| ResponseMasking.NewAuditEvent | backend/src/CloakAPI.Guardrail/JsonResponseMaskingMiddleware.cs:87-101 | the event holds the request's subject, role, method and path, the decision, count and status, and both lists de-duplicated |
| ResponseMasking.AuditSink.Write | backend/src/CloakAPI.Guardrail/JsonResponseMaskingMiddleware.cs:103-103 | the event's row is appended to the log |
| ResponseMasking.Invoke | backend/src/CloakAPI.Guardrail/JsonResponseMaskingMiddleware.cs:17-109 | the original body stream is restored on every exit; a completed call writes the handled body to it, appends exactly one audit row and clears the length header when it masked; a failed call writes nothing and changes nothing; the body it serves is the corrected document masking `MaskDocument`, which differs from the service as written only for a root JSON string (see Findings) |
| AdminQueries.Wrap32 | backend/src/CloakAPI.Guardrail/Program.cs:121-121 | 32-bit two's-complement wrap-around: the result is an int32 and equals an int32 input |
| AdminQueries.ClampPaging | backend/src/CloakAPI.Guardrail/Program.cs:101-105 | page defaults to 1 and is at least 1; page size defaults to 20 and is clamped into 1..200; values in range are kept |
| AdminQueries.TotalPages | backend/src/CloakAPI.Guardrail/Program.cs:118-118 | at least 1; the pages hold every row, and every page but a single one starts before the last row |
| AdminQueries.SkipRowsOverflow | backend/src/CloakAPI.Guardrail/Program.cs:121-121 | as written, page 2147483647 with 20 rows per page skips -40 rows, where the intended offset is 42949672920 |
| AdminQueries.SkipRowsAgree | backend/src/CloakAPI.Guardrail/Program.cs:121-121 | as long as the offset fits in 32 bits, the as-written and the corrected offset agree |
| AdminQueries.PageSlice | backend/src/CloakAPI.Guardrail/Program.cs:119-123 | a page holds at most the page size of rows |
| AdminQueries.PageHoldsRow | backend/src/CloakAPI.Guardrail/Program.cs:117-123 | every row appears on exactly the page its index selects, and that page is within the total |
| AdminQueries.PagesAfterLastEmpty | backend/src/CloakAPI.Guardrail/Program.cs:118-123 | pages beyond the total are empty |
| AdminQueries.EndpointContainsWins | backend/src/CloakAPI.Guardrail/Program.cs:112-113 | with endpointContains given, the endpoint parameter has no effect |
| AdminQueries.BlankFiltersPassEverything | backend/src/CloakAPI.Guardrail/Program.cs:109-115 | absent dates and blank endpoint, role and decision filters let every row through |
| AdminQueries.BlankEndpointContains | backend/src/CloakAPI.Guardrail/Program.cs:112-113 | a blank endpointContains switches the endpoint filter off, whatever endpoint says |
| AdminQueries.EndpointPiecePasses | backend/src/CloakAPI.Guardrail/Program.cs:112-113 | with any piece of a row's endpoint as the filter, the whole endpoint included, the row passes exactly when it passes the other four filters |
| AdminQueries.ClampTake | backend/src/CloakAPI.Guardrail/Program.cs:181-183 | take defaults to 10 and is clamped into 1..100; values in range are kept |
| AdminQueries.RankingOf | backend/src/CloakAPI.Guardrail/Program.cs:185-189 | the masked-count ranking is chosen exactly when `by` is non-blank and equals "maskedCount" ignoring case; a blank `by` ranks by masked events |
| AdminQueries.MaskedTypeLists | backend/src/CloakAPI.Guardrail/Program.cs:143-147 | only the type lists of Mask rows are read, one per row at most |
| AdminQueries.AllowedRowsIgnored | backend/src/CloakAPI.Guardrail/Program.cs:145-145 | a row whose decision is not Mask contributes nothing |
| AdminQueries.CanonicalKey | backend/src/CloakAPI.Guardrail/Program.cs:149-172 | a type name selects the one tally key equal to it ignoring case, or none |
| AdminQueries.TagsApart | backend/src/CloakAPI.Guardrail/Program.cs:149-156 | the tally has exactly the keys Email, Phone, TCKN, IP and Location, pairwise different ignoring case |
| AdminQueries.UniqueTag | backend/src/CloakAPI.Guardrail/Program.cs:149-156 | a name equal to one key ignoring case equals no other key |
| AdminQueries.PiiDistribution | backend/src/CloakAPI.Guardrail/Program.cs:141-177 | the handler fails exactly when the type list of some Mask row holds a null entry, since the dictionary lookup of null throws outside the try; otherwise the tally has exactly the five keys, and each key's count is the number of case-insensitive occurrences of it across the readable type lists of Mask rows |
| AdminQueries.StoredTypesHaveNoNull | backend/src/CloakAPI.Guardrail/Program.cs:161-174 | a type list written by the audit setter holds no null, so it never makes the tally fail, and it is read as the de-duplicated list |
| AdminQueries.CountTypes | backend/src/CloakAPI.Guardrail/Program.cs:170-174 | the inner loop keeps the five keys and adds to each key exactly the number of names in the list equal to it ignoring case |
| AdminQueries.UnreadableListCountsNothing | backend/src/CloakAPI.Guardrail/Program.cs:160-168 | a list that does not read as a string array adds nothing to any key |
| AdminQueries.OccurrencesDistinct | backend/src/CloakAPI.Guardrail/Program.cs:170-173 | in a list without case-insensitive duplicates a key occurs at most once, and once exactly when the list contains it |
| AdminQueries.StoredTypesCountOnce | backend/src/CloakAPI.Guardrail/Program.cs:158-173 | a type list written by the audit setter adds exactly 1 to each key it mentions in any case and 0 to the others |
| DashboardRoles.Trim | frontend/cloakapi-dashboard/src/lib/useSession.ts:14-14 | trim removes white space from both ends only: the result is empty exactly when the text is all white space, otherwise it starts and ends with a non-space and sits in the text with only white space around it |
| DashboardRoles.TrimIdempotent | frontend/cloakapi-dashboard/src/lib/useSession.ts:14-14 | trimming twice is trimming once |
| DashboardRoles.NormalizeRole | frontend/cloakapi-dashboard/src/lib/useSession.ts:12-21 | null, empty and white-space-only roles give null; "admin" and "analyst" in any case after trimming give "Admin" and "Analyst"; any other role comes back trimmed with its case unchanged |
| DashboardRoles.NormalizeRoleIdempotent | frontend/cloakapi-dashboard/src/lib/useSession.ts:12-21 | normalising a normalised role changes nothing |
| DashboardRoles.IsAdminIff | frontend/cloakapi-dashboard/src/lib/useSession.ts:58-60 | the admin flag is set exactly for roles that trim to "admin" in some case |
| DashboardRoles.IsAdminOnlyForAdmin | frontend/cloakapi-dashboard/src/lib/useSession.ts:58-60 | the flag is set only for such roles |
| DashboardRoles.AdminSpellingsAreAdmin | frontend/cloakapi-dashboard/src/lib/useSession.ts:58-60 | every such role sets the flag |
| DashboardRoles.ExtractRoleFromClaims | frontend/cloakapi-dashboard/src/lib/jwt.ts:27-45 | a found role is never blank; the result is null exactly when the claims are null or no candidate is a non-blank string |
| DashboardRoles.ExtractRolePriority | frontend/cloakapi-dashboard/src/lib/jwt.ts:30-44 | role ?? Role wins when usable, then the schema role claim, then the first element of roles; each is returned untrimmed |
| DashboardRoles.RoleShadowsCapitalRole | frontend/cloakapi-dashboard/src/lib/jwt.ts:30-31 | once "role" is present and not null, the value of "Role" cannot change the result |
| DashboardRoles.EmptyRoleExample | frontend/cloakapi-dashboard/src/lib/jwt.ts:30-31 | an empty "role" hides an "Admin" in "Role", and the result is null |
| DashboardRoles.OnlyFirstRoleCounts | frontend/cloakapi-dashboard/src/lib/jwt.ts:38-42 | when the first element of roles is not a usable string, later elements are never consulted |
| DashboardRoles.ExtractedRolesNormalise | frontend/cloakapi-dashboard/src/lib/jwt.ts:27-45 | normalising the extracted role gives a role exactly when the claims yielded one |

## Left out

- Regular expressions are replaced by recognisers over ASCII classes. `\d`, `\w` and the email letter classes accept ASCII only. .NET would also accept other Unicode digits and letters.
- Floating point is left out. Coordinates are exact reals and are rounded exactly, half away from zero. `double.TryParse` and the "0.##" formatting are opaque functions (`NumberText`). Binary doubles can round a printed midpoint such as 1.005 the other way; the model does not capture that.
- System.Text.Json parsing and serialisation are opaque functions, `JsonCodec` and `StringArrayCodec`. `FaithfulCodec` assumes three things of the array codec: arrays round-trip, output is never blank, and "[]" reads as empty. A stored text may still be an array with null entries (`ArrayWithNull`); the setters never write one, but the readers take the column as they find it.
- JsonMasking.MaskNode: the tree is a value. In-place `ReplaceWith` and member assignment become a rewritten tree that is returned, so aliasing of nodes is not modelled.
- The order in which a .NET `HashSet` enumerates its tags is taken to be insertion order.
- `HttpContext` is reduced to plain inputs: the request's path, method and claims, plus the downstream outcome. The same goes for the `MemoryStream` buffering, async/await and `RequestAborted`. The response body is a `Stream` object holding the written text.
- The audit writer is reduced to an in-memory sink that appends rows. Persistence and a writer that throws are not modelled.
- `Guid.NewGuid()` and `DateTime.UtcNow` become the parameters `id` and `now`. Both audit branches use them the same way.
- The database queries are not modelled:
  - ordering by timestamp;
  - the grouping, sums and descending two-key ordering of top-endpoints;
  - the `/stats/summary` counts;
  - `/whoami`.

  The audit filters are a predicate on one row, and the listing is a slice of an already ordered sequence.
- `MaskedCount`, `StatusCode` and the tally counters are unbounded integers. The 32-bit width matters only for the page offset, which the findings below treat.
- Text.EqualsIgnoreCase: folds ASCII letters only, where StringComparer.OrdinalIgnoreCase also folds non-ASCII letters. IgnoreCaseSet.Dedup, IgnoreCaseSet.AddAll, JsonMasking.ClassifyKey, ResponseMasking.ShouldMask and AdminQueries.CanonicalKey inherit this; they differ from the service only on non-ASCII letters.
- PiiMasker.MaskEmail: indices and lengths count Unicode scalar values, where .NET counts UTF-16 code units. Results differ when the local part has a character outside the Basic Multilingual Plane: "😀@x.com" gives "***" here but "😀***@x.com" in .NET. PiiMasker.MaskEmailKeeps states the scalar-value version.
- PiiMasker.MaskPhone, PiiMasker.MaskTckn: keep ASCII digits only, where `char.IsDigit` also keeps other Unicode decimal digits.
- DashboardRoles.NormalizeRole: `toLowerCase` is ASCII case folding. For the two ASCII words compared, it gives the same yes/no answer; the result text is not affected.
- The claims of a JWT are `None` or an object of JSON values. A claims value that is some other JavaScript value is not modelled, and neither is `parseJwt`.
- The hook's `useState` and `localStorage` state, `login` and `logout`, and all dashboard pages and components are not modelled.
- `backend/src/CloakAPI.Api/Program.cs` is not part of this model. It covers token issuance and a weather sample.

## Findings

| source | as written | input that shows it | evidently intended | confidence | as-written member | corrected member |
|---|---|---|---|---|---|---|
| backend/src/CloakAPI.Guardrail/Program.cs:121 | `(p - 1) * ps` is computed in unchecked 32-bit arithmetic | page=2147483647, pageSize=20: the offset wraps to -40 | a non-negative offset of (page - 1) * pageSize rows, 42949672920 here, which is past every row | not executed | AdminQueries.SkipRowsAsWritten, AdminQueries.SkipRowsOverflow | AdminQueries.SkipRows, AdminQueries.PageHoldsRow |
| backend/src/CloakAPI.Guardrail/JsonMaskingService.cs:174 | a string is put back with `node.ReplaceWith`, which does nothing to a node without a parent; the root is serialised at line 61 | a body that is the JSON string "1.2.3.4": it comes back unchanged, yet the report counts one masked value at "$" and the decision is Mask | the root string replaced by its masked text, "1.***.***.4" | not executed | JsonMasking.MaskDocumentAsWritten, JsonMasking.RootQuadDocument | JsonMasking.MaskDocument, JsonMasking.RootStringDocument |
