# Question-paper store backend: a Dafny model

This project models the business logic of a Telegram Mini App backend that sells
university question papers for in-app stars. The logic is taken out of its web
framework and ORM and stated over an in-memory store. It covers:

- **Init-data validation.** This is Telegram's Mini App scheme. The data-check string
  is every entry except `hash`, sorted by key, rendered as `key=value` and joined with
  newlines. It is signed with HMAC-SHA256 under a key derived from the bot token with
  the label `WebAppData`. The result is compared, as lower-case hex, with the received
  `hash`. The guard in front of protected routes is also modelled.
- **The public catalog.** It lists departments, then the semesters of a department,
  then the years of a semester, then the papers of a year.
- **The account handlers.** These are get-or-create user, purchase, purchase history,
  profile statistics and the paper-access check. Each is a pure transition from a
  store `State` (catalog rows plus a map from `telegram_id` to
  `User(stars, purchased)`) to a reply and a new state.

Modules:

| file | module | contents |
|---|---|---|
| wrappers.dfy | `Wrappers` | `Option` |
| seqs.dfy | `Seqs` | duplicate-freedom, `DISTINCT`, counting, Python's `s[-n:]` |
| text.dfy | `Text` | Python's `str` order, `startswith`, SQL `LIKE` prefix, `join` |
| hex.dfy | `Hex` | bytes and `hexdigest()` |
| init_data.dfy | `InitData` | data-check string, verification, auth guard |
| store.dfy | `Store` | paper and user rows, lookup, integrity invariant |
| catalog.dfy | `Catalog` | the four listings |
| account.dfy | `Account` | the account handlers |
| account_properties.dfy | `AccountProperties` | properties that relate the handlers to each other |

HMAC-SHA256 and UTF-8 encoding are fields of the `Crypto` datatype. They are
function values that the model never looks inside, so every property about
verification holds for any implementation of them. The bot token is a parameter.
`json.loads` is a parameter of `Authorize`.

Three behaviours of the code that a reader might expect otherwise:

- When the balance is too low, `requiredStars` is the full paper price (api.py:140). It is not the shortfall `price - stars`.
- Purchase history is the last ten purchases in purchase order, oldest of the ten first (api.py:176). It is not most-recent-first.
- Semester and year listings exclude only the empty string (api.py:74, 86). Sentinel-prefixed semesters and years are not excluded.

## Model

| member | source | states |
|---|---|---|
| InitData.Get | api.py:17 | `get('hash', '')` returns the value of the key when it is present (the only such value in a dict), and the default when it is absent |
| InitData.WithoutHash | api.py:18 | keeps exactly the entries whose key is not `hash`; distinct keys stay distinct |
| InitData.Sort | api.py:18 | `sorted(items)` gives keys strictly ascending in Python's string order, with the same entries and the same count |
| InitData.DataCheckStringOrderFree | api.py:18 | two payloads with the same entries have the same data-check string, whatever order the keys arrive in |
| InitData.DataCheckStringIgnoresHash | api.py:17-18 | setting or changing the `hash` value never changes the data-check string |
| InitData.SetHashKeepsDict | api.py:17 | after `d['hash'] = h`, keys are still distinct and `get('hash', '')` reads back `h` |
| InitData.DataCheckString | api.py:18 | the string equals the `k=v` lines of any ascending arrangement of the non-`hash` entries, joined by `\n` |
| InitData.SecretKey | api.py:19 | the key derived from the token with label `WebAppData` is a 32-byte digest whenever HMAC-SHA256 yields 32 bytes |
| InitData.ExpectedHash | api.py:19-20 | the computed digest text consists only of lower-case hexadecimal digits |
| InitData.Verify | api.py:14-23 | a non-object payload fails; an object verifies iff its `hash` (empty when absent) equals the hex HMAC, under the key derived from the token, of the newline-joined `k=v` lines of its non-`hash` entries in ascending key order |
| InitData.VerifyExactlyExpectedHash | api.py:17-21 | with the other entries fixed, a payload verifies exactly when its `hash` is the expected digest of those entries |
| InitData.VerifyRejectsNonHex | api.py:20-21 | a `hash` that holds any character outside lower-case hex (an upper-case digest, say) is always rejected |
| InitData.Authorize | api.py:25-32 | a missing or empty header is 401; a non-empty header that does not parse is `Malformed`, the exception that escapes; a parsed header is let through iff it verifies, and what is let through is exactly the payload parsed from the header, an object whose `hash` matches its own digest |
| InitData.VerifyNeedsFullDigest | api.py:17-21 | with a 32-byte HMAC, a payload whose `hash` is missing or not 64 characters long never verifies |
| Hex.Encode | api.py:20 | `hexdigest()` produces two lower-case hex digits per byte |
| Hex.DecodeEncode | api.py:20 | the hex text reads back to the digest, so comparing hex text compares digests |
| Hex.EncodeInjective | api.py:20-21 | different digests never render to the same hex text |
| Text.Less | api.py:18 | Python's `str` order used by `sorted`: it never relates a string to itself, and a proper prefix sorts first |
| Text.LikePrefix | api.py:63 | SQL `LIKE` with the pattern followed by `%`, where `_` matches any one character; on a pattern with no `_` it is exactly `startswith` |
| Text.Join | api.py:18 | `'\n'.join(parts)` starts with the first part and is as long as the parts plus one separator between each neighbouring pair |
| Text.LikeDoubleUnderscore | api.py:63 | the SQL pattern `'__%'` matches every string of two or more characters |
| Seqs.Distinct | api.py:64 | `DISTINCT` keeps each value exactly once and loses none |
| Seqs.Tail | api.py:176 | for a positive `n`, `s[-n:]`; with `n = 10` it has `min(10, len(s))` elements, which are the last ones of `s` in their original order |
| Store.FindPaper | api.py:118 | the paper lookup finds a row with that id, or finds nothing exactly when no row has it |
| Store.Resolve | api.py:124 | `user.purchased_papers` holds only catalog rows whose ids were purchased, never more rows than ids |
| Store.PurchasedPapers | api.py:195-196 | in a valid store, one catalog row per purchased id, in purchase order |
| Store.ResolveAppend | api.py:130 | appending a paper id appends its row at the end of `purchased_papers` |
| Store.ResolveTotal | api.py:195-196 | when every purchased id has a row, `purchased_papers` has one row per id, in order |
| Catalog.Departments | api.py:58-67 | corrected listing: duplicate-free, and holds `d` iff `d` is non-empty, does not start with `__`, and is some paper's department |
| Catalog.DepartmentsAsWritten | api.py:61-64 | listing as written: holds `d` iff `d` is non-empty, fails the unescaped `LIKE '__%'`, and is some paper's department |
| Catalog.DepartmentsAsWrittenOnlySingleChars | api.py:61-64 | as written, every listed department has exactly one character |
| Catalog.DepartmentsAsWrittenHidesCse | api.py:61-64 | a catalog with department `CSE` lists it when corrected and lists nothing as written |
| Catalog.Semesters | api.py:69-78 | duplicate-free; holds `v` iff `v` is non-empty and is the semester of a paper in the department; an unknown department gives `[]` |
| Catalog.Years | api.py:80-90 | duplicate-free; holds `v` iff `v` is non-empty and is the year of a paper with that department and semester; an unmatched filter gives `[]` |
| Catalog.Papers | api.py:92-107 | holds exactly the summaries of papers matching all three filters whose name is not a sentinel; no sentinel name appears; duplicate-free when ids are unique |
| Account.GetUser | api.py:36-53 | after the call the user exists; an existing user's record and the whole store are untouched; an absent user is added with 0 stars and no purchases; the reply shows the stored balance |
| AccountProperties.GetUserIdempotent | api.py:41-47 | a second call returns the same reply and state, and exactly one record exists for the caller |
| AccountProperties.GetUserPreservesValid | api.py:43-47 | get-or-create keeps the store's integrity invariant |
| Account.Purchase | api.py:111-141 | not-found iff the user or paper is missing; already-owned iff owned; only a covered purchase changes the store, by debiting exactly the price and appending the id, with no other user or paper touched; a short balance yields `requiredStars` = price |
| AccountProperties.PurchasePreservesValid | api.py:124-130 | a purchase keeps ids resolving and the purchased list duplicate-free |
| AccountProperties.PurchasePreservesBalances | api.py:128-129 | if every balance is non-negative before a purchase, it stays so after |
| AccountProperties.RepeatPurchaseRefused | api.py:124-126 | repeating a successful purchase is refused as already purchased and changes nothing, so the price is debited once |
| AccountProperties.PurchaseConservesValue | api.py:128-130 | stars plus the current price of the papers owned is the same before and after any purchase |
| AccountProperties.PurchaseGrantsAccess | api.py:128-134 | after a successful purchase the paper can be requested and is the last entry of the history |
| AccountProperties.AccessAgreesWithPurchase | api.py:224-230 | request-paper grants access exactly when purchase would refuse as already owned; both report not-found alike |
| AccountProperties.PurchaseReplyFields | api.py:120-141 | `success` iff user and paper exist and the paper is not owned; `requiresPayment` is true iff additionally stars < price and false iff the purchase went through; a failure carries no `requiresPayment` and the message of the check that failed: "User or paper not found" or "You have already purchased this paper" |
| AccountProperties.AccessReplyFields | api.py:224-233 | `success` iff user and paper exist and the paper is owned; a failure carries "User or paper not found" or "You have not purchased this paper" according to the check that failed |
| AccountProperties.ShortfallThenTopUp | api.py:128-141 | 5 stars against price 10 asks for 10 stars and changes nothing; with 10 stars the purchase succeeds, leaving 0 |
| Account.PurchaseHistory | api.py:158-179 | unknown user gives `[]`; otherwise the last `min(10, n)` purchased papers in purchase order, never more than 10 |
| Account.GetProfile | api.py:183-212 | 404 iff the user is unknown; `total_papers` is the count, `total_spent` the sum of current prices, and the department table maps each department present to its number of papers |
| Account.TotalPrice | api.py:196 | the sum of the prices; with no negative price it is non-negative and at least each single price |
| Account.DepartmentStats | api.py:199-203 | the loop's table has exactly the departments of the papers as keys, each mapped to its number of papers |
| Account.DepartmentStatsAddUp | api.py:195-203 | summed over its keys, the department table equals `total_papers` |
| Account.RequestPaper | api.py:216-233 | not-found iff the user or paper is missing; granted iff both exist and the paper is owned |

## Left out

- Flask routing, CORS and `jsonify` are not modelled. Nor is reading the `X-Telegram-Init-Data` header; its text is a parameter of `Authorize`. `json.loads` is the `parse` parameter.
- SQLAlchemy sessions, `commit`, `refresh` and `close`, and the `database` and `config` modules, are not part of this model. The store is the `State` value, and the bot token is a parameter.
- The handlers take the caller's `telegram_id` directly. Extracting it with `init_data.get('user', {}).get('id')` is left out, as is the case where that id is missing (`None`).
- The internals of HMAC-SHA256 and UTF-8 encoding are left out. They are opaque function values. The 32-byte digest size is stated separately as `Sha256Sized` and assumed only by the lemmas that need it.
- Init-data values are taken as the text Python's `str()` gives them, for strings made of Unicode scalar values. The rendering of the nested `user` object is left out. A `hash` value that is not a string is left out too.
- `str.encode()` (api.py:20) raises `UnicodeEncodeError` on a lone surrogate, which a `\ud800` escape in the header produces, and api.py:22-23 then makes verification fail. This path is not represented: Dafny strings hold only Unicode scalar values, and `Crypto.utf8` is total.
- `Malformed` stands for the exception `json.loads` raises inside the guard. The framework turns it into a server error, and that error response is not modelled.
- Concurrent purchases, and the double-spend race between them, are left out. The model is single-threaded.
- `create_invoice` (api.py:143-154) is a mock URL with no logic, and is left out.
- `purchase_date` in the history (api.py:175) is left out. It depends on a schema that is not shown.
- `first_name` in the `get_user` reply (api.py:51) is echoed from the request and is not stored. It is left out.
- `request.json.get('paperId')` (api.py:114) is not modelled. Purchase takes the paper id as an integer parameter. A missing JSON body, a missing `paperId` key and a non-integer id are left out.
- Ownership is decided by paper id. The ORM compares paper objects, which its identity map makes the same thing.
- `purchased_papers` is assumed to keep insertion order. SQL leaves the order of rows without `ORDER BY`, and of `DISTINCT` results, unspecified. This model chooses table order for listed rows and first occurrences for `DISTINCT`. The contracts speak only of membership and duplicate-freedom wherever the database leaves the order open.
- SQL `NULL` column values are not modelled.
- `Text.LikePrefix` covers only `LIKE` patterns without `%` and without letters, which is all the source uses (`__`). Case-insensitive `LIKE` on letters does not arise.

## Findings

| source | as written | input that shows it | evidently intended | confidence | as-written member | corrected member |
|---|---|---|---|---|---|---|
| api.py:63 | `~QuestionPaper.department.startswith("__")` becomes `NOT (department LIKE '__%')`. SQLAlchemy does not escape `_` by default, and `_` matches any one character, so every department name of two or more characters is dropped | a catalog with one paper in department `CSE`: the listing is empty | drop only departments that literally start with `__`, for example with `startswith("__", autoescape=True)` | likely; not executed (depends on SQLAlchemy's default `autoescape=False`) | Catalog.DepartmentsAsWrittenHidesCse | Catalog.Departments |
