# User directory query: a Dafny model

This project models the server and client halves of the user directory's
list query in a small Next.js application:

- `GET /api/users`. It reads `search`, `sortBy`, `sortOrder`, `pageIndex`
  and `pageSize` from the request URL. It keeps the users whose name or
  e-mail contains the lower-cased search text, ignoring case. It sorts them
  by the named field, comparing the fields' lower-cased text. It returns one
  page of them together with `total`, the number of users that matched.
- `buildQueryParams`. The client library uses it to turn a
  `FetchUsersParams` record into the query string that the handler reads.

Modules:

- `Optional`: the `Option` type.
- `JsString`: the JavaScript string behaviour the code relies on.
  - ASCII `toLowerCase`.
  - `includes`.
  - Truthiness, and `OrElse`, the definition of the `||` fallback on strings.
  - `<` on strings, which compares UTF-16 code units. It is proved to be the
    lexicographic order of the strings' UTF-16 encodings, and it has order lemmas.
- `JsNumber`: `parseInt` and `String(n)`.
  - `parseInt` skips leading white space, reads an optional sign, reads a
    `0x` prefix as hexadecimal, then takes the longest digit prefix. It gives
    `NaN` when there is no digit.
  - Numbers are either `NaN` or an integer. `Mul` and `Add` are the
    definitions of `*` and `+`, which carry `NaN` through.
- `JsArray`: `RelativeIndex` and `Slice` are the definitions of
  `Array.prototype.slice`. They resolve relative (negative) indices, clip to
  the array, and read `NaN` as 0.
- `SearchParams`: `URLSearchParams` as an ordered list of name/value pairs.
  - `get` returns the first value.
  - `set` replaces the first occurrence and removes the others, or appends.
  - The class `URLSearchParams` holds the list and updates it in place.
- `Api`: the `User` and `FetchUsersParams` types, and `BuildQueryParams`.
  `BuildQueryParams` is an imperative method on a `URLSearchParams` object,
  proved equal to the pure `QueryPairs`.
- `UserSort`: the comparator and the sort.
  - The sort of the handler is `SortInPlace`, an in-place insertion sort on an
    `array<User>`.
  - It is proved equal to `SortUsers`, a functional stable insertion sort.
  - `SortUsers` is proved to be a permutation, ordered by the comparator, and
    stable.
  - `SortUnique` proves that a stable sort under this comparator has only one
    possible result. So `SortUsers` is the order any stable
    `Array.prototype.sort` produces with this comparator.
- `UsersRoute`: the request parsing, the filter, the pure response `Respond`,
  and the handler `Get`.
  - `Get` works on an `array<User>` and is proved to return `Respond`.
  - As in the source, when the search is empty the handler sorts the loaded
    users array itself. So `Get` modifies `users` and says how.

`parseInt` on a page value that is not numeric gives `NaN`, and the handler
then answers an empty page. The handler does not fall back to the defaults 0
and 10; the defaults apply only to absent or empty values. The handler has no
fallback for non-numeric values: see `UsersRoute.NonNumericPageIsEmpty`.

## Model

| member | source | states |
|---|---|---|
| UsersRoute.ParseRequest | app/api/users/route.ts:17-22 | the search text has no upper-case letter and is "" when absent; sortOrder is "asc" when absent; pageIndex and pageSize are 0 and 10 when absent or empty |
| UsersRoute.FilterMembership | app/api/users/route.ts:27-31 | a user is in the filtered list if and only if it was loaded and its lower-cased name or e-mail contains the search text |
| UsersRoute.FilterKeepsOrder | app/api/users/route.ts:27-31 | the filtered list is a subsequence of the loaded list, so the original order is kept |
| UsersRoute.FilterCount | app/api/users/route.ts:27-31 | the filtered list has exactly as many entries as there are matching positions in the loaded list |
| UsersRoute.EmptySearchKeepsAll | app/api/users/route.ts:25-26 | with no search text every loaded user is kept, in order |
| UsersRoute.FilterArray | app/api/users/route.ts:27-31 | the array the filter builds is new and holds exactly the filtered list |
| UsersRoute.Get | app/api/users/route.ts:14-56 | the response is the pure response for the parsed request; the loaded array is sorted in place exactly when the search is empty and sortBy is set, and is unchanged otherwise |
| UsersRoute.TotalIsMatchCount | app/api/users/route.ts:24-46 | total is the number of matching users, whatever the sort and the page |
| UsersRoute.ArrangePermutes | app/api/users/route.ts:34-44 | sorting yields a permutation of the filtered users; with no sortBy the order is the filter's |
| UsersRoute.PageWindow | app/api/users/route.ts:48-50 | for pageIndex >= 0 and pageSize >= 1 the page is the window starting at pageIndex*pageSize, of length min(pageSize, total - start) or empty past the end |
| UsersRoute.NonNumericPageIsEmpty | app/api/users/route.ts:49-50 | a page index or size that parses as NaN gives an empty page |
| UsersRoute.RequestRoundTrip | app/lib/api.ts:28-46 | the handler reads back what the client sends: lower-cased search, sortBy, sortOrder defaulting to "asc", and the page pair or the defaults 0 and 10 |
| UserSort.FieldText | app/api/users/route.ts:37-38 | a field name yields text exactly when it names one of the six User fields |
| UserSort.SortKey | app/api/users/route.ts:37-38 | the comparison key exists exactly for a User field, and is that field's text lower-cased |
| UserSort.Compare | app/api/users/route.ts:40-42 | the comparator returns -1, 0 or 1 |
| UserSort.CompareConsistent | app/api/users/route.ts:40-42 | the comparator is antisymmetric and returns 0 exactly for equal keys |
| UserSort.BeforeMeans | app/api/users/route.ts:40-41 | for "asc" the comparator puts a before b when a's key is less; for any other order when b's key is less |
| UserSort.BeforeAsymmetric | app/api/users/route.ts:40-41 | two keys are never each before the other, and a key is never before itself |
| UserSort.NotBeforeTransitive | app/api/users/route.ts:40-42 | "not before" is transitive, so the comparator is a consistent total preorder |
| UserSort.SortPermutes | app/api/users/route.ts:36-43 | the stable sort is a permutation of its input, of the same length |
| UserSort.SortInOrder | app/api/users/route.ts:36-43 | the stable sort leaves no element before another that the comparator puts first |
| UserSort.SortStable | app/api/users/route.ts:36-43 | records with equal keys keep their relative order |
| UserSort.SortKeepsSorted | app/api/users/route.ts:36-43 | a list already in comparator order is left unchanged |
| UserSort.SortUsersPermutes | app/api/users/route.ts:36-43 | sorting by a field is a permutation of its input |
| UserSort.SortedKeys | app/api/users/route.ts:36-43 | with "asc" the keys are non-decreasing, with any other order non-increasing |
| UserSort.SortUsersStable | app/api/users/route.ts:36-43 | sorting by a field keeps the relative order of users whose keys are equal |
| UserSort.SortIdempotent | app/api/users/route.ts:35-44 | sorting twice by the same field and order equals sorting once |
| UserSort.UnknownFieldKeepsOrder | app/api/users/route.ts:37-42 | a sortBy that names no field makes every comparison 0, so the order is kept |
| UserSort.SortedAgree | app/api/users/route.ts:36-43 | two sequences that are sorted by the comparator, hold the same records, and keep each key's records in the same order are equal |
| UserSort.SortUnique | app/api/users/route.ts:36-43 | any permutation of the input that is sorted by the comparator and keeps each key's records in input order is SortUsers of the input |
| UserSort.IdsCompareAsText | app/api/users/route.ts:37-40 | ids compare as text: in ascending order id 10 comes before id 9 |
| UserSort.InsertAt | app/api/users/route.ts:36-43 | one pass shifts larger records right and puts a[i] in place: a[..i+1] becomes the insertion of a[i] into a[..i], and the rest of the array is unchanged |
| UserSort.SortInPlace | app/api/users/route.ts:36-43 | the array ends as the stable sort of its old contents |
| Api.QueryPairsSearch | app/lib/api.ts:31-33 | search is sent exactly when it is non-empty, with its value |
| Api.QueryPairsPage | app/lib/api.ts:35-38 | pageIndex and pageSize are sent together, exactly when both are defined, as decimal text |
| Api.QueryPairsSort | app/lib/api.ts:40-43 | sortBy is sent exactly when non-empty, and sortOrder with it, "asc" when undefined |
| Api.QueryPairsNames | app/lib/api.ts:28-45 | only the five names are sent, each at most once, in the order search, pageIndex, pageSize, sortBy, sortOrder |
| Api.SearchStep | app/lib/api.ts:31-33 | setting search on the empty query appends the single search pair |
| Api.PageStep | app/lib/api.ts:35-38 | the two page sets append pageIndex then pageSize after the search pair |
| Api.SortStep | app/lib/api.ts:40-43 | the two sort sets append sortBy then sortOrder after the pairs already there |
| Api.SetAppendsRanked | app/lib/api.ts:29-43 | a set on a name that ranks above every name already present appends the pair at the end |
| Api.BuildQueryParams | app/lib/api.ts:28-46 | the URLSearchParams object ends holding exactly the pairs of QueryPairs |
| SearchParams.GetAbsent | app/api/users/route.ts:18-22 | get returns nothing exactly when no pair carries the name |
| SearchParams.GetFirst | app/api/users/route.ts:18-22 | get returns the value of the first pair carrying the name |
| SearchParams.GetAppend | app/api/users/route.ts:18-22 | get on two lists joined looks in the first list first |
| SearchParams.Without | app/lib/api.ts:32-42 | removing a name leaves no pair with it and keeps what get returns for every other name |
| SearchParams.SetValueGet | app/lib/api.ts:32-42 | after set, get of that name returns the value set |
| SearchParams.SetValueOthers | app/lib/api.ts:32-42 | set leaves get of every other name unchanged |
| SearchParams.SetValueOnce | app/lib/api.ts:32-42 | after set the name occurs at most once |
| SearchParams.SetValueAppends | app/lib/api.ts:32-42 | set on a name not yet present appends the pair at the end |
| SearchParams.URLSearchParams.constructor | app/lib/api.ts:29 | a new query holds no pairs |
| SearchParams.URLSearchParams.Set | app/lib/api.ts:32-42 | set updates the pair list in place to the pure set of the old list |
| JsString.ToLowerCase | app/api/users/route.ts:29-30 | lower-casing keeps the length, leaves no upper-case letter, keeps other characters and maps each upper-case letter to its lower-case one |
| JsString.IncludesIffOccurs | app/api/users/route.ts:29-30 | includes holds exactly when the text occurs at some position |
| JsString.LessIsCodeUnitOrder | app/api/users/route.ts:40-41 | `a < b` exactly when the UTF-16 encoding of a is lexicographically less than that of b, a proper prefix first |
| JsString.CharUnitsLess | app/api/users/route.ts:40-41 | two different characters compare by their UTF-16 code units, whatever follows them |
| JsString.SupplementaryBeforeHighBmp | app/api/users/route.ts:40-41 | a character above U+FFFF sorts before one from U+E000 to U+FFFF, although its code point is larger |
| JsString.LessTransitive | app/api/users/route.ts:40-41 | string < is transitive |
| JsString.LessTrichotomous | app/api/users/route.ts:40-41 | of two strings one is less or they are equal |
| JsString.NotLessIsLessOrEqual | app/api/users/route.ts:40-41 | not a < b exactly when b <= a |
| JsArray.RelativeIndexMonotone | app/api/users/route.ts:50 | a larger slice bound of the same sign never selects an earlier position; with more than one element, -1 selects a later position than 0 |
| JsArray.SliceIsRun | app/api/users/route.ts:50 | a slice is a contiguous run of the array, no longer than it, and an end bound of NaN gives nothing |
| JsArray.SliceLength | app/api/users/route.ts:50 | for bounds 0 <= a <= b the slice holds min(b, length) - min(a, length) elements |
| JsNumber.IntToString | app/lib/api.ts:36-37 | String(n) is non-empty, starts with '-' exactly for negative n, and otherwise starts with a digit |
| JsNumber.NatToStringValue | app/lib/api.ts:36-37 | the decimal digits of n denote n |
| JsNumber.DigitPrefixLongest | app/api/users/route.ts:21-22 | parseInt reads the longest prefix of digits valid in the radix |
| JsNumber.TrimStartDropsSpace | app/api/users/route.ts:21-22 | parseInt first drops exactly the leading white space |
| JsNumber.ParseIntOfIntToString | app/api/users/route.ts:21-22 | parseInt(String(n)) == n for every integer n |
| JsNumber.ParseIntDefaults | app/api/users/route.ts:21-22 | the fallback texts "0" and "10" parse as 0 and 10 |

## Left out

- Loading the users from `db.json` (`getUsersFromDB`, file I/O): `Get` takes the loaded users as its array argument.
- `new URL(req.url)` and `NextResponse.json`: the handler takes the parsed query pairs and returns a `Response` value.
- `URLSearchParams.toString` and percent-encoding: `BuildQueryParams` returns the pair list, which is the string before encoding.
- `fetchUsers`, `createUser`, `updateUser`, `deleteUser` and the axios instance are not part of this model, because they are network calls. The React components are not part of it either.
- JsString.ToLowerCase: maps only the ASCII letters A-Z. Full Unicode case mapping is not modelled.
- JsNumber.ParseInt: models the integer path only. Numbers are unbounded integers or `NaN`. Floating-point rounding, `Infinity`, `-0` and the loss of precision past 2^53 are not modelled.
- JsNumber.Mul: multiplies unbounded integers. A product too large for a double would lose precision in JavaScript.
- UserSort.SortKey: `sortBy` values naming properties inherited from `Object.prototype` (such as `constructor`) are treated as names of no field.
- UserSort.SortInPlace: sorts by insertion. The engine's own algorithm and its order of comparisons are not modelled. Only the final order is, and `UserSort.SortUnique` proves that every stable sort gives that order.
- Concurrency and request timing.
