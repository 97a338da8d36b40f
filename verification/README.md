# Chirpy core, modelled in Dafny

Chirpy is an HTTP backend for short posts ("chirps"). Most of it decodes JSON,
runs SQL queries and writes responses. This project models the parts that make
decisions on their own, and proves what they guarantee:

- **Credential extraction** (`internal/auth/authentication.go`).
  `GetBearerToken` reads the token out of an `Authorization: Bearer <token>`
  header. This is a loose reading of section 2.1 of RFC 6750.
  `MakeRefreshToken` hex-encodes 256 random bytes into a 512-character token
  (base16 with lower-case digits, section 8 of RFC 4648).
- **Chirp moderation** (`chirps.go`, `validate.go`). `validateChirp` refuses
  bodies over 140 bytes. `replaceProfane` masks the words `kerfuffle`,
  `sharbert` and `fornax` in any case. It is used by the validate endpoint and
  by chirp creation.
- **Listing and deletion rules** (`chirps.go`). The `sort` query value is
  normalised and the chirps are sorted by creation time. A chirp may be
  deleted only by its author.

Modules: `GoStrings` (the `strings.Split`, `strings.Join` and
`strings.ToLower` behaviour the core relies on), `Auth`, `Moderation`,
`Chirps`, and a small `Options` module.

Modelling choices:

- A Go `string` is a byte sequence and `len` counts bytes. A string is
  written as a Dafny `string` whose characters each stand for one byte, so
  `|s|` is `len(s)`. The random buffer is a `seq<byte>`/`array<byte>`.
- `replaceProfane(s *string)` and `validateChirp(body *string)` write through
  a pointer. The pointed-to variable is the class `Moderation.StringVar`, and
  both methods state its new value. The split slice that `replaceProfane`
  overwrites field by field is an array.
- `sort.Slice` sorts in place, so `Chirps.SortChirps` sorts an array in place.
- The random reader, the session-token validator and the database are
  parameters. `MakeRefreshToken` takes the bytes the random source can
  deliver. `HandleDelete` takes the outcome of each call it makes.

Where the code departs from the standards it follows, the model follows the
code:

- Section 2.1 of RFC 6750 requires a non-empty token after the scheme. The
  code accepts `Bearer ` with an empty token, returns `""` for `Bearer  x`
  (two spaces), and drops extra fields.
- A failed random read is not reported: `MakeRefreshToken` returns `""` with
  a nil error.
- The repository defines `replaceProfane` twice with identical text, in
  chirps.go and validate.go. Both files are in one Go package, so the package
  would not compile as shown. The model has a single definition, and both
  call sites use it.

## Model

| member | source | states |
|---|---|---|
| `Auth.GetBearerToken` | internal/auth/authentication.go:66-78 | An empty or absent Authorization header gives "no authorization header". Any other header succeeds exactly when it starts with `Bearer ` (case-sensitive); if not, it is malformed. On success the token has no space, `"Bearer " + token` opens the header, and the header ends there or goes on with a space. |
| `Auth.SchemeFields` | internal/auth/authentication.go:72-73 | Splitting on `" "` gives at least two fields with `Bearer` first exactly when the header starts with `Bearer `. The second field is then the first field of the rest. |
| `Auth.TokenUnique` | internal/auth/authentication.go:72-77 | At most one token fits the description in GetBearerToken's contract, so that contract fixes the result: the second field, with later fields dropped. |
| `Auth.BearerExamples` | internal/auth/authentication.go:67-77 | No header gives "no authorization header". `bearer x` is malformed. `Bearer a b` gives `a`. `Bearer ` and `Bearer  x` both give the empty token. |
| `Auth.HexEncode` | internal/auth/authentication.go:86 | The encoding is twice as long as the bytes, and every character is one of `0-9a-f`. |
| `Auth.HexRoundTrip` | internal/auth/authentication.go:86 | Decoding the hex encoding gives back the original bytes. |
| `Auth.HexInjective` | internal/auth/authentication.go:86 | Distinct byte buffers have distinct encodings. |
| `Auth.ReadRandom` | internal/auth/authentication.go:81-82 | The read succeeds exactly when the random source can fill the buffer, and then fills it with the source's first bytes. When it fails, the buffer is left unchanged. |
| `Auth.MakeRefreshToken` | internal/auth/authentication.go:80-88 | The error result is always nil. If the random read fails, the token is `""`. Otherwise it is 512 lower-case hex digits that decode to the 256 bytes read. |
| `Moderation.CleanWord` | chirps.go:83-86 | A field whose lower-cased form is a banned word becomes `****`, which is shorter. Every other field is kept exactly, including its case. |
| `Moderation.ReplaceProfane` | chirps.go:79-90 | After the call, `*s` is the split-clean-join result of the old value. |
| `Moderation.CleanedFields` | validate.go:37-46 | The output has as many `" "`-separated fields as the input. Field i is `****` when input field i, lower-cased, is `kerfuffle`, `sharbert` or `fornax`. Otherwise it is input field i unchanged. |
| `Moderation.NothingProfaneLeft` | chirps.go:83-85 | No output field, lower-cased, is a banned word. |
| `Moderation.MaskIsClean` | chirps.go:84-85 | `****` is not a banned word in any case. |
| `Moderation.CleanedIdempotent` | chirps.go:80-89 | Cleaning an already cleaned string changes nothing. |
| `Moderation.CleanedUnchanged` | validate.go:37-46 | The filter leaves a string unchanged exactly when none of its fields is a banned word, ignoring case. |
| `Moderation.CleanedNotLonger` | validate.go:41-42 | The output is never longer than the input. |
| `Moderation.CleanedConcat` | validate.go:37-46 | Cleaning `x + " " + y` gives `Cleaned(x) + " " + Cleaned(y)`: each space-separated part is filtered on its own. |
| `Moderation.CleanedWord` | validate.go:39-43 | A string without a space is one field, and is cleaned as one word. |
| `Moderation.CleanedEmpty` | validate.go:37-46 | `""` maps to `""`. |
| `Moderation.CleanedMasksAnyCase` | chirps.go:83-85 | `KerFuffle` becomes `****`. |
| `Moderation.CleanedKeepsPunctuated` | validate.go:40-41 | `Sharbert!` is not a banned word and is kept as it is. |
| `Moderation.ValidateChirp` | chirps.go:70-77 | Returns true exactly when the body is at most 140 bytes. If so, the body becomes its cleaned form. If not, the body is left untouched. |
| `Moderation.HandleValidateChirp` | validate.go:25-33 | A body over 140 bytes gets the 400 "too long" answer and is not cleaned. Any other body is answered with its cleaned form as `cleaned_body`. |
| `Moderation.CreateChirpBody` | chirps.go:47-50 | Chirp creation gets the same answer: a body over 140 bytes is refused with 400. Otherwise the cleaned body is the one stored, the same cleaning the validate endpoint applies. |
| `Moderation.AcceptedBodyFits` | chirps.go:70-76 | A body that passes the 140-byte gate still fits in 140 bytes after cleaning. |
| `Chirps.NormaliseSortOrder` | chirps.go:94-97 | The order is descending exactly when the query value is `desc`. Every other value, including empty and `DESC`, means ascending. |
| `Chirps.SortChirps` | chirps.go:119-124 | After the in-place sort, no chirp comes before one it should follow under the comparator for the order (`After` for desc, `Before` for asc). The slice holds the same chirps as before. |
| `Chirps.ListChirps` | chirps.go:94-136 | The listed chirps are exactly the fetched ones, as a multiset, ordered by creation time in the normalised direction. |
| `Chirps.OrderedTimesDetermined` | chirps.go:119-124 | Any two orderings of the same chirps list the same creation times, position by position. Only chirps with equal timestamps can trade places. |
| `Chirps.HandleDelete` | chirps.go:169-205 | The delete query runs exactly when the token validates, the chirp exists and its author is the token's user. The answer is 403, with no delete, exactly when an existing chirp belongs to someone else. 204 means the delete ran and succeeded. Without a validated user the answer is 401. |

## Left out

- `HashPassword` and `CheckPasswordHash` (internal/auth/authentication.go:16-31) are thin wrappers over bcrypt, a library that is not part of this model.
- `MakeJWT` and `ValidateJWT` (internal/auth/authentication.go:33-64) hand signing and verification (HS256 JSON Web Tokens) to a library and read the wall clock. `HandleDelete` takes the validator as a parameter.
- `GetAPIKey` is called by the webhook handler, but no shown file defines it. It is not part of this model.
- Refresh-token expiry and revocation run in SQL queries, which are not part of this model.
- HTTP and JSON plumbing is left out: request decoding (and its 500 answer), database calls, response writing, routing, the users, webhook and reset handlers, and `handlerGetChirp`. `handlerCreateChirp` is modelled only from its body check on; its token handling and insert are left out.
- The `author_id` filter of `handlerGetChirps` picks one of two SQL queries after a `uuid.Parse`. Both are outside the model, so `ListChirps` starts from the fetched rows.
- The `fileserverHits` counter in metrics.go is an atomic counter shared by concurrent requests. This is concurrency plumbing.
- `GoStrings.ToLower` lower-cases ASCII letters only. Go's `strings.ToLower` is Unicode-aware: it maps, for example, the Kelvin sign in `Kerfuffle` to `k`, so that word would be masked in Go but not in the model.
- Timestamps are integers and UUIDs are 128-bit integers. Time zones and monotonic clock readings are not modelled.
- `Auth.ReadRandom`: a failed read leaves the buffer unchanged. Go may fill it partly, but `MakeRefreshToken` discards the buffer on failure, so this does not change any result.
- `Chirps.SortChirps` is an insertion sort. `sort.Slice` uses a different algorithm, and only the contract is shared: an ordered permutation. The placement of chirps with equal timestamps can differ.
- `Auth.Get` takes the header name already in canonical form (`Authorization`), as `Header.Get` canonicalises its argument.
