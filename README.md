# flask-request-id-header in Dafny

A model of the `RequestID` middleware of `flask_request_id_header`. The middleware makes sure that
every request, and the response to it, carries at least one unique value in the `X-Request-ID`
header.

- The incoming header value is a comma-separated list of tokens, as section 4.2 of RFC 2616 allows
  for repeated headers.
- A token is *unique* when it contains the configured trusted prefix anywhere, or when it parses as a
  UUID.
- When some token is unique, the header is forwarded byte for byte. When none is, one freshly
  generated version-4 UUID (section 4.4 of RFC 4122) is appended after a comma. When there is no
  header at all, the generated UUID is the whole value.
- The value is written into the WSGI environ under `HTTP_X_REQUEST_ID`. It is also appended to the
  response headers as one `("X-Request-ID", value)` pair.

Files, one module each:

- `wrappers.dfy`: `Option` (Python's `Optional`) and `Get` (`dict.get`).
- `strings.dfy`: the `str` operations of the middleware and of the `uuid` module it calls. These
  are `split` on one character, `p in t`, `replace(pat, '')`, `strip`, ASCII `upper()` and a
  one-character `replace`. It adds `join` as the tests use it and ASCII `lower()` for the
  case-insensitivity lemma. It also holds the lemmas about these operations, such as the
  split/join round trips and the token count.
- `uuid.dfy`: the textual parse done by `UUID(s, version=4)`, which returns `None` where Python
  raises `ValueError`. It also holds the generator `str(uuid4())`, which takes the 16 random bytes as
  a parameter.
- `reconciler.dfy`: `_request_id_unique` and the specification function `Reconcile` of
  `_compute_request_id_header`, with the lemmas about the result.
- `middleware.dfy`: the environ-key derivation and the class `RequestID`. The class holds the loop
  method `ComputeRequestIdHeader`, proved equal to `Reconcile`. `Call` updates an `Environ` object in
  place. It returns the `new_start_response` closure as a `NewStartResponse` object that holds the
  computed value. Calling that object appends to a `ResponseHeaders` object in place.

Two properties of the code are worth stating on their own:

- The class docstring (`flask_request_id_header/middleware/__init__.py:19-21`) calls a value unique
  when it "is a valid UUID (version 4)". Line 94 calls `UUID(s, version=4)`, which only *sets* the
  version bits of the parsed value and never checks them. So any text counts as unique when it is
  exactly 32 hexadecimal digits once `urn:`, `uuid:`, the surrounding braces and the hyphens are
  removed, whatever its version digit. For example, 32 digits in either case, with or without the
  8-4-4-4-12 hyphens, always pass (`HyphenatedIsUuid`, `UnhyphenatedIsUuid`). `ParseUuid` models
  what the code accepts, apart from the `int(h, 16)` spellings listed under "Left out".
- Reconciliation is idempotent. With a generator that yields UUIDs, reconciling an already
  reconciled value always returns it unchanged, whatever the second generated value is
  (`ReconcileIdempotent`).

## Model

| member | source | states |
|---|---|---|
| `Wrappers.Get` | flask_request_id_header/middleware/__init__.py:44 | `environ.get(key)` is `Some` exactly when the key is present, and then holds its value |
| `Strings.Split` | flask_request_id_header/middleware/__init__.py:66 | `split(',')` always yields at least one token, and no token contains the separator |
| `Strings.Join` | tests/test_flask_request_id_middleware_request_id_header.py:70-72 | `','.join(parts)` starts with the first part |
| `Strings.SplitJoin` | flask_request_id_header/middleware/__init__.py:66 | joining the tokens of a split with the separator gives back the original header, byte for byte |
| `Strings.JoinSplit` | tests/test_flask_request_id_middleware_request_id_header.py:66-72 | splitting a join of separator-free tokens gives back the same tokens in the same order |
| `Strings.SplitWithoutSeparator` | flask_request_id_header/middleware/__init__.py:66 | a string without a comma is a single token |
| `Strings.SplitConcat` | flask_request_id_header/middleware/__init__.py:66-72 | the tokens of `a + "," + b` are the tokens of `a` followed by the tokens of `b` |
| `Strings.SplitCount` | flask_request_id_header/middleware/__init__.py:66 | the number of tokens is the number of commas plus one |
| `Strings.Contains` | flask_request_id_header/middleware/__init__.py:90 | `p in t` always holds for an empty `p`, and never holds for a `p` longer than `t` |
| `Strings.ContainsAt` | flask_request_id_header/middleware/__init__.py:90 | `p in t` holds exactly when `p` starts at some position of `t` |
| `Strings.ContainsInfix` | flask_request_id_header/middleware/__init__.py:90 | `p in a + p + b` holds for every `a` and `b`, not only at the start |
| `Strings.RemoveAll` | flask_request_id_header/middleware/__init__.py:94 | `replace(pat, '')` never makes a string longer |
| `Strings.RemoveAllKeeps` | flask_request_id_header/middleware/__init__.py:94 | `replace(pat, '')` keeps every character that is not part of `pat` |
| `Strings.RemoveAllAbsent` | flask_request_id_header/middleware/__init__.py:94 | `replace(pat, '')` changes nothing when a character of `pat` is missing from the string |
| `Strings.Strip` | flask_request_id_header/middleware/__init__.py:94 | `strip(chars)` never lengthens the string, and leaves no character of `chars` at either end |
| `Strings.StripIsPiece` | flask_request_id_header/middleware/__init__.py:94 | what `strip(chars)` leaves is a contiguous piece of the original string |
| `Strings.StripKeeps` | flask_request_id_header/middleware/__init__.py:94 | `strip(chars)` keeps every character not in `chars` |
| `Strings.Upper` | flask_request_id_header/middleware/__init__.py:39 | `upper()` keeps the length and upper-cases each character, leaving no ASCII lower-case letter |
| `Strings.ReplaceChar` | flask_request_id_header/middleware/__init__.py:39 | `replace('-', '_')` keeps the length and swaps exactly the matching characters |
| `Uuid.HexValue` | flask_request_id_header/middleware/__init__.py:94 | the value of `n` hexadecimal digits is below `16^n` |
| `Uuid.HexPart` | flask_request_id_header/middleware/__init__.py:94 | the text the UUID parser reads its digits from, after removing `urn:`, `uuid:`, braces and hyphens, is never longer than the input |
| `Uuid.CommaReachesHexPart` | flask_request_id_header/middleware/__init__.py:94 | a comma survives every removal step of the UUID parser into the digit text |
| `Uuid.ParseUuid` | flask_request_id_header/middleware/__init__.py:93-97 | a successful parse gives a 128-bit value. Only strings of at least 32 characters parse, and none that contains a comma, so a UUID is always a whole token |
| `Uuid.IsUuid` | flask_request_id_header/middleware/__init__.py:93-97 | a string that passes the `UUID(s, version=4)` test is at least 32 characters long and free of commas |
| `Uuid.SetVersion4` | flask_request_id_header/middleware/__init__.py:109 | `uuid4()` sets the version nibble of byte 6 to 4 and the top bits of byte 8 to `10`, and keeps every other bit |
| `Uuid.HexOfBytes` | flask_request_id_header/middleware/__init__.py:109 | the hexadecimal text of `uuid4()` has two lower-case digits per byte |
| `Uuid.HexOfBytesValue` | flask_request_id_header/middleware/__init__.py:109 | reading the hexadecimal text of the bytes back gives their big-endian value |
| `Uuid.HyphenateAt` | flask_request_id_header/middleware/__init__.py:109 | `str(uuid)` puts hyphens at positions 8, 13, 18 and 23 and the 32 digits, in order, everywhere else |
| `Uuid.HexPartOfHyphenated` | flask_request_id_header/middleware/__init__.py:94 | parsing the hyphenated text of 32 hexadecimal digits, in either case, gives back exactly those digits |
| `Uuid.HyphenatedIsUuid` | flask_request_id_header/middleware/__init__.py:93-95 | any 32 hexadecimal digits in the 8-4-4-4-12 form pass the UUID test and parse to their value, whatever their version digit |
| `Uuid.UnhyphenatedIsUuid` | flask_request_id_header/middleware/__init__.py:93-95 | any 32 hexadecimal digits without hyphens pass the UUID test and parse to their value, whatever their version digit |
| `Uuid.CanonicalIsUuid` | flask_request_id_header/middleware/__init__.py:94 | every canonical 8-4-4-4-12 lower-case version-4 text parses, to the value of its 32 digits |
| `Uuid.GenerateRequestId` | flask_request_id_header/middleware/__init__.py:101-109 | the generated ID is a canonical version-4 UUID without a comma, and parsing it gives back the random bytes with the version bits set |
| `Reconciler.NoUniqueTokenExtends` | flask_request_id_header/middleware/__init__.py:67-69 | a scan that found no unique token among the first `i` tokens, and none at `i`, has found none among the first `i + 1` |
| `Reconciler.RequestIdUnique` | flask_request_id_header/middleware/__init__.py:77-99 | an empty prefix makes every token unique. A token that is unique without containing the prefix parses as a UUID, so it has at least 32 characters and no comma |
| `Reconciler.UuidIsUnique` | flask_request_id_header/middleware/__init__.py:93-95 | a token that parses as a UUID is unique whatever prefix is configured |
| `Reconciler.Reconcile` | flask_request_id_header/middleware/__init__.py:53-74 | an incoming header value is always kept as the start of the result |
| `Reconciler.AbsentHeaderIsOneUuid` | flask_request_id_header/middleware/__init__.py:63-64 | with no header, the result is the generated UUID alone: exactly one token, and that token is unique |
| `Reconciler.UniqueTokenPassesThrough` | flask_request_id_header/middleware/__init__.py:66-69 | when any token is unique, the result is the input unchanged, with the same tokens |
| `Reconciler.UuidTokenPassesThrough` | flask_request_id_header/middleware/__init__.py:66-69 | a header with a UUID token anywhere passes through unchanged, whatever prefix is configured |
| `Reconciler.TwoUuidsPassThrough` | tests/test_flask_request_id_middleware_request_id_header.py:81-112 | two UUIDs joined by a comma split into exactly those two tokens and pass through unchanged, whatever prefix is configured |
| `Reconciler.NoUniqueTokenAppendsOne` | flask_request_id_header/middleware/__init__.py:71-74 | with no unique token, the result is `input + "," + generated`. Its tokens are the old ones followed by the generated one, so the count grows by exactly one, the first tokens join back to the input, and the input is a strict prefix |
| `Reconciler.ResultHasUniqueToken` | flask_request_id_header/middleware/__init__.py:15-16 | whatever comes in, the result holds at least one unique token |
| `Reconciler.ReconcileIdempotent` | flask_request_id_header/middleware/__init__.py:53-74 | reconciling a reconciled value returns it unchanged, whatever is generated the second time |
| `Reconciler.PrefixAnywhereIsUnique` | flask_request_id_header/middleware/__init__.py:90-91 | a token with the trusted prefix anywhere inside it is unique, whatever its form |
| `Reconciler.NoPrefixMeansUuid` | flask_request_id_header/middleware/__init__.py:90-99 | without a configured prefix, a token is unique exactly when it parses as a UUID |
| `Reconciler.EmptyPrefixPassesEverything` | flask_request_id_header/middleware/__init__.py:90-91 | an empty prefix makes every token unique, so every header passes through unchanged |
| `Reconciler.EmptyHeaderGetsLeadingComma` | flask_request_id_header/middleware/__init__.py:66-74 | an empty header is the single token `""`. Without a prefix that token is not unique, so the result is `"," + generated` |
| `Reconciler.PrefixedFirstTokenPassesThrough` | tests/test_flask_request_id_middleware_request_id_header.py:114-153 | a header whose first token contains the prefix passes through whatever follows it, with that token first |
| `Reconciler.ShortTokensGainOne` | tests/test_flask_request_id_middleware_request_id_header.py:37-79 | a header of short tokens without the prefix gains exactly one token: the old tokens, then the generated one |
| `Middleware.EnvironKey` | flask_request_id_header/middleware/__init__.py:39 | the environ key is `HTTP_` followed by the name. It is five characters longer than the name and holds no `-` and no lower-case letter |
| `Middleware.EnvironKeyIgnoresCase` | flask_request_id_header/middleware/__init__.py:39 | names that differ only in letter case share one environ key |
| `Middleware.EnvironKeyIgnoresDashes` | flask_request_id_header/middleware/__init__.py:39 | names that differ only in `-` against `_` share one environ key |
| `Middleware.RequestIdEnvironKey` | flask_request_id_header/middleware/__init__.py:38-39 | `X-Request-ID` maps to `HTTP_X_REQUEST_ID` |
| `Middleware.RequestID.constructor` | flask_request_id_header/middleware/__init__.py:31-39 | the middleware keeps its prefix, uses the header `X-Request-ID`, and derives the environ key `HTTP_X_REQUEST_ID` from it |
| `Middleware.RequestID.ComputeRequestIdHeader` | flask_request_id_header/middleware/__init__.py:53-74 | the scanning loop with its early return computes exactly `Reconcile` of the header, the prefix and the generated ID |
| `Middleware.NewStartResponse.constructor` | flask_request_id_header/middleware/__init__.py:47-49 | the closure captures the header name and the request's value |
| `Middleware.NewStartResponse.Invoke` | flask_request_id_header/middleware/__init__.py:47-49 | exactly one `("X-Request-ID", value)` pair is appended at the end, with the captured value, and every earlier pair stays as it was |
| `Middleware.RequestID.Call` | flask_request_id_header/middleware/__init__.py:43-48 | the environ gets the reconciled value under its key and no other entry changes. The stored value holds a unique token, and the returned fresh closure holds that same value and the header name |
| `Middleware.RequestID.HandleRequest` | flask_request_id_header/middleware/__init__.py:43-49 | after one request whose downstream application calls `start_response` once, the environ and the response headers hold the same reconciled value |

## Left out

- The randomness of `uuid4()`. The 16 bytes that `os.urandom(16)` would return are a parameter. Entropy and collision probability are not modelled.
- `Uuid.ParseUuid` approximates Python's `UUID(hex)`. It models the removal of `urn:` and `uuid:`, the stripping of braces, the removal of hyphens, the length check of 32 and the hexadecimal digits. It does not model what `int(h, 16)` also tolerates: surrounding whitespace, `_` between digits, a `0x` prefix, a `+` sign, non-ASCII decimal digits. Such strings parse in Python but not in the model. A WSGI environ holds header values as latin-1 text (PEP 3333), and latin-1 has no non-ASCII decimal digits, so the middleware never sees the last kind.
- `Uuid.ParseUuid` returns the parsed value before `version=4` forces its bits. Only success or failure matters to the middleware.
- `Strings.Upper` and `Strings.Lower` convert ASCII letters only. Python's Unicode case mapping is not modelled. It does not matter for the fixed name `X-Request-ID`.
- The Flask/WSGI plumbing is not modelled: wrapping `app.wsgi_app`, calling the downstream application, forwarding `status` and `exc_info` to `start_response`, and its return value. `Call` returns the `new_start_response` closure as an object. `NewStartResponse.Invoke` models its effect on the header list.
- Reading the prefix from `app.config` is not modelled. The prefix is a constructor parameter. As written, `__init__` reads the key `REQUEST-ID-UNIQUE-VALUE-PREFIX` (line 37), while the sample `app.py` sets `REQUEST_ID_UNIQUE_VALUE_PREFIX` (line 11). A missing key raises `KeyError` at start-up, and that error is not modelled.
- Environ values are modelled as strings. WSGI allows other value types under other keys, and those are not modelled.
- `setup.py`, `manage.py` and the sample application's route are not part of this model.
