# SooLock: the token format and the identity-scoped vault, in Dafny

SooLock is a password vault that a Solana wallet unlocks. This project models its core in three parts.

1. **The `sl_` access token** (`TokenAuthority`, `Server`, `TokenService`).
   - The API server issues `"sl_" + base64(data) + "." + sha256hex(data)`, where `data` is `wallet ":" timestamp ":" nonce`.
   - It validates a token by these steps, in order:
     - check the lexical pattern `^sl_[A-Za-z0-9+/=]+\.[a-f0-9]{64}$`
     - split on `.`
     - base64-decode the body
     - reject a payload that is more than 30 days old
     - reject a digest that differs from the SHA-256 of the decoded payload
   - Validation otherwise answers the text before the payload's first `:`.
   - The client keeps its own copy of the construction. It stores the token under `auth_token`, checks the pattern before asking the API, and reads the wallet back out of a token without checking the digest or the age.
2. **The identity-scoped store** (`Storage.StorageManager`).
   - Outside the browser extension it keeps credentials in the IndexedDB table `passwords`, keyed by `id`.
   - It reads only the records owned by the wallet in the session.
   - A write stamps the session wallet on the entry, upserts it, and mirrors it to the API.
   - Inside the extension every read and write goes to the API.
   - Search is a case-insensitive substring filter over a read.
3. **The vault hook** (`PasswordVault.Vault`, from `usePasswordVault`). These are the session-slot transitions:
   - unlocking writes `wallet_public_key`, `auth_token` and, on first setup only, `vault_initialized_<publicKey>`;
   - adding a password stamps the session wallet on the entry;
   - logging out clears the slots but not the vault flags or the table;
   - the check on mount unlocks only when the session wallet's vault is marked as set up.

How the browser and the outside world appear in the model:
- The browser's shared state is a class `Browser.Env`. It holds `sessionStorage`, `localStorage`, `chrome.storage.local`, the IndexedDB table, and the log of HTTP requests sent to the API. The log is what lets "no remote call" be stated.
- Each network outcome is a parameter of the operation that awaits it:
  - `remoteOk` and `tokenPostOk` for the POST requests;
  - `listing` for the answer of `GET /api/passwords`;
  - `openSucceeds` for opening the database.
- The clock (`now`), the random nonce and the random `id` are parameters too.
- The client builds its tokens with CryptoJS's SHA-256 and `Buffer`'s base64. The model gives it the same `Primitives` as the server. So `TokenService.ClientTokenAcceptedByServer` rests on the two libraries agreeing, which the model assumes rather than proves.
- SHA-256 and base64 are the fields of a `TokenAuthority.Primitives` value. The predicate `Sound` states what the proofs rely on about them:
  - decoding inverts encoding;
  - encoder output stays in the base64 alphabet and is non-empty for non-empty input;
  - the digest is 64 lowercase hex characters.
- A fourth field, `parseNumber`, gives `Number()` of a timestamp field that is neither empty nor all decimal digits, for example `-1`, ` 5`, `1e3`, `0x10` or `abc`. `Sound` says nothing about it, so no proof depends on how JavaScript reads such text.
- `SoundIsSatisfiable` exhibits primitives that meet `Sound`.
- The JavaScript behaviour the code relies on is written out in `Js`:
  - `split` with a one-character separator;
  - destructuring past the end of an array, which gives `undefined`;
  - `Number()`, where `undefined` is `NaN`, `""` is 0, decimal digits are their value, and `NaN > x` is false;
  - template strings of integers;
  - hex of bytes;
  - `toLowerCase`, `includes` and `filter`;
  - truthiness, where an empty string counts as absent.
- IndexedDB's `getAll` answers records in ascending key order. `KeyOrder` defines that order and the sorted key list.

Behaviour the model keeps as the code has it:
- The server rejects only a token that is too old. A timestamp in the future passes.
- A payload whose second field reads as `NaN` is never rejected for age. Neither is a payload that has no second field. A self-signed payload whose field reads as an old time, such as `w:-1`, is rejected like any other old token.
- A wallet containing `:` comes back truncated.
- `getWalletFromToken` accepts a token with a forged digest or one long expired.
- When the mirror of a local write fails, the call fails but the local write stays.
- Inside the extension, a failed read answers an empty list, not an error.
- Inside the extension, `unlockVault` writes `auth_token` to `localStorage`, but the store reads the token from `chrome.storage.local`.
- Outside the extension, `unlockVault` stores the master password itself as `auth_token`. It is then the bearer of the store's API requests, until something else writes `auth_token`, such as `TokenService.generateToken`.
- Logout leaves every `vault_initialized_<publicKey>` flag and the whole table in place. Every later read answers an empty list, because no token is held.

## Model

| member | source | states |
|---|---|---|
| TokenAuthority.MatchesTokenPattern | api/server.js:13 | a matching string is longer than prefix, `.` and digest together, and its only `.` after the prefix is the one just before the 64 hex digits |
| TokenAuthority.IssueToken | api/server.js:15-21 | an issued token reads as `sl_`, then base64 of the payload `wallet:timestamp:nonce`, then `.`, then the SHA-256 hex of that same payload |
| TokenAuthority.IssuedAt | api/server.js:28-29 | with no second `:` field the timestamp is `NaN`; a field of decimal digits is its value; any other field is whatever `Number()` (`parseNumber`) makes of it |
| TokenAuthority.TooOld | api/server.js:30 | a `NaN` timestamp is never too old; a finite one is too old exactly when it lies more than 30 days before `now`, so future timestamps are not; `-Infinity` always is and `Infinity` never is |
| TokenAuthority.AssembledTokenMatches | api/server.js:13-20 | prefix + non-empty base64 body + `.` + 64 lowercase hex digits always matches the token pattern, and the body and digest come back out unchanged |
| TokenAuthority.MatchingTokenIsAssembled | api/server.js:13 | conversely, every string matching the pattern is `sl_` + a non-empty base64 body + `.` + a hex digest |
| TokenAuthority.SplitOfWellFormed | api/server.js:26 | splitting a matching token after the prefix on `.` gives exactly two parts, the body and the digest, since the base64 class has no `.` |
| TokenAuthority.IssuedTokenIsWellFormed | api/server.js:15-21 | every issued token matches the pattern, with body = base64 of the payload and digest = SHA-256 hex of the payload |
| TokenAuthority.PayloadFields | api/server.js:18 | for a wallet without `:`, the payload splits on `:` into the wallet, the decimal timestamp and the hex nonce |
| TokenAuthority.ValidateToken | api/server.js:23-37 | validation never fails other than by `None` (`null`), and it answers a wallet only for a string that matches the pattern, so a non-matching string is rejected before any decoding |
| TokenAuthority.ValidateWellFormed | api/server.js:26-33 | on a matching token: an undecodable body gives `None`; a payload that is too old or a digest that is not the SHA-256 of the decoded payload gives `None`; otherwise the answer is the text before the payload's first `:` |
| TokenAuthority.AcceptedToken | api/server.js:23-37 | an accepted token matches the pattern, decodes, is not too old, carries the digest of its own payload, and names the payload's first field |
| TokenAuthority.DigestMismatchRejected | api/server.js:31-32 | a digest other than the SHA-256 of the exact decoded payload is rejected |
| TokenAuthority.ExpiryBoundary | api/server.js:29-30 | with a correct digest and a finite timestamp (negative and fractional ones included), the token is rejected iff `now - timestamp > 2592000000`; exactly 30 days old, or in the future, is accepted |
| TokenAuthority.NonNumericTimestampNeverExpires | api/server.js:28-30 | a payload whose timestamp reads as `NaN` (a missing field, or text `Number()` rejects) is accepted at every time when its digest is right |
| TokenAuthority.RoundTrip | api/server.js:15-37 | a token issued for a wallet without `:` validates to that wallet iff it is at most 30 days old at validation time, and to `None` otherwise |
| TokenAuthority.RoundTripAtIssue | api/server.js:15-37 | validated at the moment of issue, a token gives back its wallet |
| TokenAuthority.ColonWalletTruncated | api/server.js:28-33 | a token issued for `head:tail` validates to `head` or is rejected; the whole wallet never comes back |
| TokenAuthority.ReplacedDigestRejected | api/server.js:31-32 | replacing an issued token's digest by any other 64 hex digits makes the token invalid at every time |
| TokenAuthority.BareWalletTokenNeverExpires | api/server.js:26-33 | a payload need not have three fields: base64 of a bare wallet plus its digest is accepted at every time |
| TokenAuthority.SelfSignedOldPayloadRejected | api/server.js:26-32 | a payload anyone signs with its own digest is still rejected when its timestamp reads as more than 30 days old |
| TokenAuthority.NegativeTimestampRejected | api/server.js:28-30 | the self-signed payload `w:-1`, whose timestamp `Number()` reads as -1, is rejected at every time after the first 30 days of the epoch |
| TokenAuthority.SoundIsSatisfiable | api/server.js:19-20 | the assumptions made about base64 and SHA-256 can be met together |
| Server.GenerateRoute | api/server.js:41-45 | answers 400 exactly when `walletAddress` is missing or empty; otherwise 200 with a freshly issued token for it |
| Server.ValidateRoute | api/server.js:47-52 | `valid` is true exactly when a token was given and validation gave a non-empty wallet; status 200 when valid and 400 when not; the wallet is the validated one |
| Server.GeneratedTokenValidates | api/server.js:41-52 | a token from the generate route, passed straight to the validate route, is reported valid for the same wallet |
| TokenService.GenerateToken | src/lib/tokenService.ts:10-37 | returns the same token the server would issue; sends one `POST /api/tokens` with it and the wallet; afterwards `auth_token` holds exactly that token and nothing else in `localStorage` changes |
| TokenService.ValidateToken | src/lib/tokenService.ts:39-59 | a token failing the pattern is refused with no request sent; otherwise one `GET /api/passwords` is sent with it as bearer, and the answer is whether that request succeeded |
| TokenService.WalletFromToken | src/lib/tokenService.ts:61-74 | answers a wallet only for a string matching the pattern; anything else gives `null` |
| TokenService.WalletFromWellFormed | src/lib/tokenService.ts:61-74 | on a matching token the answer depends on the body alone: `None` when it does not decode, else the decoded payload's first `:` field |
| TokenService.WalletFromTokenRoundTrip | src/lib/tokenService.ts:10-74 | reading a generated token gives back its wallet, for a wallet without `:` |
| TokenService.WalletFromTokenIgnoresDigest | src/lib/tokenService.ts:61-74 | with the digest replaced by any other hex digest, the wallet is still read out, while the server rejects the same token |
| TokenService.WalletFromTokenIgnoresAge | src/lib/tokenService.ts:61-74 | a token older than 30 days still yields its wallet, while the server rejects it |
| TokenService.ServerAcceptanceAgreesWithClient | src/lib/tokenService.ts:61-74 | whenever the server accepts a token for a wallet, the client reads the same wallet from it |
| TokenService.ClientTokenAcceptedByServer | src/lib/tokenService.ts:10-17 | a client-generated token matches the pattern, and the server's validator accepts it for its wallet at issue time |
| Storage.AuthToken | src/lib/storage.ts:38-48 | the token is read from `chrome.storage.local` inside the extension, where an empty value counts as none, and from `localStorage` outside it |
| Storage.StorageManager.Token | src/lib/storage.ts:38-48 | a token held is the `auth_token` value of the store for the current mode, and is never empty inside the extension |
| Storage.StorageManager.CurrentWallet | src/lib/storage.ts:50-52 | the wallet is present exactly when `sessionStorage` holds `wallet_public_key`, and then it is that value |
| Storage.ReadAll | src/lib/storage.ts:54-95 | a read fails only outside the extension, with a token held and no database open, and then with "Database not initialized"; a local read lists only table records owned by a present session wallet |
| Storage.AddEffect | src/lib/storage.ts:97-148 | only a local write with an open database and a session wallet changes the table, and only under the entry's `id`; at most one POST is sent, exactly when a token is held and the write got that far; when a POST is sent, its bearer is the token and the call succeeds iff the POST does |
| Storage.SearchResult | src/lib/storage.ts:150-158 | a search never grows the list and keeps exactly the read entries that match the query |
| Storage.NoTokenReadsNothing | src/lib/storage.ts:54-58 | with no auth token held, a read answers `[]` and sends nothing, in either mode |
| Storage.LocalReadIsScoped | src/lib/storage.ts:85-94 | a local read before `initialize` fails with "Database not initialized"; with no session wallet it is `[]`; otherwise it lists exactly the table's records owned by the session wallet, both ways |
| Storage.LocalReadInIdOrder | src/lib/storage.ts:90-93 | a local read lists the wallet's records in strictly ascending `id` order |
| Storage.ExtensionReadDegrades | src/lib/storage.ts:60-84 | inside the extension a failed fetch, or a reply without `data`, reads as `[]`; the read sends exactly one `GET /api/passwords` with the token as bearer |
| Storage.LocalAddUpserts | src/lib/storage.ts:97-130 | a local write puts the entry, with the session wallet as owner, under its `id` and leaves every other `id` as it was, keeping the table well keyed; it mirrors the stamped entry exactly when a token is held; it succeeds iff there is no token or the mirror succeeded, else fails (`SyncFailed`) and the write stays |
| Storage.LocalAddRefused | src/lib/storage.ts:98-102 | a local write before `initialize`, or with no session wallet, fails with "Database not initialized" or "No wallet connected", leaving the table unchanged and sending nothing |
| Storage.ExtensionAddIsRemoteOnly | src/lib/storage.ts:131-147 | inside the extension a write never touches the table; with no token it fails with "No auth token found" and sends nothing; otherwise it posts the entry as given and fails (`SaveFailed`) exactly when the POST does not succeed |
| Storage.WriteThenRead | src/lib/storage.ts:97-109 | after a local write with a token and a session wallet, the next read lists the stamped entry, whether or not the mirror succeeded |
| Storage.SearchSemantics | src/lib/storage.ts:150-158 | a search answers a subsequence of the list it read (same order), and an entry is in it iff it was read and its lowercased title, username or website contains the lowercased query at some position |
| Storage.EmptyQueryKeepsAll | src/lib/storage.ts:150-158 | the empty query answers the whole list |
| Storage.StorageManager.constructor | src/lib/storage.ts:17-20 | a new manager has no database open |
| Storage.StorageManager.Initialize | src/lib/storage.ts:22-36 | outside the extension it opens the database, or fails when opening fails; inside the extension it does nothing and succeeds |
| Storage.StorageManager.GetAllPasswords | src/lib/storage.ts:54-95 | answers what `ReadAll` says of the current token, session wallet, table and API reply, and sends exactly the requests `ReadRequests` lists |
| Storage.StorageManager.AddPassword | src/lib/storage.ts:97-148 | leaves the table, answers the status and sends the requests that `AddEffect` gives for the state before the call; nothing else changes |
| Storage.StorageManager.SearchPasswords | src/lib/storage.ts:150-158 | answers the query filter over the same read, or that read's failure |
| Browser.InitializedKeyIsNotASlot | src/hooks/usePasswordVault.ts:53-57 | no `vault_initialized_<publicKey>` key is ever `auth_token` or `wallet_public_key` |
| PasswordVault.Vault.constructor | src/hooks/usePasswordVault.ts:7-12 | the vault starts locked, with no passwords, no error and no wallet, over a new manager with no database open |
| PasswordVault.Vault.LoadPasswords | src/hooks/usePasswordVault.ts:36-44 | a successful read replaces the password list; a failed read leaves the list and records "Failed to load passwords" |
| PasswordVault.Vault.InitializeStorage | src/hooks/usePasswordVault.ts:14-34 | if storage fails to initialise, only the error "Failed to initialize storage" is recorded; otherwise the vault unlocks for the session wallet and loads its passwords iff that wallet is non-empty and its vault is marked as set up, and else nothing changes; a successful load replaces the list and leaves the error as it was, a failed one keeps the list and records "Failed to load passwords" |
| PasswordVault.Vault.UnlockVault | src/hooks/usePasswordVault.ts:46-89 | the session wallet slot becomes `publicKey` and `auth_token` becomes the master password; the vault flag is set to "true" only on initial setup; the vault is unlocked for `publicKey` whatever the token post answers; the passwords are then loaded: a successful read replaces the list and leaves the error as it was, a failed one (for instance before the database is open) keeps the list and records "Failed to load passwords" |
| PasswordVault.Vault.AddPassword | src/hooks/usePasswordVault.ts:91-118 | with no session wallet it fails with "No wallet connected" before storage is reached; otherwise storage receives the entry with the given fields and the session wallet as owner; a storage failure is recorded and returned; a success reloads the list (leaving the error as it was, or recording "Failed to load passwords" and keeping the list when the read fails), which then holds the new entry outside the extension when a token is held |
| PasswordVault.Vault.SearchPasswords | src/hooks/usePasswordVault.ts:120-129 | a successful search replaces the list by the query filter over a read; a failure keeps the list, records "Failed to search passwords" and is returned |
| PasswordVault.Vault.Logout | src/hooks/usePasswordVault.ts:131-147 | clears `chrome.storage.local` inside the extension, removes the wallet slot and `auth_token`, locks, forgets the wallet and empties the list; every vault flag and the table are unchanged, and every later read answers `[]` |
| Js.Split | api/server.js:26-28 | `split` on one character gives at least one part, and no part contains the separator |
| Js.JoinSplit | api/server.js:26-28 | joining the parts of a split with the separator gives back the original string |
| Js.SplitAfterFirst | api/server.js:28 | the first part of a split is the text before the first separator, and the rest is the split of what follows it |
| Js.Number | api/server.js:29 | `Number()` of `undefined` is `NaN`, of `""` is 0, of decimal digits a non-negative value, and of any other string what the caller's reading of it gives |
| Js.Includes | src/lib/storage.ts:154-156 | `includes` never finds a longer string, and always finds a suffix |
| Js.Field | api/server.js:28 | destructuring gives a value exactly for an index inside the array, else `undefined` |
| Js.Decimal | api/server.js:18 | the template string of a timestamp is non-empty decimal digits whose value is the timestamp, and `Number()` reads it back as that value |
| Js.HexOf | api/server.js:17 | hex of the nonce bytes is two lowercase hex digits per byte |
| Js.ToLowerCase | src/lib/storage.ts:154-156 | lowercasing keeps the length and lowercases each character |
| Js.IncludesIffOccurs | src/lib/storage.ts:154-156 | `includes` holds iff the text occurs at some position |
| Js.IncludesEmpty | src/lib/storage.ts:154-156 | every string includes the empty string |
| Js.Filter | src/lib/storage.ts:91-93 | `filter` keeps exactly the elements satisfying the test, and no more of them than there were |
| Js.FilterIsSubsequence | src/lib/storage.ts:91-93 | `filter` answers a subsequence of its input |
| Js.FilterKeepAll | src/lib/storage.ts:152-157 | a filter whose test holds throughout returns its input |
| Js.FilterKeepsOrder | src/lib/storage.ts:91-93 | a filter keeps any strict order its input was in |
| KeyOrder.SortedKeys | src/lib/storage.ts:90 | lists every key of the table once, in strictly ascending order |
| KeyOrder.ValuesInKeyOrder | src/lib/storage.ts:90 | `getAll` lists one record per key, the i-th under the i-th key in ascending order |
| KeyOrder.ValuesInKeyOrderListsAll | src/lib/storage.ts:90 | `getAll` lists exactly the records in the table |

## Left out

- The regular expression engine is left out: `TOKEN_PATTERN` is written as a predicate over character classes (`TokenAuthority.MatchesTokenPattern`).
- SHA-256 and base64 themselves are left out. The model assumes only what `TokenAuthority.Sound` states. Every lemma that needs those properties takes `Sound(p)` as a hypothesis.
- UTF-8: `Buffer.from(data)` encodes the payload as UTF-8 before hashing and base64. The model applies the primitives to the character string.
- Base64 decoding that does not throw on a malformed body, as Node's `Buffer` does not, is left open: the model takes whatever `base64Decode` answers for text that no encoder produced.
- Js.Number: decides only `undefined`, `""` and strings of decimal digits. Every other string is read by `parseNumber`, which the model leaves open: whitespace, a sign, a fraction, an exponent, `0x`, `Infinity`, or text that is no number. Results about such payloads hold for any reading, or assume one, as `NegativeTimestampRejected` does for `-1`.
- Double-precision arithmetic is left out. Timestamps and the subtraction `now - timestamp` are exact reals. Every timestamp the code can issue is exact in a double.
- Js.ToLowerCase: lowercases `A`–`Z` only, not the full Unicode case mapping.
- KeyOrder.Less: compares characters as Unicode scalar values, whereas IndexedDB compares string keys by UTF-16 code units. The two orders differ only for keys holding characters above U+FFFF. `getAll` order matters only for the order of a local read, never for which entries it holds.
- The ordering of asynchronous callbacks (`chrome.storage`, React state updates, IndexedDB transactions, fetches still in flight) is left out. Each operation runs to completion, in program order. React state is modelled as fields the hook sets at once.
- PasswordVault.Vault.UnlockVault: its outer `catch` (which sets "Failed to create vault" or "Invalid master password" and rethrows) is not modelled. In the model none of its steps can fail: `setItem` exceeding the storage quota is not modelled, and `loadPasswords` catches its own errors.
- PasswordVault.Vault.AddPassword: `crypto.randomUUID()` and `new Date().toISOString()` are the parameters `id` and `lastModified`. The model does not state that ids are fresh, so an id held by another wallet is simply overwritten by the upsert, as in the code.
- Storage.StorageManager.AddPassword: each POST has one outcome, `remoteOk`, which merges a rejected `fetch` with a non-ok answer. The source fails with fetch's own error when `fetch` rejects. It fails with "Failed to sync with API" or "Failed to save password" only on a non-ok answer. The model reports `SyncFailed` or `SaveFailed` in both cases.
- The HTTP transport (fetch, express wiring, CORS, JSON bodies of other types than strings) is left out. Each remote call is a request appended to `Env.requests`, and its outcome is a parameter.
- `/api/passwords` and `/api/tokens` have no handler in `api/server.js`, so what the server does with them is not modelled. Only the client's side is.
- Token revocation is not modelled; no code performs it.
- `/api/health`, the UI components, the content script, the background script and the build configuration are not part of this model.
- Console logging is left out.
