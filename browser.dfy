/**
 * The browser state the client shares between its components: `sessionStorage`,
 * `localStorage`, the extension's `chrome.storage.local`, the IndexedDB object
 * store `passwords` (keyed by `id`), and the log of HTTP requests sent to the API.
 */
module Browser {
  import opened Wrappers

  /** A stored credential, keyed by `id` and owned by `walletAddress`. */
  datatype PasswordEntry = PasswordEntry(
    id: string,
    title: string,
    username: string,
    password: string,
    website: string,
    lastModified: string,
    walletAddress: string)

  /** An HTTP request the client sends to the API. */
  datatype Request =
    | PostToken(token: string, walletAddress: string)    // POST /api/tokens
    | GetPasswords(bearer: string)                       // GET /api/passwords
    | PostPassword(bearer: string, entry: PasswordEntry) // POST /api/passwords

  const AuthTokenKey: string := "auth_token"
  const WalletKey: string := "wallet_public_key"
  const InitializedKeyPrefix: string := "vault_initialized_"

  /** The `localStorage` key that marks the vault of `publicKey` as set up. */
  function InitializedKey(publicKey: string): string {
    InitializedKeyPrefix + publicKey
  }

  /** `getItem`: the stored string, or `null`. */
  function GetItem(store: map<string, string>, key: string): Option<string> {
    if key in store then Some(store[key]) else None
  }

  /** No vault flag shares its key with the token or the wallet slot. */
  lemma InitializedKeyIsNotASlot(publicKey: string)
    ensures InitializedKey(publicKey) != AuthTokenKey && InitializedKey(publicKey) != WalletKey
  {
    assert InitializedKey(publicKey)[0] == 'v';
    assert AuthTokenKey[0] == 'a' && WalletKey[0] == 'w';
  }

  class Env {
    var sessionStorage: map<string, string>
    var localStorage: map<string, string>
    /** `chrome.storage.local`; used only inside the extension. */
    var extensionStorage: map<string, string>
    /** The IndexedDB object store `passwords`, by key. */
    var passwordsTable: map<string, PasswordEntry>
    /** Every request sent to the API, oldest first. */
    var requests: seq<Request>

    constructor (
      sessionStorage: map<string, string>,
      localStorage: map<string, string>,
      extensionStorage: map<string, string>,
      passwordsTable: map<string, PasswordEntry>)
      ensures this.sessionStorage == sessionStorage && this.localStorage == localStorage
      ensures this.extensionStorage == extensionStorage && this.passwordsTable == passwordsTable
      ensures requests == []
    {
      this.sessionStorage := sessionStorage;
      this.localStorage := localStorage;
      this.extensionStorage := extensionStorage;
      this.passwordsTable := passwordsTable;
      requests := [];
    }
  }
}
