/**
 * The `usePasswordVault` hook: the vault's in-memory state (whether it is
 * unlocked, the listed passwords, the last error, the wallet) and the session
 * slots it writes in the browser: `wallet_public_key` in `sessionStorage`,
 * `auth_token` and `vault_initialized_<publicKey>` in `localStorage`.
 */
module PasswordVault {
  import opened Wrappers
  import Js
  import opened Browser
  import opened Storage

  /** `localStorage` marks the vault of `publicKey` as set up. */
  predicate VaultMarked(localStorage: map<string, string>, publicKey: string) {
    Js.Truthy(GetItem(localStorage, InitializedKey(publicKey)))
  }

  class Vault {
    const env: Env
    const store: StorageManager
    var isInitialized: bool
    var passwords: seq<PasswordEntry>
    var error: Option<string>
    var walletAddress: Option<string>

    /** The hook and its storage manager see the same browser. */
    predicate Valid() {
      store.env == env
    }

    constructor (env: Env, isExtension: bool)
      ensures Valid() && fresh(store) && store.isExtension == isExtension && !store.dbOpen
      ensures !isInitialized && passwords == [] && error == None && walletAddress == None
    {
      this.env := env;
      store := new StorageManager(env, isExtension);
      isInitialized := false;
      passwords := [];
      error := None;
      walletAddress := None;
    }

    /** `loadPasswords`: a read replaces the list; a failed read only records the error. */
    method LoadPasswords(listing: RemoteList)
      requires Valid()
      modifies this`passwords, this`error, env`requests
      ensures store.Reading(listing).Read? ==>
        passwords == store.Reading(listing).entries && error == old(error)
      ensures store.Reading(listing).ReadFailed? ==>
        passwords == old(passwords) && error == Some("Failed to load passwords")
      ensures env.requests == old(env.requests) + ReadRequests(store.isExtension, store.Token())
    {
      var r := store.GetAllPasswords(listing);
      match r
      case Read(entries) =>
        passwords := entries;
      case ReadFailed(_) =>
        error := Some("Failed to load passwords");
    }

    /**
     * The effect run on mount: initialise storage; then, if the session holds a
     * wallet whose vault is marked as set up, unlock for it and load its passwords.
     */
    method InitializeStorage(openSucceeds: bool, listing: RemoteList)
      requires Valid()
      modifies store, this`isInitialized, this`walletAddress, this`passwords, this`error, env`requests
      ensures !store.isExtension && !openSucceeds ==>
        && error == Some("Failed to initialize storage") && store.dbOpen == old(store.dbOpen)
        && isInitialized == old(isInitialized) && walletAddress == old(walletAddress)
        && passwords == old(passwords) && env.requests == old(env.requests)
      ensures store.isExtension || openSucceeds ==>
        var pk := GetItem(env.sessionStorage, WalletKey);
        && (!store.isExtension ==> store.dbOpen)
        && (store.isExtension ==> store.dbOpen == old(store.dbOpen))
        && if Js.Truthy(pk) && VaultMarked(env.localStorage, pk.value) then
             && isInitialized && walletAddress == pk
             && env.requests == old(env.requests) + ReadRequests(store.isExtension, store.Token())
             && (store.Reading(listing).Read? ==>
                   passwords == store.Reading(listing).entries && error == old(error))
             && (store.Reading(listing).ReadFailed? ==>
                   passwords == old(passwords) && error == Some("Failed to load passwords"))
           else
             && isInitialized == old(isInitialized) && walletAddress == old(walletAddress)
             && passwords == old(passwords) && error == old(error)
             && env.requests == old(env.requests)
    {
      var s := store.Initialize(openSucceeds);
      if s.Failed? {
        error := Some("Failed to initialize storage");
        return;
      }
      var publicKey := GetItem(env.sessionStorage, WalletKey);
      if Js.Truthy(publicKey) && VaultMarked(env.localStorage, publicKey.value) {
        isInitialized := true;
        walletAddress := publicKey;
        LoadPasswords(listing);
      }
    }

    /**
     * `unlockVault`: marks the vault as set up on the first setup only, stores the
     * wallet in the session and the master password as `auth_token`, unlocks, posts
     * the token to the API (whose failure, `tokenPostOk` false, is only logged) and
     * loads the passwords.
     */
    method UnlockVault(
      masterPassword: string, publicKey: string, isInitialSetup: bool,
      tokenPostOk: bool, listing: RemoteList)
      requires Valid()
      modifies env`localStorage, env`sessionStorage, env`requests
      modifies this`isInitialized, this`walletAddress, this`passwords, this`error
      ensures env.sessionStorage == old(env.sessionStorage)[WalletKey := publicKey]
      ensures env.localStorage ==
        (if isInitialSetup then old(env.localStorage)[InitializedKey(publicKey) := "true"]
         else old(env.localStorage))[AuthTokenKey := masterPassword]
      ensures isInitialized && walletAddress == Some(publicKey)
      ensures env.requests == old(env.requests) + [PostToken(masterPassword, publicKey)]
                              + ReadRequests(store.isExtension, store.Token())
      ensures store.Reading(listing).Read? ==>
        passwords == store.Reading(listing).entries && error == old(error)
      ensures store.Reading(listing).ReadFailed? ==>
        passwords == old(passwords) && error == Some("Failed to load passwords")
    {
      if isInitialSetup {
        env.localStorage := env.localStorage[InitializedKey(publicKey) := "true"];
      }
      env.sessionStorage := env.sessionStorage[WalletKey := publicKey];
      env.localStorage := env.localStorage[AuthTokenKey := masterPassword];
      isInitialized := true;
      walletAddress := Some(publicKey);
      env.requests := env.requests + [PostToken(masterPassword, publicKey)];
      LoadPasswords(listing);
    }

    /**
     * `addPassword`: refuses without a session wallet, before touching storage;
     * otherwise builds the entry owned by the session wallet, hands it to storage,
     * and reloads the list when storage succeeded.
     */
    method AddPassword(
      title: string, username: string, password: string, website: string,
      id: string, lastModified: string, remoteOk: bool, listing: RemoteList)
      returns (status: Status)
      requires Valid()
      modifies env`passwordsTable, env`requests, this`passwords, this`error
      ensures var wallet := GetItem(env.sessionStorage, WalletKey);
        !Js.Truthy(wallet) ==>
          && status == Failed(NoWallet) && error == Some("Failed to add password")
          && env.passwordsTable == old(env.passwordsTable) && env.requests == old(env.requests)
          && passwords == old(passwords)
      ensures var wallet := GetItem(env.sessionStorage, WalletKey);
        Js.Truthy(wallet) ==>
          var entry := PasswordEntry(id, title, username, password, website, lastModified, wallet.value);
          var w := AddEffect(store.isExtension, store.dbOpen, store.Token(), wallet,
                             old(env.passwordsTable), entry, remoteOk);
          && status == w.status && env.passwordsTable == w.table
          && (status.Failed? ==>
                error == Some("Failed to add password") && passwords == old(passwords)
                && env.requests == old(env.requests) + w.sent)
          && (status == Done ==>
                env.requests == old(env.requests) + w.sent + ReadRequests(store.isExtension, store.Token())
                && (store.Reading(listing).Read? ==>
                      passwords == store.Reading(listing).entries && error == old(error))
                && (store.Reading(listing).ReadFailed? ==>
                      passwords == old(passwords) && error == Some("Failed to load passwords")))
      ensures status == Done && !store.isExtension && Js.Truthy(store.Token()) ==>
        PasswordEntry(id, title, username, password, website, lastModified,
                      GetItem(env.sessionStorage, WalletKey).value) in passwords
    {
      var currentWallet := GetItem(env.sessionStorage, WalletKey);
      if !Js.Truthy(currentWallet) {
        error := Some("Failed to add password");
        return Failed(NoWallet);
      }
      var entry := PasswordEntry(id, title, username, password, website, lastModified, currentWallet.value);
      ghost var table0 := env.passwordsTable;
      status := store.AddPassword(entry, remoteOk);
      if status.Failed? {
        error := Some("Failed to add password");
        return;
      }
      LoadPasswords(listing);
      if !store.isExtension && Js.Truthy(store.Token()) {
        WriteThenRead(store.Token(), currentWallet, table0, entry, remoteOk, listing);
        assert entry.(walletAddress := currentWallet.value) == entry;
      }
    }

    /** `searchPasswords`: shows the matching entries, or records the error and fails. */
    method SearchPasswords(query: string, listing: RemoteList) returns (status: Status)
      requires Valid()
      modifies this`passwords, this`error, env`requests
      ensures env.requests == old(env.requests) + ReadRequests(store.isExtension, store.Token())
      ensures match store.Reading(listing)
        case Read(all) => status == Done && passwords == SearchResult(all, query) && error == old(error)
        case ReadFailed(e) =>
          status == Failed(e) && passwords == old(passwords) && error == Some("Failed to search passwords")
    {
      var r := store.SearchPasswords(query, listing);
      match r
      case Read(results) =>
        passwords := results;
        status := Done;
      case ReadFailed(e) =>
        error := Some("Failed to search passwords");
        status := Failed(e);
    }

    /**
     * `logout`: inside the extension, clears `chrome.storage.local`; then forgets
     * the wallet and the token, locks, and empties the list. The vault-initialised
     * flags and the table stay, and every later read answers an empty list.
     */
    method Logout()
      requires Valid()
      modifies env`extensionStorage, env`sessionStorage, env`localStorage
      modifies this`isInitialized, this`walletAddress, this`passwords
      ensures env.extensionStorage == if store.isExtension then map[] else old(env.extensionStorage)
      ensures env.sessionStorage == old(env.sessionStorage) - {WalletKey}
      ensures env.localStorage == old(env.localStorage) - {AuthTokenKey}
      ensures !isInitialized && walletAddress == None && passwords == []
      ensures forall pk :: VaultMarked(env.localStorage, pk) == VaultMarked(old(env.localStorage), pk)
      ensures forall listing :: store.Reading(listing) == Read([])
    {
      if store.isExtension {
        env.extensionStorage := map[];
      }
      isInitialized := false;
      walletAddress := None;
      passwords := [];
      env.sessionStorage := env.sessionStorage - {WalletKey};
      env.localStorage := env.localStorage - {AuthTokenKey};
      forall pk ensures VaultMarked(env.localStorage, pk) == VaultMarked(old(env.localStorage), pk) {
        InitializedKeyIsNotASlot(pk);
      }
    }
  }
}
