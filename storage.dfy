/**
 * `StorageManager`: where the client reads and writes credentials. Outside the
 * extension it keeps them in the IndexedDB table, scoped to the session's wallet,
 * and mirrors each write to the API; inside the extension it goes to the API for
 * everything. Reads degrade to an empty list; writes report their failures.
 *
 * The pure functions below say what each operation answers and what it leaves
 * behind, as a function of the browser state it reads; the class methods are
 * proved to do exactly that.
 */
module Storage {
  import opened Wrappers
  import Js
  import KeyOrder
  import opened Browser

  datatype StoreError =
    | NotInitialized   // "Database not initialized"
    | NoWallet         // "No wallet connected"
    | NoAuthToken      // "No auth token found"
    | SyncFailed       // "Failed to sync with API": the mirror of a local write failed
    | SaveFailed       // "Failed to save password": the API refused an extension write
    | OpenFailed       // opening the IndexedDB database threw

  datatype Status = Done | Failed(error: StoreError)

  /** What `GET /api/passwords` answered: a failure, or a body whose `data` may be absent. */
  datatype RemoteList = FetchFailed | Fetched(data: Option<seq<PasswordEntry>>)

  datatype ReadResult = Read(entries: seq<PasswordEntry>) | ReadFailed(error: StoreError)

  // ---------------------------------------------------------------------------
  // reading
  // ---------------------------------------------------------------------------

  /**
   * `getAuthToken`: `chrome.storage.local` inside the extension (an empty string
   * there reads as `null`), `localStorage` otherwise.
   */
  function AuthToken(isExtension: bool, localStorage: map<string, string>, extensionStorage: map<string, string>): (t: Option<string>)
    ensures var slots := if isExtension then extensionStorage else localStorage;
      t.Some? ==> AuthTokenKey in slots && t.value == slots[AuthTokenKey]
    ensures isExtension ==> (t.Some? <==> Js.Truthy(GetItem(extensionStorage, AuthTokenKey)))
    ensures !isExtension ==> (t.Some? <==> AuthTokenKey in localStorage)
  {
    if isExtension then
      var t := GetItem(extensionStorage, AuthTokenKey);
      if Js.Truthy(t) then t else None
    else GetItem(localStorage, AuthTokenKey)
  }

  /** The object store's own invariant: each record under its `id`, each with an owner. */
  predicate WellKeyed(table: map<string, PasswordEntry>) {
    forall k :: k in table ==> table[k].id == k && table[k].walletAddress != ""
  }

  /** `db.getAll("passwords")`: every record, in ascending key order. */
  function Rows(table: map<string, PasswordEntry>): seq<PasswordEntry> {
    KeyOrder.ValuesInKeyOrder(table)
  }

  /** The records of `wallet`, as the local branch of `getAllPasswords` filters them. */
  function OwnedBy(table: map<string, PasswordEntry>, wallet: string): seq<PasswordEntry> {
    Js.Filter(Rows(table), (e: PasswordEntry) => e.walletAddress == wallet)
  }

  /** `getAllPasswords`, given the token, the session wallet, the table and the API's answer. */
  function ReadAll(
    isExtension: bool, dbOpen: bool, token: Option<string>, wallet: Option<string>,
    table: map<string, PasswordEntry>, listing: RemoteList): (r: ReadResult)
    ensures r.ReadFailed? <==> Js.Truthy(token) && !isExtension && !dbOpen
    ensures r.ReadFailed? ==> r.error == NotInitialized
    ensures r.Read? && !isExtension ==>
      forall e :: e in r.entries ==> e in table.Values && Js.Truthy(wallet) && e.walletAddress == wallet.value
  {
    KeyOrder.ValuesInKeyOrderListsAll(table);
    if !Js.Truthy(token) then Read([])
    else if isExtension then
      match listing
      case FetchFailed => Read([])
      case Fetched(data) => Read(data.GetOr([]))
    else if !dbOpen then ReadFailed(NotInitialized)
    else if !Js.Truthy(wallet) then Read([])
    else Read(OwnedBy(table, wallet.value))
  }

  /** The requests `getAllPasswords` sends: one fetch, inside the extension, when a token is held. */
  function ReadRequests(isExtension: bool, token: Option<string>): seq<Request> {
    if isExtension && Js.Truthy(token) then [GetPasswords(token.value)] else []
  }

  /** With no token held, a read returns nothing in either mode. */
  lemma NoTokenReadsNothing(
    isExtension: bool, dbOpen: bool, token: Option<string>, wallet: Option<string>,
    table: map<string, PasswordEntry>, listing: RemoteList)
    requires !Js.Truthy(token)
    ensures ReadAll(isExtension, dbOpen, token, wallet, table, listing) == Read([])
    ensures ReadRequests(isExtension, token) == []
  {
  }

  /**
   * A local read returns exactly the records of the session wallet: nothing owned by
   * another wallet, and everything the wallet owns. With no session wallet it is empty;
   * before `initialize` it fails.
   */
  lemma LocalReadIsScoped(
    dbOpen: bool, token: Option<string>, wallet: Option<string>,
    table: map<string, PasswordEntry>, listing: RemoteList)
    requires Js.Truthy(token)
    ensures var r := ReadAll(false, dbOpen, token, wallet, table, listing);
      && (!dbOpen ==> r == ReadFailed(NotInitialized))
      && (dbOpen && !Js.Truthy(wallet) ==> r == Read([]))
      && (dbOpen && Js.Truthy(wallet) ==>
            r.Read? && forall e :: e in r.entries <==> e in table.Values && e.walletAddress == wallet.value)
  {
    KeyOrder.ValuesInKeyOrderListsAll(table);
  }

  /** A local read lists the wallet's records in ascending `id` order, so each at most once. */
  lemma LocalReadInIdOrder(table: map<string, PasswordEntry>, wallet: string)
    requires WellKeyed(table)
    ensures var r := OwnedBy(table, wallet);
      forall i, j :: 0 <= i < j < |r| ==> KeyOrder.Less(r[i].id, r[j].id)
  {
    var rows := Rows(table);
    var ks := KeyOrder.SortedKeys(table.Keys);
    assert forall i :: 0 <= i < |rows| ==> rows[i].id == ks[i] by {
      forall i | 0 <= i < |rows| ensures rows[i].id == ks[i] {
        assert ks[i] in ks;
      }
    }
    Js.FilterKeepsOrder(rows, (e: PasswordEntry) => e.walletAddress == wallet,
      (a: PasswordEntry, b: PasswordEntry) => KeyOrder.Less(a.id, b.id));
  }

  /** Inside the extension a failed fetch reads as an empty list, not an error. */
  lemma ExtensionReadDegrades(
    dbOpen: bool, token: Option<string>, wallet: Option<string>, table: map<string, PasswordEntry>)
    requires Js.Truthy(token)
    ensures ReadAll(true, dbOpen, token, wallet, table, FetchFailed) == Read([])
    ensures ReadAll(true, dbOpen, token, wallet, table, Fetched(None)) == Read([])
    ensures ReadRequests(true, token) == [GetPasswords(token.value)]
  {
  }

  // ---------------------------------------------------------------------------
  // writing
  // ---------------------------------------------------------------------------

  /** What `addPassword` reports, the table it leaves, and the requests it sends. */
  datatype Written = Written(status: Status, table: map<string, PasswordEntry>, sent: seq<Request>)

  /** `addPassword`, given the same state as `ReadAll` and whether the API accepts the POST. */
  function AddEffect(
    isExtension: bool, dbOpen: bool, token: Option<string>, wallet: Option<string>,
    table: map<string, PasswordEntry>, entry: PasswordEntry, remoteOk: bool): (w: Written)
    ensures isExtension || !dbOpen || !Js.Truthy(wallet) ==> w.table == table
    ensures w.table.Keys <= table.Keys + {entry.id}
    ensures |w.sent| <= 1
    ensures w.sent != [] <==> Js.Truthy(token) && (isExtension || (dbOpen && Js.Truthy(wallet)))
    ensures w.sent != [] ==>
      w.sent[0].PostPassword? && w.sent[0].bearer == token.value && (w.status == Done <==> remoteOk)
  {
    if !isExtension then
      if !dbOpen then Written(Failed(NotInitialized), table, [])
      else if !Js.Truthy(wallet) then Written(Failed(NoWallet), table, [])
      else
        var stamped := entry.(walletAddress := wallet.value);
        var table' := table[entry.id := stamped];
        if !Js.Truthy(token) then Written(Done, table', [])
        else Written(if remoteOk then Done else Failed(SyncFailed), table', [PostPassword(token.value, stamped)])
    else if !Js.Truthy(token) then Written(Failed(NoAuthToken), table, [])
    else Written(if remoteOk then Done else Failed(SaveFailed), table, [PostPassword(token.value, entry)])
  }

  /**
   * A local write upserts the entry under its `id` with the session wallet as owner,
   * leaves every other `id` as it was, and keeps the table well keyed. The entry
   * is mirrored to the API exactly when a token is held; a failed mirror fails the
   * call but the local write stays.
   */
  lemma LocalAddUpserts(
    token: Option<string>, wallet: Option<string>, table: map<string, PasswordEntry>,
    entry: PasswordEntry, remoteOk: bool)
    requires Js.Truthy(wallet)
    ensures var w := AddEffect(false, true, token, wallet, table, entry, remoteOk);
      var stamped := entry.(walletAddress := wallet.value);
      && entry.id in w.table && w.table[entry.id] == stamped
      && w.table.Keys == table.Keys + {entry.id}
      && (forall k :: k in table && k != entry.id ==> w.table[k] == table[k])
      && (WellKeyed(table) ==> WellKeyed(w.table))
      && w.sent == (if Js.Truthy(token) then [PostPassword(token.value, stamped)] else [])
      && (w.status == Done <==> !Js.Truthy(token) || remoteOk)
      && (w.status != Done ==> w.status == Failed(SyncFailed))
  {
  }

  /** A local write without a session wallet, or before `initialize`, changes nothing and sends nothing. */
  lemma LocalAddRefused(
    dbOpen: bool, token: Option<string>, wallet: Option<string>, table: map<string, PasswordEntry>,
    entry: PasswordEntry, remoteOk: bool)
    requires !dbOpen || !Js.Truthy(wallet)
    ensures var w := AddEffect(false, dbOpen, token, wallet, table, entry, remoteOk);
      && w.table == table && w.sent == []
      && w.status == (if !dbOpen then Failed(NotInitialized) else Failed(NoWallet))
  {
  }

  /**
   * Inside the extension a write never touches the table: without a token it fails
   * with nothing sent; otherwise the entry goes to the API as given, and the call
   * fails exactly when the API refuses it.
   */
  lemma ExtensionAddIsRemoteOnly(
    dbOpen: bool, token: Option<string>, wallet: Option<string>, table: map<string, PasswordEntry>,
    entry: PasswordEntry, remoteOk: bool)
    ensures var w := AddEffect(true, dbOpen, token, wallet, table, entry, remoteOk);
      && w.table == table
      && (!Js.Truthy(token) ==> w.status == Failed(NoAuthToken) && w.sent == [])
      && (Js.Truthy(token) ==>
            w.sent == [PostPassword(token.value, entry)]
            && w.status == (if remoteOk then Done else Failed(SaveFailed)))
  {
  }

  /**
   * Write-then-read: after a local write the next read of the same session lists
   * the stamped entry, whether or not its mirror succeeded.
   */
  lemma WriteThenRead(
    token: Option<string>, wallet: Option<string>, table: map<string, PasswordEntry>,
    entry: PasswordEntry, remoteOk: bool, listing: RemoteList)
    requires Js.Truthy(token) && Js.Truthy(wallet)
    ensures var w := AddEffect(false, true, token, wallet, table, entry, remoteOk);
      var r := ReadAll(false, true, token, wallet, w.table, listing);
      r.Read? && entry.(walletAddress := wallet.value) in r.entries
  {
    var w := AddEffect(false, true, token, wallet, table, entry, remoteOk);
    LocalReadIsScoped(true, token, wallet, w.table, listing);
    assert w.table[entry.id] in w.table.Values;
  }

  // ---------------------------------------------------------------------------
  // searching
  // ---------------------------------------------------------------------------

  /** The case-insensitive test of `searchPasswords` on one entry. */
  predicate MatchesQuery(e: PasswordEntry, query: string) {
    var q := Js.ToLowerCase(query);
    Js.Includes(Js.ToLowerCase(e.title), q)
      || Js.Includes(Js.ToLowerCase(e.username), q)
      || Js.Includes(Js.ToLowerCase(e.website), q)
  }

  /** `searchPasswords` over the list `getAllPasswords` returned. */
  function SearchResult(all: seq<PasswordEntry>, query: string): (r: seq<PasswordEntry>)
    ensures |r| <= |all|
    ensures forall e :: e in r <==> e in all && MatchesQuery(e, query)
  {
    Js.Filter(all, (e: PasswordEntry) => MatchesQuery(e, query))
  }

  /**
   * A search keeps, in their order, exactly the entries whose lowercased title,
   * username or website contains the lowercased query somewhere.
   */
  lemma SearchSemantics(all: seq<PasswordEntry>, query: string)
    ensures Js.SubsequenceOf(SearchResult(all, query), all)
    ensures forall e :: e in SearchResult(all, query) <==>
      e in all
      && ((exists i :: Js.OccursAt(Js.ToLowerCase(e.title), Js.ToLowerCase(query), i))
          || (exists i :: Js.OccursAt(Js.ToLowerCase(e.username), Js.ToLowerCase(query), i))
          || (exists i :: Js.OccursAt(Js.ToLowerCase(e.website), Js.ToLowerCase(query), i)))
  {
    Js.FilterIsSubsequence(all, (e: PasswordEntry) => MatchesQuery(e, query));
    var q := Js.ToLowerCase(query);
    forall e: PasswordEntry
      ensures MatchesQuery(e, query) <==>
        (exists i :: Js.OccursAt(Js.ToLowerCase(e.title), q, i))
        || (exists i :: Js.OccursAt(Js.ToLowerCase(e.username), q, i))
        || (exists i :: Js.OccursAt(Js.ToLowerCase(e.website), q, i))
    {
      Js.IncludesIffOccurs(Js.ToLowerCase(e.title), q);
      Js.IncludesIffOccurs(Js.ToLowerCase(e.username), q);
      Js.IncludesIffOccurs(Js.ToLowerCase(e.website), q);
    }
  }

  /** The empty query keeps everything. */
  lemma EmptyQueryKeepsAll(all: seq<PasswordEntry>)
    ensures SearchResult(all, "") == all
  {
    forall e | e in all ensures MatchesQuery(e, "") {
      Js.IncludesEmpty(Js.ToLowerCase(e.title));
    }
    Js.FilterKeepAll(all, (e: PasswordEntry) => MatchesQuery(e, ""));
  }

  // ---------------------------------------------------------------------------
  // the manager
  // ---------------------------------------------------------------------------

  class StorageManager {
    const env: Env
    /** Whether the code runs inside the extension, fixed when the page loads. */
    const isExtension: bool
    /** `this.db !== null`. */
    var dbOpen: bool

    constructor (env: Env, isExtension: bool)
      ensures this.env == env && this.isExtension == isExtension && !dbOpen
    {
      this.env := env;
      this.isExtension := isExtension;
      dbOpen := false;
    }

    /** `getAuthToken`. */
    function Token(): (t: Option<string>)
      reads env
      ensures var slots := if isExtension then env.extensionStorage else env.localStorage;
        t.Some? ==> AuthTokenKey in slots && t.value == slots[AuthTokenKey] && (isExtension ==> t.value != "")
    {
      AuthToken(isExtension, env.localStorage, env.extensionStorage)
    }

    /** `getCurrentWallet`. */
    function CurrentWallet(): (w: Option<string>)
      reads env
      ensures w.Some? <==> WalletKey in env.sessionStorage
      ensures w.Some? ==> w.value == env.sessionStorage[WalletKey]
    {
      GetItem(env.sessionStorage, WalletKey)
    }

    /** What `getAllPasswords` answers in the current state. */
    function Reading(listing: RemoteList): ReadResult
      reads this, env
    {
      ReadAll(isExtension, dbOpen, Token(), CurrentWallet(), env.passwordsTable, listing)
    }

    /** `initialize`: opens the database outside the extension; a no-op inside it. */
    method Initialize(openSucceeds: bool) returns (status: Status)
      modifies this
      ensures isExtension || !openSucceeds ==> dbOpen == old(dbOpen)
      ensures !isExtension && openSucceeds ==> dbOpen
      ensures status == (if !isExtension && !openSucceeds then Failed(OpenFailed) else Done)
    {
      status := Done;
      if !isExtension {
        if openSucceeds {
          dbOpen := true;
        } else {
          status := Failed(OpenFailed);
        }
      }
    }

    /** `getAllPasswords`. */
    method GetAllPasswords(listing: RemoteList) returns (r: ReadResult)
      modifies env`requests
      ensures r == Reading(listing)
      ensures env.requests == old(env.requests) + ReadRequests(isExtension, Token())
    {
      var token := Token();
      if !Js.Truthy(token) {
        return Read([]);
      }
      if isExtension {
        env.requests := env.requests + [GetPasswords(token.value)];
        match listing
        case FetchFailed =>
          r := Read([]);
        case Fetched(data) =>
          r := Read(data.GetOr([]));
      } else {
        if !dbOpen {
          return ReadFailed(NotInitialized);
        }
        var wallet := CurrentWallet();
        if !Js.Truthy(wallet) {
          return Read([]);
        }
        var all := Rows(env.passwordsTable);
        r := Read(Js.Filter(all, (e: PasswordEntry) => e.walletAddress == wallet.value));
      }
    }

    /** `addPassword`. */
    method AddPassword(entry: PasswordEntry, remoteOk: bool) returns (status: Status)
      modifies env`passwordsTable, env`requests
      ensures var w := AddEffect(isExtension, dbOpen, old(Token()), old(CurrentWallet()),
                                 old(env.passwordsTable), entry, remoteOk);
        status == w.status && env.passwordsTable == w.table
        && env.requests == old(env.requests) + w.sent
    {
      if !isExtension {
        if !dbOpen {
          return Failed(NotInitialized);
        }
        var wallet := CurrentWallet();
        if !Js.Truthy(wallet) {
          return Failed(NoWallet);
        }
        var stamped := entry.(walletAddress := wallet.value);
        env.passwordsTable := env.passwordsTable[entry.id := stamped];
        var token := Token();
        status := Done;
        if Js.Truthy(token) {
          env.requests := env.requests + [PostPassword(token.value, stamped)];
          if !remoteOk {
            status := Failed(SyncFailed);
          }
        }
      } else {
        var token := Token();
        if !Js.Truthy(token) {
          return Failed(NoAuthToken);
        }
        env.requests := env.requests + [PostPassword(token.value, entry)];
        status := if remoteOk then Done else Failed(SaveFailed);
      }
    }

    /** `searchPasswords`: a read, then the query filter over what it returned. */
    method SearchPasswords(query: string, listing: RemoteList) returns (r: ReadResult)
      modifies env`requests
      ensures r == match Reading(listing)
        case Read(all) => Read(SearchResult(all, query))
        case ReadFailed(e) => ReadFailed(e)
      ensures env.requests == old(env.requests) + ReadRequests(isExtension, Token())
    {
      var all := GetAllPasswords(listing);
      match all
      case ReadFailed(e) =>
        r := ReadFailed(e);
      case Read(entries) =>
        r := Read(SearchResult(entries, query));
    }
  }
}
