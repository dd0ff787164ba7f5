/** The credential engine of store.py: the secrets file as a map from names
    to entries, the iterated password hash, and the login, add, edit and
    remove routes over that map. The file is read at the start of each
    route and written back at its end; the map held by `SecretsFile` is its
    contents between routes. */
module Credentials {
  import opened Wrappers
  import opened PyText

  // =====================================================================
  // Data model

  /** One top-level value of the secrets file: an account record, or one
      of the settings (`salt`, `secret_key_len`) stored alongside them. */
  datatype Secret =
    | Account(passwordHash: string, hashAlgo: string, rehashCount: int, removable: bool)
    | Setting

  /** The `hashlib` module as the routes use it: the constructor names
      `getattr` finds, the extendable-output ones among them (`shake_*`,
      whose `hexdigest()` needs a length), and the hex digest each computes
      on the encoded text. */
  datatype Hashlib = Hashlib(names: set<string>, xof: set<string>, digest: (string, string) -> string)

  /** The page a route ends on, other than by an exception. */
  datatype Notice =
    | MismatchPassword
    | UsernameTaken
    | AccountCreated
    | UnknownPassword
    | EditSuccess
    | AccountRemoved
    | MissingAccount

  // =====================================================================
  // Hashing

  /** `hexdigest` applied `n` times to `s`; `range(n)` is empty for `n <= 0`. */
  function Chain(hl: Hashlib, algo: string, n: int, s: string): string
    decreases n
  {
    if n <= 0 then s else hl.digest(algo, Chain(hl, algo, n - 1, s))
  }

  /** `getattr(hash, algo)` finds a constructor, and the loop never asks an
      extendable-output digest for a length-less `hexdigest()`. */
  predicate HashUsable(hl: Hashlib, algo: string, n: int)
  {
    algo in hl.names && !(algo in hl.xof && n > 0)
  }

  /** The exception a failed hashing step raises. */
  function HashError(hl: Hashlib, algo: string): PyError
  {
    if algo !in hl.names then AttributeError else TypeError
  }

  /** `hash_func = getattr(hash, algo)` followed by
      `for each in range(n): gen_hash = hash_func(gen_hash.encode()).hexdigest()`. */
  method IteratedHash(hl: Hashlib, algo: string, n: int, password: string) returns (r: Result<string>)
    ensures HashUsable(hl, algo, n) ==> r == Ok(Chain(hl, algo, n, password))
    ensures !HashUsable(hl, algo, n) ==> r == Err(HashError(hl, algo))
  {
    if algo !in hl.names {
      return Err(AttributeError);
    }
    var genHash := password;
    var each := 0;
    while each < n
      invariant 0 <= each && (n > 0 ==> each <= n) && (n <= 0 ==> each == 0)
      invariant genHash == Chain(hl, algo, each, password)
      invariant each > 0 ==> algo !in hl.xof
    {
      if algo in hl.xof {
        return Err(TypeError);
      }
      genHash := hl.digest(algo, genHash);
      each := each + 1;
    }
    r := Ok(genHash);
  }

  // =====================================================================
  // What the file means

  /** The name and password pass `login_post`: the name holds an account,
      its lower-cased algorithm can hash that many times, and the chain of
      the password equals the stored hash. */
  predicate Authenticates(secrets: map<string, Secret>, hl: Hashlib, username: string, password: string)
  {
    username in secrets && secrets[username].Account? &&
    var acct := secrets[username];
    HashUsable(hl, Lower(acct.hashAlgo), acct.rehashCount) &&
    Chain(hl, Lower(acct.hashAlgo), acct.rehashCount, password) == acct.passwordHash
  }

  /** The record `add_account` writes. */
  function NewAccount(hl: Hashlib, algo: string, n: int, password: string, removable: bool): Secret
  {
    Account(Chain(hl, algo, n, password), algo, n, removable)
  }

  /** Every constructor name of the module is lower-case, as in `hashlib`. */
  predicate LowerCaseNames(hl: Hashlib)
  {
    forall a :: a in hl.names ==> Lower(a) == a
  }

  /** The digest tells different inputs apart. */
  ghost predicate Injective(hl: Hashlib, algo: string)
  {
    forall a, b :: hl.digest(algo, a) == hl.digest(algo, b) ==> a == b
  }

  /** What `remove_account` answers: a name not in the file makes the
      route call `serve_remove_account(error=...)`, whose parameter is
      `errors`, so that call raises `TypeError`. */
  function RemovalOutcome(secrets: map<string, Secret>, account: string): (r: Result<Notice>)
    ensures r.Ok? <==> account in secrets
  {
    if account !in secrets then Err(TypeError) else Ok(AccountRemoved)
  }

  /** What `remove_account` evidently means to answer: the "Account Not
      Found!" notice for a name not in the file, never an exception. */
  function IntendedRemovalOutcome(secrets: map<string, Secret>, account: string): (r: Result<Notice>)
    ensures r.Ok?
    ensures r.value == MissingAccount <==> account !in secrets
  {
    if account !in secrets then Ok(MissingAccount) else Ok(AccountRemoved)
  }

  // =====================================================================
  // The secrets file and its routes

  class SecretsFile {
    var secrets: map<string, Secret>

    constructor (contents: map<string, Secret>)
      ensures secrets == contents
    {
      secrets := contents;
    }

    /** `login_post`: `Ok(true)` logs the user in, `Ok(false)` sends them
        back to the login page. A name that holds a setting rather than an
        account, an unknown algorithm and a length-less digest raise. */
    method LoginPost(hl: Hashlib, username: string, password: string) returns (r: Result<bool>)
      ensures r == Ok(true) <==> Authenticates(secrets, hl, username, password)
      ensures username !in secrets ==> r == Ok(false)
      ensures username in secrets && secrets[username].Setting? ==> r == Err(TypeError)
      ensures username in secrets && secrets[username].Account? ==>
        var acct := secrets[username];
        if HashUsable(hl, Lower(acct.hashAlgo), acct.rehashCount) then r.Ok?
        else r == Err(HashError(hl, Lower(acct.hashAlgo)))
    {
      if username !in secrets {
        return Ok(false);
      }
      var entry := secrets[username];
      if entry.Setting? {
        return Err(TypeError);
      }
      var storedHash := entry.passwordHash;
      var genHash := IteratedHash(hl, Lower(entry.hashAlgo), entry.rehashCount, password);
      if genHash.Err? {
        return Err(genHash.error);
      }
      r := Ok(storedHash == genHash.value);
    }

    /** `add_account`: a password mismatch is reported before the name is
        looked at; a name already in the file (account or setting) is
        reported as taken; otherwise the password is hashed with the chosen
        algorithm and count and exactly one entry is added. Nothing is
        written on any other path. */
    method AddAccount(hl: Hashlib, username: string, password: string, passwordCheck: string,
                      hashAlgo: string, hashNumber: int, removableField: string)
      returns (r: Result<Notice>)
      modifies this
      ensures password != passwordCheck ==> r == Ok(MismatchPassword) && secrets == old(secrets)
      ensures password == passwordCheck && username in old(secrets) ==>
        r == Ok(UsernameTaken) && secrets == old(secrets)
      ensures password == passwordCheck && username !in old(secrets) && !HashUsable(hl, hashAlgo, hashNumber) ==>
        r == Err(HashError(hl, hashAlgo)) && secrets == old(secrets)
      ensures password == passwordCheck && username !in old(secrets) && HashUsable(hl, hashAlgo, hashNumber) ==>
        r == Ok(AccountCreated) &&
        secrets == old(secrets)[username := NewAccount(hl, hashAlgo, hashNumber, password, removableField == "on")]
    {
      var removable := removableField == "on";
      if password != passwordCheck {
        return Ok(MismatchPassword);
      }
      if username in secrets {
        return Ok(UsernameTaken);
      }
      var genHash := IteratedHash(hl, hashAlgo, hashNumber, password);
      if genHash.Err? {
        return Err(genHash.error);
      }
      secrets := secrets[username := Account(genHash.value, hashAlgo, hashNumber, removable)];
      r := Ok(AccountCreated);
    }

    /** `edit_account` for the logged-in `username`: a mismatch is reported
        first; then the entry is read (a missing name or a setting raises);
        a changed algorithm, then a changed count, with an empty password is
        refused; otherwise the supplied password, even an empty one, is
        re-hashed and the hash, count and algorithm are overwritten, the
        removable flag kept. */
    method EditAccount(hl: Hashlib, username: string, password: string, passwordCheck: string,
                       hashAlgo: string, hashNumber: int)
      returns (r: Result<Notice>)
      modifies this
      ensures password != passwordCheck ==> r == Ok(MismatchPassword) && secrets == old(secrets)
      ensures password == passwordCheck && username !in old(secrets) ==>
        r == Err(KeyError) && secrets == old(secrets)
      ensures password == passwordCheck && username in old(secrets) && old(secrets)[username].Setting? ==>
        r == Err(TypeError) && secrets == old(secrets)
      ensures password == passwordCheck && username in old(secrets) && old(secrets)[username].Account? ==>
        var acct := old(secrets)[username];
        if password == "" && (hashAlgo != acct.hashAlgo || hashNumber != acct.rehashCount) then
          r == Ok(UnknownPassword) && secrets == old(secrets)
        else if !HashUsable(hl, hashAlgo, hashNumber) then
          r == Err(HashError(hl, hashAlgo)) && secrets == old(secrets)
        else
          r == Ok(EditSuccess) &&
          secrets == old(secrets)[username := acct.(passwordHash := Chain(hl, hashAlgo, hashNumber, password),
                                                    rehashCount := hashNumber, hashAlgo := hashAlgo)]
    {
      if password != passwordCheck {
        return Ok(MismatchPassword);
      }
      if username !in secrets {
        return Err(KeyError);
      }
      var entry := secrets[username];
      if entry.Setting? {
        return Err(TypeError);
      }
      if hashAlgo != entry.hashAlgo && (password == "" || passwordCheck == "") {
        return Ok(UnknownPassword);
      }
      if hashNumber != entry.rehashCount && (password == "" || passwordCheck == "") {
        return Ok(UnknownPassword);
      }
      var genHash := IteratedHash(hl, hashAlgo, hashNumber, password);
      if genHash.Err? {
        return Err(genHash.error);
      }
      var updated := entry.(passwordHash := genHash.value);
      updated := updated.(rehashCount := hashNumber);
      updated := updated.(hashAlgo := hashAlgo);
      secrets := secrets[username := updated];
      r := Ok(EditSuccess);
    }

    /** `remove_account` as written: any entry named in the form is deleted,
        whatever its removable flag; an unknown name raises. */
    method RemoveAccount(account: string) returns (r: Result<Notice>)
      modifies this
      ensures r == RemovalOutcome(old(secrets), account)
      ensures secrets == old(secrets) - {account}
    {
      if account !in secrets {
        return Err(TypeError);
      }
      secrets := secrets - {account};
      r := Ok(AccountRemoved);
    }

    /** `remove_account` as its author meant it: an unknown name shows the
        "Account Not Found!" notice and leaves the file alone. */
    method RemoveAccountAsIntended(account: string) returns (r: Result<Notice>)
      modifies this
      ensures r == IntendedRemovalOutcome(old(secrets), account)
      ensures secrets == old(secrets) - {account}
    {
      if account !in secrets {
        return Ok(MissingAccount);
      }
      secrets := secrets - {account};
      r := Ok(AccountRemoved);
    }

    /** The filter of `serve_remove_account`: the names of the entries that
        are account records with the removable flag set, each once. */
    method RemovableAccounts() returns (names: seq<string>)
      ensures forall u :: u in names <==> u in secrets && secrets[u].Account? && secrets[u].removable
      ensures Distinct(names)
    {
      var workable: map<string, Secret> := map[];
      var pending := secrets.Keys;
      while pending != {}
        invariant pending <= secrets.Keys
        invariant forall u :: u in workable <==> u in secrets.Keys - pending && secrets[u].Account?
        invariant forall u :: u in workable ==> workable[u] == secrets[u]
        decreases pending
      {
        var each :| each in pending;
        if secrets[each].Account? {
          workable := workable[each := secrets[each]];
        }
        pending := pending - {each};
      }
      names := [];
      pending := workable.Keys;
      while pending != {}
        invariant pending <= workable.Keys
        invariant forall u :: u in names <==> u in workable.Keys - pending && workable[u].removable
        invariant Distinct(names)
        decreases pending
      {
        var each :| each in pending;
        if workable[each].removable {
          names := names + [each];
        }
        pending := pending - {each};
      }
    }
  }

  // =====================================================================
  // Properties of the credential engine

  /** Chaining an injective digest is injective: one stored hash admits one password. */
  lemma {:induction false} ChainInjective(hl: Hashlib, algo: string, n: int, a: string, b: string)
    requires Injective(hl, algo)
    requires Chain(hl, algo, n, a) == Chain(hl, algo, n, b)
    ensures a == b
    decreases n
  {
    if n > 0 {
      ChainInjective(hl, algo, n - 1, a, b);
    }
  }

  /** An account `add_account` creates accepts its own password at login. */
  lemma NewAccountCanLogIn(secrets: map<string, Secret>, hl: Hashlib, username: string,
                           algo: string, n: int, password: string, removable: bool)
    requires LowerCaseNames(hl) && HashUsable(hl, algo, n)
    ensures Authenticates(secrets[username := NewAccount(hl, algo, n, password, removable)], hl, username, password)
  {
  }

  /** With an injective digest, no other password opens that account. */
  lemma OtherPasswordRejected(secrets: map<string, Secret>, hl: Hashlib, username: string,
                              algo: string, n: int, password: string, removable: bool, other: string)
    requires LowerCaseNames(hl) && algo in hl.names
    requires Injective(hl, algo) && other != password
    ensures !Authenticates(secrets[username := NewAccount(hl, algo, n, password, removable)], hl, username, other)
  {
    if Authenticates(secrets[username := NewAccount(hl, algo, n, password, removable)], hl, username, other) {
      ChainInjective(hl, algo, n, other, password);
    }
  }

  /** After a successful edit the account accepts the new password. */
  lemma EditedAccountCanLogIn(secrets: map<string, Secret>, hl: Hashlib, username: string,
                              algo: string, n: int, password: string)
    requires LowerCaseNames(hl) && HashUsable(hl, algo, n)
    requires username in secrets && secrets[username].Account?
    ensures Authenticates(secrets[username := secrets[username].(passwordHash := Chain(hl, algo, n, password),
                                                                 rehashCount := n, hashAlgo := algo)],
                          hl, username, password)
  {
  }

  /** Submitting the edit form with both password fields empty and the
      hashing settings unchanged passes every check and stores the chain of
      the empty string: afterwards the empty password logs in. */
  lemma EmptyPasswordEditOpensAccount(secrets: map<string, Secret>, hl: Hashlib, username: string)
    requires LowerCaseNames(hl)
    requires username in secrets && secrets[username].Account?
    requires HashUsable(hl, secrets[username].hashAlgo, secrets[username].rehashCount)
    ensures var acct := secrets[username];
      Authenticates(secrets[username := acct.(passwordHash := Chain(hl, acct.hashAlgo, acct.rehashCount, ""))],
                    hl, username, "")
  {
  }

  /** Removing an entry locks that name out and leaves every other login as it was. */
  lemma RemovalOnlyLocksOutThatName(secrets: map<string, Secret>, hl: Hashlib, account: string,
                                    username: string, password: string)
    ensures !Authenticates(secrets - {account}, hl, account, password)
    ensures username != account ==>
      (Authenticates(secrets - {account}, hl, username, password) <==> Authenticates(secrets, hl, username, password))
  {
  }

  /** Adding an entry under a fresh name leaves every other login as it was. */
  lemma AddingKeepsOtherLogins(secrets: map<string, Secret>, hl: Hashlib, newName: string, entry: Secret,
                               username: string, password: string)
    requires username != newName
    ensures Authenticates(secrets[newName := entry], hl, username, password) <==>
      Authenticates(secrets, hl, username, password)
  {
  }

  /** The as-written removal of an unknown name fails where the intended one
      reports the missing account: any name not in the file shows it. */
  lemma UnknownAccountRemovalCrashes(secrets: map<string, Secret>)
    requires "nobody" !in secrets
    ensures RemovalOutcome(secrets, "nobody") == Err(TypeError)
    ensures IntendedRemovalOutcome(secrets, "nobody") == Ok(MissingAccount)
  {
  }
}
