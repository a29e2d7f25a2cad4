/** Wallet login: a nonce is issued per address, and one signature over it is worth one login. Each
    request is one atomic step. */
module WalletAuth {
  import opened Wrappers
  import Text

  /** Five minutes, in microseconds. */
  const NONCE_TTL := 5 * 60 * 1_000_000

  datatype Record = Record(nonce: string, expiresAt: int, used: bool)

  type Store = map<string, Record>

  /** `recover(message, signature)` is the address that signed, or nothing for a malformed signature. */
  datatype Settings = Settings(prefix: string, recover: (string, string) -> Option<string>)

  datatype Request =
    | GetNonce(address: string, nonce: string, now: int)
    | Login(address: string, signature: string, now: int)
  {
    /** The key of the record the request is about. */
    function Who(): string {
      Text.ToLower(address)
    }
  }

  function LoginMessage(settings: Settings, nonce: string): string {
    settings.prefix + " " + nonce
  }

  /** Every nonce has its own message. */
  lemma MessagesDiffer(settings: Settings, nonce: string, other: string)
    requires nonce != other
    ensures LoginMessage(settings, nonce) != LoginMessage(settings, other)
  {
    var prefix := settings.prefix + " ";
    assert LoginMessage(settings, nonce)[|prefix|..] == nonce && LoginMessage(settings, other)[|prefix|..] == other;
  }

  /** The signature over the nonce recovers to the (lower-cased) address. */
  predicate Signed(settings: Settings, nonce: string, signature: string, who: string) {
    match settings.recover(LoginMessage(settings, nonce), signature)
    case None => false
    case Some(a) => Text.ToLower(a) == who
  }

  function AfterIssue(store: Store, who: string, nonce: string, now: int): Store {
    store[who := Record(nonce, now + NONCE_TTL, false)]
  }

  /** The login gets as far as looking at the signature. */
  predicate ReachesRecovery(store: Store, who: string, now: int) {
    who in store && !store[who].used && now <= store[who].expiresAt
  }

  function AfterLogin(store: Store, who: string, now: int): Store {
    if ReachesRecovery(store, who, now) then store[who := store[who].(used := true)] else store
  }

  class Auth {
    const settings: Settings
    var store: Store

    constructor (settings: Settings)
      ensures this.settings == settings && store == map[]
    {
      this.settings := settings;
      store := map[];
    }

    /** `nonce` is the fresh random token. */
    method GenerateNonce(address: string, nonce: string, now: int)
      modifies this
      ensures store == AfterIssue(old(store), Text.ToLower(address), nonce, now)
      ensures store == old(store)[Text.ToLower(address) := Record(nonce, now + 300_000_000, false)]
    {
      var who := Text.ToLower(address);
      var expiresAt := now + NONCE_TTL;
      if who in store {
        store := store[who := store[who].(nonce := nonce, expiresAt := expiresAt, used := false)];
      } else {
        store := store[who := Record(nonce, expiresAt, false)];
      }
    }

    method VerifySignatureAndConsumeNonce(address: string, signature: string, now: int) returns (ok: bool)
      modifies this
      ensures store == AfterLogin(old(store), Text.ToLower(address), now)
      ensures ok <==> ReachesRecovery(old(store), Text.ToLower(address), now) &&
                      Signed(settings, old(store)[Text.ToLower(address)].nonce, signature, Text.ToLower(address))
      ensures var who := Text.ToLower(address);
              ok <==>
              && who in old(store) && !old(store)[who].used && now <= old(store)[who].expiresAt
              && var recovered := settings.recover(settings.prefix + " " + old(store)[who].nonce, signature);
                 recovered.Some? && Text.ToLower(recovered.value) == who
    {
      var who := Text.ToLower(address);
      if who !in store || store[who].used {
        return false;
      }
      if now > store[who].expiresAt {
        return false;
      }
      var recovered := settings.recover(LoginMessage(settings, store[who].nonce), signature);
      store := store[who := store[who].(used := true)];
      ok := match recovered case None => false case Some(a) => Text.ToLower(a) == who;
    }

    /** A request as the routes handle it; only a login can succeed. */
    method Handle(request: Request) returns (ok: bool)
      modifies this
      ensures store == After(old(store), request) && (ok <==> Succeeds(settings, old(store), request))
    {
      match request
      case GetNonce(address, nonce, now) =>
        GenerateNonce(address, nonce, now);
        ok := false;
      case Login(address, signature, now) =>
        ok := VerifySignatureAndConsumeNonce(address, signature, now);
    }
  }

  function After(store: Store, request: Request): Store {
    match request
    case GetNonce(_, nonce, now) => AfterIssue(store, request.Who(), nonce, now)
    case Login(_, _, now) => AfterLogin(store, request.Who(), now)
  }

  predicate Succeeds(settings: Settings, store: Store, request: Request) {
    && request.Login? && ReachesRecovery(store, request.Who(), request.now)
    && Signed(settings, store[request.Who()].nonce, request.signature, request.Who())
  }

  /** The records after a run of requests from an empty store. */
  function AfterAll(requests: seq<Request>): Store {
    if requests == [] then map[]
    else After(AfterAll(requests[..|requests| - 1]), requests[|requests| - 1])
  }

  /** The `j`-th request of a run is a login that succeeds. */
  predicate LogsIn(settings: Settings, requests: seq<Request>, j: nat)
    requires j < |requests|
  {
    Succeeds(settings, AfterAll(requests[..j]), requests[j])
  }

  // ----- the declarative reading

  predicate IssuesTo(request: Request, who: string) {
    request.GetNonce? && request.Who() == who
  }

  predicate LogsInAs(request: Request, who: string) {
    request.Login? && request.Who() == who
  }

  /** Request `i` is the latest before `end` that issued a nonce to `who`. */
  predicate IsLatestIssue(requests: seq<Request>, i: nat, end: nat, who: string) {
    && i < end <= |requests| && IssuesTo(requests[i], who)
    && forall k :: i < k < end ==> !IssuesTo(requests[k], who)
  }

  predicate InTime(issue: Request, attempt: Request)
    requires issue.GetNonce? && attempt.Login?
  {
    attempt.now <= issue.now + 300_000_000
  }

  /** After request `i` issued a nonce, some login before `end` was in time to use it up. */
  predicate UsedUp(requests: seq<Request>, i: nat, end: nat)
    requires i < end <= |requests| && requests[i].GetNonce?
  {
    exists k :: i < k < end && LogsInAs(requests[k], requests[i].Who()) && InTime(requests[i], requests[k])
  }

  /** What the store holds for `who` after the first `n` requests. */
  ghost predicate HoldsLatest(requests: seq<Request>, n: nat, who: string)
    requires n <= |requests|
  {
    var store := AfterAll(requests[..n]);
    if who in store then
      exists i: nat :: IsLatestIssue(requests, i, n, who) &&
        store[who] == Record(requests[i].nonce, requests[i].now + NONCE_TTL, UsedUp(requests, i, n))
    else forall k :: 0 <= k < n ==> !IssuesTo(requests[k], who)
  }

  lemma {:induction false} StoreHoldsLatest(requests: seq<Request>, n: nat, who: string)
    requires n <= |requests|
    ensures HoldsLatest(requests, n, who)
  {
    if n > 0 {
      StoreHoldsLatest(requests, n - 1, who);
      assert requests[..n][..n - 1] == requests[..n - 1];
      HoldsLatestStep(requests, n - 1, who);
    }
  }

  lemma HoldsLatestStep(requests: seq<Request>, n: nat, who: string)
    requires n < |requests| && HoldsLatest(requests, n, who)
    ensures HoldsLatest(requests, n + 1, who)
  {
    assert requests[..n + 1][..n] == requests[..n];
    var before, request := AfterAll(requests[..n]), requests[n];
    assert AfterAll(requests[..n + 1]) == After(before, request);
    if IssuesTo(request, who) {
      assert IsLatestIssue(requests, n, n + 1, who);
      assert !UsedUp(requests, n, n + 1);
    } else if who in before {
      var i: nat :| IsLatestIssue(requests, i, n, who) &&
        before[who] == Record(requests[i].nonce, requests[i].now + NONCE_TTL, UsedUp(requests, i, n));
      assert IsLatestIssue(requests, i, n + 1, who);
      UsedUpStep(requests, i, n);
    }
  }

  lemma UsedUpStep(requests: seq<Request>, i: nat, n: nat)
    requires i < n < |requests| && requests[i].GetNonce?
    ensures UsedUp(requests, i, n + 1) <==>
            UsedUp(requests, i, n) || (LogsInAs(requests[n], requests[i].Who()) && InTime(requests[i], requests[n]))
  {
    if UsedUp(requests, i, n) {
      var k :| i < k < n && LogsInAs(requests[k], requests[i].Who()) && InTime(requests[i], requests[k]);
      assert LogsInAs(requests[k], requests[i].Who());
    }
  }

  /** A login succeeds exactly when some nonce was issued to its address, the latest one was issued at
      most five minutes before, no earlier login was in time to use that one up, and the signature over
      that very nonce is the address's. */
  lemma LoginSucceedsExactly(settings: Settings, requests: seq<Request>, j: nat)
    requires j < |requests| && requests[j].Login?
    ensures LogsIn(settings, requests, j) <==>
            exists i: nat :: IsLatestIssue(requests, i, j, requests[j].Who()) && Authorises(settings, requests, i, j)
  {
    var who := requests[j].Who();
    var store := AfterAll(requests[..j]);
    StoreHoldsLatest(requests, j, who);
    if who in store {
      var i: nat :| IsLatestIssue(requests, i, j, who) &&
        store[who] == Record(requests[i].nonce, requests[i].now + NONCE_TTL, UsedUp(requests, i, j));
      assert LogsIn(settings, requests, j) <==> Authorises(settings, requests, i, j);
      forall l: nat | IsLatestIssue(requests, l, j, who)
        ensures l == i
      {
        assert !(l < i) && !(i < l);
      }
    }
  }

  /** The nonce that request `i` issued lets login `j` in. */
  predicate Authorises(settings: Settings, requests: seq<Request>, i: nat, j: nat)
    requires i < j < |requests| && requests[i].GetNonce? && requests[j].Login?
  {
    && InTime(requests[i], requests[j]) && !UsedUp(requests, i, j)
    && var recovered := settings.recover(settings.prefix + " " + requests[i].nonce, requests[j].signature);
       recovered.Some? && Text.ToLower(recovered.value) == Text.ToLower(requests[j].address)
  }

  /** No issued nonce authorises two logins: the first uses it up. */
  lemma OneLoginPerNonce(settings: Settings, requests: seq<Request>, i: nat, j: nat, k: nat)
    requires i < j < k < |requests| && requests[i].GetNonce? && requests[j].Login? && requests[k].Login?
    requires requests[j].Who() == requests[i].Who() == requests[k].Who()
    ensures !(Authorises(settings, requests, i, j) && Authorises(settings, requests, i, k))
  {
  }

  /** Between two successful logins of one address a new nonce was issued to it. */
  lemma FreshNonceBetweenLogins(settings: Settings, requests: seq<Request>, j: nat, k: nat)
    requires j < k < |requests| && LogsIn(settings, requests, j) && LogsIn(settings, requests, k)
    requires requests[j].Who() == requests[k].Who()
    ensures exists i :: j < i < k && IssuesTo(requests[i], requests[j].Who())
  {
    LoginSucceedsExactly(settings, requests, j);
    LoginSucceedsExactly(settings, requests, k);
    var who := requests[j].Who();
    var i: nat :| IsLatestIssue(requests, i, j, who) && Authorises(settings, requests, i, j);
    var l: nat :| IsLatestIssue(requests, l, k, who) && Authorises(settings, requests, l, k);
    if l == i {
      OneLoginPerNonce(settings, requests, i, j, k);
    } else {
      assert !(l < i);
      assert j < l by {
        assert IssuesTo(requests[l], who);
      }
    }
  }
}
