/**
 The retry loop of clients/jvm.py. What the network does is an oracle: for each attempt, how a
 token mint would end and how the request would end. One request runs at a time, so nobody
 else touches the cached token.
 */
module JvmRequests {
  import opened Wrappers

  type Token = nat

  /** ConnectError and ConnectTimeout precede delivery; any other transport failure is ambiguous. */
  datatype MintOutcome = Minted(token: Token) | MintNotConnected | MintLost | MintRefused

  datatype SendOutcome = NotConnected | Lost | Unauthorized | Answered(code: nat)

  datatype Exchange = Exchange(mint: MintOutcome, send: SendOutcome)

  datatype Exception = ConnectFailure | TransportFailure | StaleJwt | AuthFailure

  datatype Outcome = Returned(code: nat) | Raised(exc: Exception)

  datatype Action = Mint(minted: MintOutcome) | Send(token: Token, sent: SendOutcome)

  /** What one attempt does, the cached token it leaves and how it ends. */
  datatype Attempt = Attempt(actions: seq<Action>, jwt: Option<Token>, outcome: Outcome)

  const MAX_ATTEMPTS := 3

  predicate Retryable(exc: Exception, idempotent: bool) {
    match exc
    case ConnectFailure => true
    case StaleJwt => true
    case TransportFailure => idempotent
    case AuthFailure => false
  }

  function SendWith(token: Token, send: SendOutcome): Attempt {
    var actions := [Send(token, send)];
    match send
    case NotConnected => Attempt(actions, Some(token), Raised(ConnectFailure))
    case Lost => Attempt(actions, Some(token), Raised(TransportFailure))
    case Unauthorized => Attempt(actions, None, Raised(StaleJwt))
    case Answered(code) => Attempt(actions, Some(token), Returned(code))
  }

  /** _authed_headers, then the request. */
  function Try(jwt: Option<Token>, x: Exchange): Attempt {
    if jwt.Some? then SendWith(jwt.value, x.send)
    else match x.mint
      case Minted(token) =>
        var sent := SendWith(token, x.send);
        sent.(actions := [Mint(x.mint)] + sent.actions)
      case MintNotConnected => Attempt([Mint(x.mint)], None, Raised(ConnectFailure))
      case MintLost => Attempt([Mint(x.mint)], None, Raised(TransportFailure))
      case MintRefused => Attempt([Mint(x.mint)], None, Raised(AuthFailure))
  }

  predicate Again(a: Attempt, k: nat, idempotent: bool) {
    k + 1 < MAX_ATTEMPTS && a.outcome.Raised? && Retryable(a.outcome.exc, idempotent)
  }

  /** The attempts from attempt k on. */
  function Attempts(jwt: Option<Token>, idempotent: bool, net: nat -> Exchange, k: nat): seq<Attempt>
    requires k < MAX_ATTEMPTS
    decreases MAX_ATTEMPTS - k
  {
    var a := Try(jwt, net(k));
    if Again(a, k, idempotent) then [a] + Attempts(a.jwt, idempotent, net, k + 1) else [a]
  }

  function Trace(attempts: seq<Attempt>): seq<Action> {
    if attempts == [] then [] else attempts[0].actions + Trace(attempts[1..])
  }

  /** The JVM may have accepted this request: it was delivered, or nobody knows, and it was not a 401. */
  predicate MaybeAccepted(a: Action) {
    a.Send? && (a.sent.Lost? || a.sent.Answered?)
  }

  function CountAccepted(trace: seq<Action>): nat {
    if trace == [] then 0 else (if MaybeAccepted(trace[0]) then 1 else 0) + CountAccepted(trace[1..])
  }

  lemma {:induction false} CountConcat(a: seq<Action>, b: seq<Action>)
    ensures CountAccepted(a + b) == CountAccepted(a) + CountAccepted(b)
  {
    if a == [] {
      assert a + b == b;
    } else {
      CountConcat(a[1..], b);
      assert (a + b)[1..] == a[1..] + b;
    }
  }

  lemma TraceCons(a: Attempt, rest: seq<Attempt>)
    ensures CountAccepted(Trace([a] + rest)) == CountAccepted(a.actions) + CountAccepted(Trace(rest))
    ensures CountAccepted(Trace([])) == 0
  {
    assert ([a] + rest)[1..] == rest;
    CountConcat(a.actions, Trace(rest));
  }

  lemma AttemptCounts(jwt: Option<Token>, x: Exchange)
    ensures var a := Try(jwt, x);
      var lost := a.outcome == Raised(TransportFailure) && a.actions != [] && a.actions[|a.actions| - 1].Send?;
      && CountAccepted(a.actions) == (if a.outcome.Returned? || lost then 1 else 0)
      && a.actions != []
  {
    var a := Try(jwt, x);
    if jwt.Some? {
      assert a.actions[1..] == [];
    } else if x.mint.Minted? {
      var sent := SendWith(x.mint.token, x.send).actions;
      assert sent[1..] == [] && [Mint(x.mint)][1..] == [];
      CountConcat([Mint(x.mint)], sent);
    } else {
      assert a.actions[1..] == [];
    }
  }

  /**
   A non-idempotent call makes one to three attempts, and at most one of its requests can have
   been accepted: only the last attempt, after which nothing is sent any more.
   */
  lemma {:induction false} PostAtMostOnce(jwt: Option<Token>, net: nat -> Exchange, k: nat)
    requires k < MAX_ATTEMPTS
    ensures var attempts := Attempts(jwt, false, net, k);
      && 1 <= |attempts| <= MAX_ATTEMPTS - k
      && CountAccepted(Trace(attempts)) <= 1
      && forall i | 0 <= i < |attempts| - 1 :: CountAccepted(attempts[i].actions) == 0
    decreases MAX_ATTEMPTS - k
  {
    hide Try, CountAccepted, Trace;
    var a := Try(jwt, net(k));
    AttemptCounts(jwt, net(k));
    if Again(a, k, false) {
      var rest := Attempts(a.jwt, false, net, k + 1);
      PostAtMostOnce(a.jwt, net, k + 1);
      TraceCons(a, rest);
      forall i | 0 <= i < |[a] + rest| - 1 ensures CountAccepted(([a] + rest)[i].actions) == 0 {
        assert i > 0 ==> ([a] + rest)[i] == rest[i - 1];
      }
    } else {
      TraceCons(a, []);
      assert [a] + [] == [a];
    }
  }

  /**
   The split by idempotency is what gives at-most-once: the calls that are safe against every
   network are exactly those that are not marked idempotent.
   */
  lemma AtMostOnceIffNotIdempotent(idempotent: bool)
    ensures (forall jwt, net :: CountAccepted(Trace(Attempts(jwt, idempotent, net, 0))) <= 1) <==> !idempotent
  {
    if idempotent {
      var lossy := (k: nat) => Exchange(MintRefused, Lost);
      var jwt := Some(7);
      var a := Attempt([Send(7, Lost)], jwt, Raised(TransportFailure));
      assert Try(jwt, lossy(0)) == a;
      assert Attempts(jwt, true, lossy, 2) == [a];
      assert Attempts(jwt, true, lossy, 1) == [a] + Attempts(jwt, true, lossy, 2);
      assert Attempts(jwt, true, lossy, 0) == [a] + Attempts(jwt, true, lossy, 1);
      ThreeLost(a);
    } else {
      forall jwt, net ensures CountAccepted(Trace(Attempts(jwt, false, net, 0))) <= 1 {
        PostAtMostOnce(jwt, net, 0);
      }
    }
  }

  lemma ThreeLost(a: Attempt)
    requires a.actions == [Send(7, Lost)]
    ensures CountAccepted(Trace([a] + ([a] + [a]))) == 3
  {
    assert a.actions[1..] == [];
    TraceCons(a, []);
    assert [a] + [] == [a];
    TraceCons(a, [a]);
    TraceCons(a, [a] + [a]);
  }

  /** An attempt after which there is nothing left to try. */
  predicate Final(outcome: Outcome, idempotent: bool) {
    outcome.Returned? || outcome == Raised(AuthFailure) || (outcome == Raised(TransportFailure) && !idempotent)
  }

  /**
   When the loop ends, for every network: an attempt is the last exactly when it is the third, it
   returned a response, it was refused a token, or it failed ambiguously and is not idempotent. So
   a failure to connect and a 401 are followed by another attempt until three are made.
   */
  lemma {:induction false} LastAttemptIff(jwt: Option<Token>, idempotent: bool, net: nat -> Exchange, k: nat, i: nat)
    requires k < 3 && i < |Attempts(jwt, idempotent, net, k)|
    ensures var attempts := Attempts(jwt, idempotent, net, k);
      i == |attempts| - 1 <==> k + i == 2 || Final(attempts[i].outcome, idempotent)
    decreases i
  {
    hide Try;
    var a := Try(jwt, net(k));
    if Again(a, k, idempotent) {
      var rest := Attempts(a.jwt, idempotent, net, k + 1);
      assert Attempts(jwt, idempotent, net, k) == [a] + rest;
      if i > 0 {
        LastAttemptIff(a.jwt, idempotent, net, k + 1, i - 1);
        assert ([a] + rest)[i] == rest[i - 1];
      } else {
        assert rest != [];
      }
    }
  }

  /** No attempt follows an ambiguous failure of a non-idempotent call, and an attempt after a 401 starts by minting. */
  lemma {:induction false} NextAttempt(jwt: Option<Token>, net: nat -> Exchange, idempotent: bool, k: nat, i: nat)
    requires k < MAX_ATTEMPTS && i + 1 < |Attempts(jwt, idempotent, net, k)|
    ensures var attempts := Attempts(jwt, idempotent, net, k);
      && attempts[i].outcome.Raised?
      && (attempts[i].outcome.exc == TransportFailure ==> idempotent)
      && (attempts[i].outcome.exc == StaleJwt ==>
          attempts[i + 1].actions != [] && attempts[i + 1].actions[0].Mint?
          && forall s | s in attempts[i + 1].actions && s.Send? :: attempts[i + 1].actions[0] == Mint(Minted(s.token)))
    decreases i
  {
    var a := Try(jwt, net(k));
    var rest := Attempts(a.jwt, idempotent, net, k + 1);
    assert Attempts(jwt, idempotent, net, k) == [a] + rest;
    if i > 0 {
      NextAttempt(a.jwt, net, idempotent, k + 1, i - 1);
      assert ([a] + rest)[i] == rest[i - 1] && ([a] + rest)[i + 1] == rest[i];
    } else {
      assert rest[0] == Try(a.jwt, net(k + 1));
    }
  }

  class JvmClient {
    var jwt: Option<Token>

    constructor ()
      ensures jwt == None
    {
      jwt := None;
    }

    /** The body of one attempt: _authed_headers, the request, the 401 branch. */
    method TryOnce(x: Exchange) returns (a: Attempt)
      modifies this
      ensures a == Try(old(jwt), x) && jwt == a.jwt
    {
      var actions: seq<Action> := [];
      if jwt.None? {
        actions := [Mint(x.mint)];
        match x.mint {
          case Minted(token) => jwt := Some(token);
          case MintNotConnected => return Attempt(actions, jwt, Raised(ConnectFailure));
          case MintLost => return Attempt(actions, jwt, Raised(TransportFailure));
          case MintRefused => return Attempt(actions, jwt, Raised(AuthFailure));
        }
      }
      actions := actions + [Send(jwt.value, x.send)];
      match x.send {
        case NotConnected => return Attempt(actions, jwt, Raised(ConnectFailure));
        case Lost => return Attempt(actions, jwt, Raised(TransportFailure));
        case Unauthorized =>
          jwt := None;
          return Attempt(actions, jwt, Raised(StaleJwt));
        case Answered(code) => return Attempt(actions, jwt, Returned(code));
      }
    }

    /** _request; the returned attempts are what went over the wire. */
    method Request(idempotent: bool, net: nat -> Exchange) returns (outcome: Outcome, attempts: seq<Attempt>)
      modifies this
      ensures attempts == Attempts(old(jwt), idempotent, net, 0)
      ensures attempts != [] && outcome == attempts[|attempts| - 1].outcome && jwt == attempts[|attempts| - 1].jwt
      ensures forall i | 0 <= i < |attempts| ::
        (i == |attempts| - 1 <==> i == 2 || Final(attempts[i].outcome, idempotent))
    {
      forall i: nat | i < |Attempts(jwt, idempotent, net, 0)|
        ensures i == |Attempts(jwt, idempotent, net, 0)| - 1
          <==> i == 2 || Final(Attempts(jwt, idempotent, net, 0)[i].outcome, idempotent)
      {
        LastAttemptIff(jwt, idempotent, net, 0, i);
      }
      hide Try;
      var a := TryOnce(net(0));
      attempts := [a];
      var k := 0;
      while Again(a, k, idempotent)
        invariant k < MAX_ATTEMPTS && attempts != [] && a == attempts[|attempts| - 1] && jwt == a.jwt
        invariant Attempts(old(jwt), idempotent, net, 0)
          == if Again(a, k, idempotent) then attempts + Attempts(jwt, idempotent, net, k + 1) else attempts
        decreases MAX_ATTEMPTS - k
      {
        k := k + 1;
        a := TryOnce(net(k));
        attempts := attempts + [a];
      }
      outcome := a.outcome;
    }

    /** post: not idempotent */
    method Post(net: nat -> Exchange) returns (outcome: Outcome, attempts: seq<Attempt>)
      modifies this
      ensures 1 <= |attempts| <= 3 && CountAccepted(Trace(attempts)) <= 1
      ensures outcome == attempts[|attempts| - 1].outcome
      ensures |attempts| < 3 ==>
        outcome.Returned? || outcome == Raised(AuthFailure) || outcome == Raised(TransportFailure)
    {
      PostAtMostOnce(jwt, net, 0);
      outcome, attempts := Request(false, net);
    }
  }
}
