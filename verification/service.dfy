/** The proxy's service: one generic call, from method name to answer. */
module Service {
  import opened Automata
  import opened Allow
  import Config

  type Target = Config.Target

  datatype Code = BadRequest | Refused | NoRoute | Backend(code: nat)

  datatype CallError = CallError(code: Code, target: Option<Target>)

  datatype Answer = Payload(bytes: seq<Byte>) | Failure(error: CallError)

  type Router = string -> Option<Target>
  type Invoke = (Target, string, seq<Byte>) -> Answer

  datatype Stats = Stats(name: string, target: Option<Target>, error: Option<Code>, reqBytes: nat, resBytes: nat)

  class Response {
    var payload: seq<Byte>
    var error: Option<CallError>

    constructor ()
      ensures payload == [] && error == None
    {
      payload, error := [], None;
    }
  }

  /** `m` is a service and a name. */
  ghost predicate IsMethod(m: string) {
    exists s, name :: NamesMethod(m, s, name)
  }

  /** The router gives `t`, or nothing, for the service of `m`. */
  ghost predicate Routed(route: Router, m: string, t: Option<Target>) {
    exists s, name :: NamesMethod(m, s, name) && route(s) == t
  }

  lemma {:induction false} RoutedIff(route: Router, m: string, t: Option<Target>)
    ensures IsMethod(m) <==> SplitMethod(m).Some?
    ensures Routed(route, m, t) <==> SplitMethod(m).Some? && route(SplitMethod(m).value) == t
  {
    hide SplitMethod;
    forall s, name | NamesMethod(m, s, name) ensures SplitMethod(m) == Some(s) {
      SplitNames(m, s);
    }
    if SplitMethod(m).Some? {
      SplitNames(m, SplitMethod(m).value);
    }
  }

  lemma {:induction false} CallIsDecided(list: Option<Allowlist>, raws: seq<string>, route: Router, m: string)
    requires BuiltFrom(list, raws)
    ensures list.Some? && Decide(list, m) != Allowed <==> !LetsThrough(list, raws, m)
    ensures IsMethod(m) <==> SplitMethod(m).Some?
    ensures forall t :: Routed(route, m, t) <==> SplitMethod(m).Some? && route(SplitMethod(m).value) == t
  {
    hide SplitMethod, Decide, Admits, BuiltFrom, IsMethod, Routed;
    DecideIff(list, raws, m);
    RoutedIff(route, m, None);
    forall t ensures Routed(route, m, t) <==> SplitMethod(m).Some? && route(SplitMethod(m).value) == t {
      RoutedIff(route, m, t);
    }
  }

  /** Which code a call gets that is turned away. */
  ghost predicate TurnedAwayWith(code: Code, list: Option<Allowlist>, raws: seq<string>, route: Router, m: string) {
    match code
    case BadRequest => !IsMethod(m)
    case Refused => IsMethod(m) && !LetsThrough(list, raws, m)
    case NoRoute => IsMethod(m) && LetsThrough(list, raws, m) && Routed(route, m, None)
    case Backend(_) => false
  }

  class GenericProxy {
    const router: Option<Router>
    const allow: Option<Allowlist>
    ghost const raws: seq<string>     // the entries the list was built from
    const invoker: Option<Invoke>
    var observed: seq<Stats>

    constructor (router: Option<Router>, allow: Option<Allowlist>, ghost raws: seq<string>, invoker: Option<Invoke>)
      requires BuiltFrom(allow, raws)
      ensures this.router == router && this.allow == allow && this.invoker == invoker && observed == []
      ensures this.raws == raws
    {
      this.router, this.allow, this.raws, this.invoker, observed := router, allow, raws, invoker, [];
    }

    /** Every failure of a call is reported in the response; the returned error is for a
        caller that passed no response or a proxy put together without its parts.  The invoker
        is asked, for the target the router gives, exactly if the method is a service and a
        name and gets past the list; each other call gets the code of what it failed. */
    method Call(m: string, payload: seq<Byte>, res: Response?) returns (failed: bool, ghost asked: Option<Target>)
      requires BuiltFrom(allow, raws)
      modifies this, if res == null then {} else {res}
      ensures failed <==> res == null || router.None? || invoker.None?
      ensures failed ==> asked.None? && observed == old(observed) && (res != null ==> unchanged(res))
      ensures forall t ::
                asked == Some(t) <==> !failed && LetsThrough(allow, raws, m) && Routed(router.value, m, Some(t))
      ensures asked.Some? ==>
                var answer := invoker.value(asked.value, m, payload);
                && res.payload == (if answer.Payload? then answer.bytes else old(res.payload))
                && res.error == (if answer.Failure? then Some(answer.error) else old(res.error))
      ensures !failed && asked.None? ==>
                && res.payload == old(res.payload) && res.error.Some? && res.error.value.target.None?
                && TurnedAwayWith(res.error.value.code, allow, raws, router.value, m)
      ensures !failed ==>
                observed == old(observed)
                  + [Stats(m, asked, if res.error.Some? then Some(res.error.value.code) else None,
                           |payload|, |res.payload|)]
    {
      hide SplitMethod, Decide, BuiltFrom, LetsThrough, IsMethod, Routed;
      asked := None;
      if res == null {
        return true, None;
      }
      if router.None? || invoker.None? {
        return true, None;
      }
      CallIsDecided(allow, raws, router.value, m);
      var target: Option<Target> := None;
      var service := SplitMethod(m);
      if service.None? {
        res.error := Some(CallError(BadRequest, None));
      } else if allow.Some? && Decide(allow, m) != Allowed {
        res.error := Some(CallError(Refused, None));
      } else {
        target := router.value(service.value);
        if target.None? {
          res.error := Some(CallError(NoRoute, None));
        } else {
          asked := target;
          var answer := invoker.value(target.value, m, payload);
          match answer
          case Failure(e) => res.error := Some(e);
          case Payload(b) => res.payload := b;
        }
      }
      Observe(m, res, target, |payload|);
      failed := false;
    }

    method Observe(m: string, res: Response, target: Option<Target>, reqBytes: nat)
      modifies `observed
      ensures observed == old(observed) +
              [Stats(m, if target.None? && res.error.Some? then res.error.value.target else target,
                    if res.error.Some? then Some(res.error.value.code) else None, reqBytes, |res.payload|)]
    {
      var stats := Stats(m, target, None, reqBytes, |res.payload|);
      if res.error.Some? {
        stats := stats.(error := Some(res.error.value.code));
        if stats.target.None? {
          stats := stats.(target := res.error.value.target);
        }
      }
      observed := observed + [stats];
    }
  }

  /** With a non-empty list, the target whose invoker is asked is one the router gives for the
      service part of some entry, and some entry, read directly, admits the method. */
  lemma {:induction false} AskedIsListed(raws: seq<string>, a: Allowlist, route: Router, m: string, t: Target)
    requires BuiltFrom(Some(a), raws) && !Empty(a)
    requires LetsThrough(Some(a), raws, m) && Routed(route, m, Some(t))
    ensures exists i :: 0 <= i < |raws| && route(ServicePart(raws[i])) == Some(t)
    ensures exists i :: 0 <= i < |raws| && Admits(raws[i], m)
  {
    hide Parse, Admits, ServicePart, SplitMethod, LetsThrough;
    DecideIff(Some(a), raws, m);
    RoutedIff(route, m, Some(t));
    AllowedIsRouted(raws, a, m);
    AllowsIff(raws, a, m);
  }
}
