/** The DNS runner manager: internal/pkg/dns/manager.go. */
module DnsManager {

  datatype AddressPair = AddressPair(network: string, addr: nat)

  type Token = nat

  datatype RemoveError = NoError | SupervisorNotRunning | Timeout | OtherError

  datatype Status = StatusNew | StatusRunning | StatusRemoved

  datatype RunResult = RunResult(pair: AddressPair, status: Status, failed: bool)

  /** A removal that was asked for, and whether it reported an error. */
  datatype Removal = Removal(token: Token, failed: bool)

  /** The supervisor: tokens are never reused; a removal that reports an error may or may not
      have stopped the service. */
  class Supervisor {
    var live: set<Token>
    var next: Token
    ghost var removals: seq<Removal>
    /** The removals that failed for another reason than a stopped supervisor or a timeout. */
    ghost var loud: seq<Token>

    constructor ()
      ensures live == {} && removals == [] && loud == []
    {
      live, next, removals, loud := {}, 0, [], [];
    }

    ghost predicate Valid()
      reads this
    {
      forall t :: t in live ==> t < next
    }

    method Add() returns (t: Token)
      requires Valid()
      modifies this
      ensures Valid() && t == old(next) && next == old(next) + 1
      ensures live == old(live) + {t} && removals == old(removals) && loud == old(loud)
    {
      t := next;
      next := next + 1;
      live := live + {t};
    }

    method RemoveAndWait(t: Token) returns (err: RemoveError)
      requires Valid()
      modifies this
      ensures Valid() && next == old(next) && removals == old(removals) + [Removal(t, !err.NoError?)]
      ensures loud == old(loud) + if err.OtherError? then [t] else []
      ensures err.NoError? ==> live == old(live) - {t}
      ensures !err.NoError? ==> live == old(live) || live == old(live) - {t}
    {
      err := *;
      var stopped: bool := *;
      if err.NoError? || stopped {
        live := live - {t};
      }
      removals := removals + [Removal(t, !err.NoError?)];
      loud := loud + if err.OtherError? then [t] else [];
    }
  }

  ghost predicate Injective(runners: map<AddressPair, Token>) {
    forall p, q :: p in runners && q in runners && p != q ==> runners[p] != runners[q]
  }

  ghost predicate Owned(runners: map<AddressPair, Token>, t: Token) {
    exists p :: p in runners && runners[p] == t
  }

  function Set<T(==)>(s: seq<T>): set<T> {
    set x | x in s
  }

  /** A runner for `p` was created among these results. */
  ghost predicate Created(results: seq<RunResult>, p: AddressPair) {
    RunResult(p, StatusNew, false) in results
  }

  /** What the first loop reports: a requested pair is running when it was there before or was
      created earlier in the same pass, and is otherwise new. */
  ghost predicate Reports(before: map<AddressPair, Token>, pairs: seq<AddressPair>, results: seq<RunResult>) {
    && |results| <= |pairs|
    && forall i :: 0 <= i < |results| ==>
        && results[i].pair == pairs[i]
        && if pairs[i] in before || Created(results[..i], pairs[i])
           then results[i].status == StatusRunning && !results[i].failed
           else results[i].status == StatusNew
  }

  /** The runners after the first loop: the old ones untouched, and one for each pair created. */
  ghost predicate Extends(before: map<AddressPair, Token>, after: map<AddressPair, Token>, results: seq<RunResult>, firstNew: Token) {
    && (forall p :: p in after <==> p in before || Created(results, p))
    && (forall p :: p in before ==> after[p] == before[p])
    && (forall p :: p in after && p !in before ==> after[p] >= firstNew)
  }

  class Manager {
    var runners: map<AddressPair, Token>
    const s: Supervisor
    var stops: nat

    constructor ()
      ensures Valid() && Consistent() && runners == map[] && fresh(s)
    {
      s := new Supervisor();
      runners, stops := map[], 0;
    }

    ghost predicate Valid()
      reads this, s
    {
      s.Valid() && Injective(runners) && forall p :: p in runners ==> runners[p] < s.next
    }

    /** The supervisor runs exactly what the map says. */
    ghost predicate Consistent()
      reads this, s
    {
      forall t :: t in s.live <==> Owned(runners, t)
    }

    /** One requested pair: keep a runner that is there, try to create one that is not. */
    method StartOne(cfg: AddressPair) returns (r: RunResult)
      requires Valid()
      modifies this`runners, s
      ensures Valid() && s.removals == old(s.removals) && s.next >= old(s.next)
      ensures r.pair == cfg && r.status == if cfg in old(runners) then StatusRunning else StatusNew
      ensures r.failed ==> r.status == StatusNew
      ensures runners == if r.status == StatusNew && !r.failed then old(runners)[cfg := old(s.next)] else old(runners)
      ensures old(Consistent()) ==> Consistent()
    {
      if cfg in runners {
        return RunResult(cfg, StatusRunning, false);
      }
      var failed: bool := *;
      if !failed {
        var token := s.Add();
        ghost var before := runners;
        runners := runners[cfg := token];
        assert forall t :: Owned(runners, t) <==> Owned(before, t) || t == token by {
          OwnedAfterAdd(before, cfg, token);
        }
      }
      return RunResult(cfg, StatusNew, failed);
    }

    /** The first loop of RunAll. `stopAt` is the number of results after which the consumer
        breaks off; 0 stands for a consumer that never does. */
    method StartRequested(pairs: seq<AddressPair>, stopAt: nat) returns (results: seq<RunResult>, complete: bool)
      requires Valid()
      modifies this`runners, s
      ensures Valid() && s.removals == old(s.removals) && s.next >= old(s.next)
      ensures Reports(old(runners), pairs, results) && Extends(old(runners), runners, results, old(s.next))
      ensures complete <==> |results| == |pairs| && !(0 < stopAt <= |pairs|)
      ensures !complete ==> |results| == stopAt
      ensures old(Consistent()) ==> Consistent()
    {
      results := [];
      for i := 0 to |pairs|
        invariant Valid() && s.removals == old(s.removals) && s.next >= old(s.next)
        invariant |results| == i && Reports(old(runners), pairs, results)
        invariant Extends(old(runners), runners, results, old(s.next))
        invariant stopAt == 0 || i < stopAt
        invariant old(Consistent()) ==> Consistent()
      {
        ghost var before, next := runners, s.next;
        var r := StartOne(pairs[i]);
        StartStep(old(runners), before, runners, pairs, results, r, old(s.next), next);
        hide Reports, Extends;
        results := results + [r];
        if |results| == stopAt {
          return results, false;
        }
      }
      return results, true;
    }

    /** Part of the runners of `before` have been stopped and forgotten, as `results` say. */
    ghost predicate Stopping(before: map<AddressPair, Token>, removals: seq<Removal>, consistent: bool,
                             preserve: set<AddressPair>, results: seq<RunResult>)
      reads this, s
    {
      && Valid() && Removals(before, preserve, results)
      && s.removals == removals + RemovalsOf(before, results)
      && runners == before - Pairs(results)
      && (consistent && NoneFailed(results) ==> Consistent())
    }

    /** As Stopping, but the map still has the last runner stopped. */
    ghost predicate JustStopped(before: map<AddressPair, Token>, removals: seq<Removal>, consistent: bool,
                                preserve: set<AddressPair>, results: seq<RunResult>)
      reads this, s
    {
      && results != [] && Removals(before, preserve, results)
      && s.removals == removals + RemovalsOf(before, results)
      && Valid() && runners == before - Pairs(results[..|results| - 1])
      && var r := results[|results| - 1];
         && r.pair in runners && runners - {r.pair} == before - Pairs(results) && Injective(runners - {r.pair})
         && (!r.failed ==> before[r.pair] !in s.live)
         && (consistent && NoneFailed(results) ==> forall t :: t in s.live <==> Owned(runners - {r.pair}, t))
    }

    method StopOne(cfg: AddressPair, ghost before: map<AddressPair, Token>, ghost removals: seq<Removal>,
                   ghost consistent: bool, ghost preserve: set<AddressPair>, ghost results: seq<RunResult>)
      returns (err: RemoveError)
      requires Stopping(before, removals, consistent, preserve, results) && cfg in runners && cfg !in preserve
      modifies s
      ensures s.next == old(s.next) && s.loud == old(s.loud) + if err.OtherError? then [before[cfg]] else []
      ensures var r := RunResult(cfg, StatusRemoved, !err.NoError?);
        && JustStopped(before, removals, consistent, preserve, results + [r])
        && Pairs(results + [r]) == Pairs(results) + {cfg}
    {
      err := s.RemoveAndWait(runners[cfg]);
      ghost var r := RunResult(cfg, StatusRemoved, !err.NoError?);
      RemoveStep(before, preserve, results, r);
      OwnedAfterRemove(runners, cfg);
      assert (results + [r])[..|results|] == results;
    }

    method Forget(cfg: AddressPair, ghost before: map<AddressPair, Token>, ghost removals: seq<Removal>,
                  ghost consistent: bool, ghost preserve: set<AddressPair>, ghost results: seq<RunResult>)
      requires JustStopped(before, removals, consistent, preserve, results) && cfg == results[|results| - 1].pair
      modifies this`runners
      ensures runners == old(runners) - {cfg}
      ensures Stopping(before, removals, consistent, preserve, results)
    {
      runners := runners - {cfg};
    }

    /** The second loop of RunAll: stop, in any order, every runner that is not preserved. The
        `yielded` results of the first loop count towards the consumer's limit. */
    method RemoveOthers(preserve: set<AddressPair>, yielded: nat, stopAt: nat)
      returns (results: seq<RunResult>, complete: bool)
      requires Valid() && (stopAt == 0 || yielded < stopAt)
      modifies this`runners, s
      ensures Valid() && s.next == old(s.next)
      ensures Removals(old(runners), preserve, results)
      // each is stopped once
      ensures s.removals == old(s.removals) + RemovalsOf(old(runners), results)
      ensures complete ==> Pairs(results) == old(runners).Keys - preserve
      ensures complete ==> runners == old(runners) - Pairs(results)
      // a consumer that breaks off leaves the runner it last heard of in the map
      ensures !complete ==> results != [] && yielded + |results| == stopAt
      ensures !complete ==> runners == old(runners) - Pairs(results[..|results| - 1])
      ensures !complete ==> results[|results| - 1].pair in runners
      ensures !complete && !results[|results| - 1].failed ==> runners[results[|results| - 1].pair] !in s.live
      ensures old(Consistent()) && complete && NoneFailed(results) ==> Consistent()
    {
      results, complete := [], true;
      ghost var before, removals, consistent := runners, s.removals, Consistent();
      var left := runners.Keys;
      while left != {}
        invariant complete && left <= runners.Keys
        invariant s.next == old(s.next)
        invariant Stopping(before, removals, consistent, preserve, results)
        invariant before.Keys - preserve <= Pairs(results) + left
        invariant stopAt == 0 || yielded + |results| < stopAt
      {
        hide Pairs, Stopping, JustStopped, Consistent, Valid;
        var cfg :| cfg in left;
        left := left - {cfg};
        if cfg in preserve {
          continue;
        }
        var err := StopOne(cfg, before, removals, consistent, preserve, results);
        results := results + [RunResult(cfg, StatusRemoved, !err.NoError?)];
        if yielded + |results| == stopAt {
          complete := false;
          break;
        }
        Forget(cfg, before, removals, consistent, preserve, results);
      }
    }

    /** Bring the runners to the requested pairs. `complete` says that the consumer ranged over
        the whole iterator. */
    method RunAll(pairs: seq<AddressPair>, stopAt: nat) returns (results: seq<RunResult>, complete: bool)
      requires Valid()
      modifies this`runners, s
      ensures Valid()
      // what is reported: one result a request, then one for each runner that went away
      ensures complete ==> |pairs| <= |results| && Reports(old(runners), pairs, results[..|pairs|])
      ensures complete ==> Removals(old(runners), Set(pairs), results[|pairs|..])
      ensures complete ==> Pairs(results[|pairs|..]) == old(runners).Keys - Set(pairs)
      // what runs: the requested pairs that ran before, on their old tokens, or were created
      ensures complete ==> forall p :: p in runners <==>
        p in pairs && (p in old(runners) || Created(results[..|pairs|], p))
      ensures complete ==> forall p :: p in runners && p in old(runners) ==> runners[p] == old(runners)[p]
      ensures complete ==> forall p :: p in runners && p !in old(runners) ==> runners[p] >= old(s.next)
      // every other old runner was stopped exactly once
      ensures complete ==> s.removals == old(s.removals) + RemovalsOf(old(runners), results[|pairs|..])
      // the supervisor and the map agree if they did before and all removals succeeded
      ensures complete && old(Consistent()) && NoneFailed(results[|pairs|..]) ==> Consistent()
      // a consumer that breaks off among the requests has stopped nothing: what was reported is
      // what was started
      ensures !complete && |results| <= |pairs| ==>
        && |results| == stopAt && Reports(old(runners), pairs, results)
        && Extends(old(runners), runners, results, old(s.next)) && s.removals == old(s.removals)
      // one that breaks off at a removal leaves a stopped runner in the map
      ensures !complete && |results| > |pairs| && !results[|results| - 1].failed ==>
        results[|results| - 1].pair in runners && runners[results[|results| - 1].pair] !in s.live
      // so if no removal failed, supervisor and map still agree exactly when nobody broke off there
      ensures old(Consistent()) && NoneFailed(results[if |results| < |pairs| then |results| else |pairs|..]) ==>
        (Consistent() <==> complete || |results| <= |pairs|)
    {
      results, complete := StartRequested(pairs, stopAt);
      if !complete {
        return;
      }
      ghost var started, middle := results, runners;
      assert results[..|pairs|] == started;
      var removed;
      removed, complete := RemoveOthers(Set(pairs), |results|, stopAt);
      results := results + removed;
      assert results[..|pairs|] == started && results[|pairs|..] == removed;
      CreatedWereRequested(old(runners), pairs, started);
      StaleAreOld(old(runners), middle, pairs, started, removed, old(s.next));
    }

    /** The loop of clearAll: stop and forget every runner, in any order. */
    method StopAll() returns (errors: seq<AddressPair>, ghost stopped: seq<RunResult>)
      requires Valid()
      modifies this`runners, s
      ensures Stopping(old(runners), old(s.removals), old(Consistent()), {}, stopped)
      ensures runners == map[] && Pairs(stopped) == old(runners).Keys
      ensures forall p :: p in errors ==> p in old(runners)
      ensures s.loud == old(s.loud) + TokensOf(old(runners), errors)
    {
      hide Pairs, Stopping, JustStopped, Consistent, Valid, TokensOf;
      errors, stopped := [], [];
      ghost var before, removals, consistent := runners, s.removals, Consistent();
      StopNone();
      NoTokens(before);
      var left := runners.Keys;
      while left != {}
        invariant left <= runners.Keys <= before.Keys
        invariant Stopping(before, removals, consistent, {}, stopped)
        invariant before.Keys <= Pairs(stopped) + left
        invariant forall p :: p in errors ==> p in before
        invariant s.loud == old(s.loud) + TokensOf(before, errors)
      {
        var cfg :| cfg in left;
        left := left - {cfg};
        var err := StopOne(cfg, before, removals, consistent, {}, stopped);
        if err.OtherError? {
          TokensAppend(before, errors, cfg);
          errors := errors + [cfg];
        }
        stopped := stopped + [RunResult(cfg, StatusRemoved, !err.NoError?)];
        Forget(cfg, before, removals, consistent, {}, stopped);
      }
      StopDone(before, removals, consistent, stopped);
    }

    lemma StopNone()
      requires Valid()
      ensures Stopping(runners, s.removals, Consistent(), {}, []) && Pairs([]) == {}
    {
    }

    lemma StopDone(before: map<AddressPair, Token>, removals: seq<Removal>, consistent: bool, stopped: seq<RunResult>)
      requires Stopping(before, removals, consistent, {}, stopped) && before.Keys <= Pairs(stopped)
      ensures runners == map[] && Pairs(stopped) == before.Keys
    {
    }

    /** Stop and forget every runner, whether or not stopping it failed. A dry run does nothing. */
    method ClearAll(dry: bool) returns (errors: seq<AddressPair>, ghost stopped: seq<RunResult>)
      requires Valid()
      modifies this`runners, this`stops, s
      ensures Valid()
      ensures dry ==> stopped == [] && errors == [] && runners == old(runners) && s.live == old(s.live)
      ensures !dry ==> runners == map[] && Pairs(stopped) == old(runners).Keys
      ensures stops == old(stops) + if dry || old(runners) == map[] then 0 else 1
      // each is stopped once
      ensures Removals(old(runners), {}, stopped) && s.removals == old(s.removals) + RemovalsOf(old(runners), stopped)
      // the errors are exactly the failures other than a stopped supervisor and a timeout
      ensures forall p :: p in errors ==> p in old(runners)
      ensures s.loud == old(s.loud) + TokensOf(old(runners), errors)
      // without any failure nothing is left running
      ensures !dry && old(Consistent()) && NoneFailed(stopped) ==> s.live == {}
    {
      errors, stopped := [], [];
      assert forall t :: !Owned(map[], t);
      if dry || |runners| == 0 {
        assert |runners| == 0 ==> runners == map[];
        return;
      }
      errors, stopped := StopAll();
      stops := stops + 1;
    }
  }

  lemma CreatedWereRequested(before: map<AddressPair, Token>, pairs: seq<AddressPair>, results: seq<RunResult>)
    requires Reports(before, pairs, results)
    ensures forall p :: Created(results, p) ==> p in pairs
  {
    forall p | Created(results, p)
      ensures p in pairs
    {
      var i :| 0 <= i < |results| && results[i] == RunResult(p, StatusNew, false);
      assert pairs[i] == p;
    }
  }

  /** The runners that go away are all old ones, so their tokens are the old tokens. */
  lemma StaleAreOld(before: map<AddressPair, Token>, middle: map<AddressPair, Token>, pairs: seq<AddressPair>,
                    started: seq<RunResult>, removed: seq<RunResult>, firstNew: Token)
    requires Extends(before, middle, started, firstNew) && forall p :: Created(started, p) ==> p in pairs
    requires Removals(middle, Set(pairs), removed)
    ensures Removals(before, Set(pairs), removed)
    ensures RemovalsOf(before, removed) == RemovalsOf(middle, removed)
    ensures middle.Keys - Set(pairs) == before.Keys - Set(pairs)
  {
    forall r | r in removed
      ensures r.pair in before
    {
      assert r.pair in middle && !Created(started, r.pair);
    }
  }

  function Pairs(results: seq<RunResult>): set<AddressPair> {
    set r | r in results :: r.pair
  }

  ghost predicate NoneFailed(results: seq<RunResult>) {
    forall r :: r in results ==> !r.failed
  }

  /** Distinct old runners outside `preserve`, reported as removed. */
  ghost predicate Removals(before: map<AddressPair, Token>, preserve: set<AddressPair>, results: seq<RunResult>) {
    && (forall r :: r in results ==> r.status == StatusRemoved && r.pair in before && r.pair !in preserve)
    && (forall i, j :: 0 <= i < j < |results| ==> results[i].pair != results[j].pair)
  }

  ghost function RemovalsOf(before: map<AddressPair, Token>, results: seq<RunResult>): seq<Removal>
    requires forall r :: r in results ==> r.pair in before
  {
    seq(|results|, i requires 0 <= i < |results| => Removal(before[results[i].pair], results[i].failed))
  }

  function TokensOf(before: map<AddressPair, Token>, pairs: seq<AddressPair>): (tokens: seq<Token>)
    requires forall p :: p in pairs ==> p in before
    ensures |tokens| == |pairs|
  {
    seq(|pairs|, i requires 0 <= i < |pairs| => before[pairs[i]])
  }

  lemma NoTokens(before: map<AddressPair, Token>)
    ensures TokensOf(before, []) == []
  {
  }

  lemma TokensAppend(before: map<AddressPair, Token>, pairs: seq<AddressPair>, p: AddressPair)
    requires p in before && forall q :: q in pairs ==> q in before
    ensures TokensOf(before, pairs + [p]) == TokensOf(before, pairs) + [before[p]]
  {
    assert forall q :: q in pairs + [p] ==> q in before;
  }

  lemma RemoveStep(before: map<AddressPair, Token>, preserve: set<AddressPair>, results: seq<RunResult>, r: RunResult)
    requires Removals(before, preserve, results)
    requires r.status == StatusRemoved && r.pair in before && r.pair !in preserve && r.pair !in Pairs(results)
    ensures Removals(before, preserve, results + [r])
    ensures RemovalsOf(before, results + [r]) == RemovalsOf(before, results) + [Removal(before[r.pair], r.failed)]
    ensures Pairs(results + [r]) == Pairs(results) + {r.pair}
    ensures NoneFailed(results + [r]) <==> NoneFailed(results) && !r.failed
  {
    forall i | 0 <= i < |results|
      ensures results[i].pair != r.pair
    {
      assert results[i] in results;
    }
    assert forall x :: x in results + [r] <==> x in results || x == r;
  }

  lemma OwnedAfterRemove(before: map<AddressPair, Token>, cfg: AddressPair)
    requires Injective(before) && cfg in before
    ensures Injective(before - {cfg})
    ensures forall t :: Owned(before - {cfg}, t) <==> Owned(before, t) && t != before[cfg]
  {
    var after := before - {cfg};
    forall t | Owned(before, t) && t != before[cfg]
      ensures Owned(after, t)
    {
      var p :| p in before && before[p] == t;
      assert p in after && after[p] == t;
    }
  }

  lemma OwnedAfterAdd(before: map<AddressPair, Token>, cfg: AddressPair, token: Token)
    requires cfg !in before
    ensures forall t :: Owned(before[cfg := token], t) <==> Owned(before, t) || t == token
  {
    var after := before[cfg := token];
    assert after[cfg] == token;
    forall t | Owned(before, t)
      ensures Owned(after, t)
    {
      var p :| p in before && before[p] == t;
      assert p in after && after[p] == t;
    }
  }

  lemma StartStep(first: map<AddressPair, Token>, before: map<AddressPair, Token>, after: map<AddressPair, Token>,
                  pairs: seq<AddressPair>, results: seq<RunResult>, r: RunResult, firstNew: Token, next: Token)
    requires |results| < |pairs| && Reports(first, pairs, results) && Extends(first, before, results, firstNew)
    requires firstNew <= next && r.pair == pairs[|results|]
    requires r.status == if r.pair in before then StatusRunning else StatusNew
    requires r.failed ==> r.status == StatusNew
    requires after == if r.status == StatusNew && !r.failed then before[r.pair := next] else before
    ensures Reports(first, pairs, results + [r]) && Extends(first, after, results + [r], firstNew)
  {
    hide Reports, Created;
    ReportsStep(first, pairs, results, r);
    CreatedStep(results, r);
  }

  lemma ReportsStep(first: map<AddressPair, Token>, pairs: seq<AddressPair>, results: seq<RunResult>, r: RunResult)
    requires |results| < |pairs| && Reports(first, pairs, results) && r.pair == pairs[|results|]
    requires if r.pair in first || Created(results, r.pair) then r.status == StatusRunning && !r.failed else r.status == StatusNew
    ensures Reports(first, pairs, results + [r])
  {
    hide Created;
    var all := results + [r];
    assert all[..|results|] == results;
    assert forall i :: 0 <= i < |results| ==> all[i] == results[i] && all[..i] == results[..i];
  }

  lemma CreatedStep(results: seq<RunResult>, r: RunResult)
    ensures forall p :: Created(results + [r], p) <==> Created(results, p) || r == RunResult(p, StatusNew, false)
  {
  }
}
