/** Default network provisioning: find or create a subnet, each created resource polled until ready. */
module Network {
  import opened Grpc
  import opened Basics

  datatype Probe = ReadyNow | NotReady | ProbeFailed(code: Code)

  /** One polling loop's surroundings: the result of the i-th probe, what the clock says after it, and with
      which code, if at all, the request's context ends during the wait that follows. */
  datatype Poll = Poll(
    start: int, timeout: int, interval: int, probe: nat -> Probe, clock: nat -> int, ended: nat -> Option<Code>)

  /** A wait takes at least the interval, and time does not run backwards. */
  ghost predicate Passes(p: Poll) {
    p.interval > 0 && p.clock(0) >= p.start && forall i: nat :: p.clock(i + 1) >= p.clock(i) + p.interval
  }

  /** The loop goes on after the i-th probe. */
  ghost predicate GoesOn(p: Poll, i: nat) {
    p.probe(i) == NotReady && p.clock(i) < p.start + p.timeout && p.ended(i).None?
  }

  /** The loop stops with its n-th probe and this result. */
  ghost predicate Stops(p: Poll, n: nat, r: Result<()>) {
    && n > 0 && (forall i :: 0 <= i < n - 1 ==> GoesOn(p, i)) && !GoesOn(p, n - 1)
    && match p.probe(n - 1)
       case ReadyNow => r == Ok(())
       case ProbeFailed(code) => r == Err(code)
       case NotReady =>
               r == Err(if p.clock(n - 1) >= p.start + p.timeout then DeadlineExceeded else p.ended(n - 1).value)
  }

  lemma {:induction false} ClockAfter(p: Poll, i: nat)
    requires Passes(p)
    ensures p.clock(i) >= p.start + i * p.interval
  {
    if i > 0 {
      ClockAfter(p, i - 1);
      assert p.clock((i - 1) + 1) >= p.clock(i - 1) + p.interval;
      assert i * p.interval == (i - 1) * p.interval + p.interval;
    }
  }

  /** At most ceil(timeout / interval) + 1 probes: all but the last lie before the deadline. */
  lemma ProbesAreBounded(p: Poll, n: nat, r: Result<()>)
    requires Passes(p) && Stops(p, n, r)
    ensures n <= 1 || (n - 2) * p.interval < p.timeout
  {
    if n > 1 {
      assert GoesOn(p, n - 2);
      ClockAfter(p, n - 2);
    }
  }

  /** What a poll's result means: success if and only if its last probe reported ready; a failed probe's own code; at
      or past the deadline DeadlineExceeded; otherwise the code with which the context ended. */
  lemma PollResult(p: Poll, n: nat, r: Result<()>)
    requires Stops(p, n, r)
    ensures n > 0 && (r.Ok? <==> p.probe(n - 1) == ReadyNow)
    ensures forall i :: 0 <= i < n - 1 ==> p.probe(i) == NotReady && p.clock(i) < p.start + p.timeout
    ensures p.probe(n - 1).ProbeFailed? ==> r == Err(p.probe(n - 1).code)
    ensures p.probe(n - 1) == NotReady && p.clock(n - 1) >= p.start + p.timeout ==> r == Err(DeadlineExceeded)
    ensures p.probe(n - 1) == NotReady && p.clock(n - 1) < p.start + p.timeout ==>
              p.ended(n - 1).Some? && r == Err(p.ended(n - 1).value)
  {
    forall i | 0 <= i < n - 1 ensures p.probe(i) == NotReady && p.clock(i) < p.start + p.timeout {
      assert GoesOn(p, i);
    }
  }

  // ----- provisioning

  datatype Target = VNet(id: string) | Subnet(id: string)

  /** What the remote network service is asked, and answers. */
  datatype Call =
    | ListSubnets(found: Result<seq<string>>)
    | CreateVNet(made: Result<string>)
    | CreateSubnet(vnet: string, made: Result<string>)
    | Get(target: Target, seen: Probe)

  datatype Environment = Environment(
    listed: Result<seq<string>>, vnet: Result<string>, vnetPoll: Poll, subnet: Result<string>, subnetPoll: Poll)

  function Gets(target: Target, p: Poll, n: nat): seq<Call> {
    seq(n, i requires 0 <= i < n => Get(target, p.probe(i)))
  }

  class Client {
    var calls: seq<Call>

    constructor ()
      ensures calls == []
    {
      calls := [];
    }

    /** pollUntilReady, asking for `target`. */
    method PollUntilReady(target: Target, p: Poll) returns (r: Result<()>, probes: nat)
      requires Passes(p)
      modifies this
      ensures Stops(p, probes, r) && calls == old(calls) + Gets(target, p, probes)
    {
      var deadline := p.start + p.timeout;
      probes := 0;
      while true
        invariant forall i :: 0 <= i < probes ==> GoesOn(p, i)
        invariant calls == old(calls) + Gets(target, p, probes)
        decreases if probes == 0 then 1 else 0, deadline - (if probes == 0 then deadline else p.clock(probes - 1))
      {
        var i := probes;
        var seen := p.probe(i);
        calls := calls + [Get(target, seen)];
        probes := probes + 1;
        assert Gets(target, p, probes) == Gets(target, p, i) + [Get(target, seen)];
        assert i > 0 ==> p.clock((i - 1) + 1) >= p.clock(i - 1) + p.interval;
        if seen.ProbeFailed? {
          return Err(seen.code), probes;
        }
        if seen.ReadyNow? {
          return Ok(()), probes;
        }
        if p.clock(i) >= deadline {
          return Err(DeadlineExceeded), probes;
        }
        if p.ended(i).Some? {
          return Err(p.ended(i).value), probes;
        }
      }
    }

    method ProvisionVNet(env: Environment) returns (r: Result<string>, probes: nat)
      requires Passes(env.vnetPoll)
      modifies this
      ensures VNetOutcome(env, probes, r) && calls == old(calls) + VNetCalls(env, probes)
    {
      probes := 0;
      calls := calls + [CreateVNet(env.vnet)];
      if env.vnet.Err? {
        return env.vnet, 0;
      }
      var ready;
      ready, probes := PollUntilReady(VNet(env.vnet.value), env.vnetPoll);
      r := if ready.Err? then Err(ready.code) else env.vnet;
    }

    method ProvisionSubnet(vnet: string, env: Environment) returns (r: Result<string>, probes: nat)
      requires Passes(env.subnetPoll)
      modifies this
      ensures SubnetOutcome(env, probes, r) && calls == old(calls) + SubnetCalls(vnet, env, probes)
    {
      probes := 0;
      calls := calls + [CreateSubnet(vnet, env.subnet)];
      if env.subnet.Err? {
        return env.subnet, 0;
      }
      var ready;
      ready, probes := PollUntilReady(Subnet(env.subnet.value), env.subnetPoll);
      r := if ready.Err? then Err(ready.code) else env.subnet;
    }

    /** resolveDefaultSubnet: reuse the first listed subnet, else provision a network and then a subnet. */
    method ResolveDefaultSubnet(env: Environment) returns (r: Result<string>, ghost run: Run)
      requires Passes(env.vnetPoll) && Passes(env.subnetPoll)
      modifies this
      ensures Resolves(env, run, r) && calls == old(calls) + Calls(env, run)
      ensures env.listed.Ok? && env.listed.value != [] ==>
                r == Ok(env.listed.value[0]) && calls == old(calls) + [ListSubnets(env.listed)]
      ensures env.listed.Err? ==> r == Err(env.listed.code) && calls == old(calls) + [ListSubnets(env.listed)]
    {
      calls := calls + [ListSubnets(env.listed)];
      if env.listed.Err? {
        return Err(env.listed.code), Run(0, Err(OtherCode), 0);
      }
      if |env.listed.value| > 0 {
        return Ok(env.listed.value[0]), Run(0, Err(OtherCode), 0);
      }
      var vnet, n := ProvisionVNet(env);
      if vnet.Err? {
        return Err(vnet.code), Run(n, vnet, 0);
      }
      var m;
      r, m := ProvisionSubnet(vnet.value, env);
      run := Run(n, vnet, m);
    }
  }

  // ----- what was asked, in order

  /** How many probes each poll took, and what became of the virtual network. */
  datatype Run = Run(vnetProbes: nat, vnet: Result<string>, subnetProbes: nat)

  ghost predicate VNetOutcome(env: Environment, n: nat, r: Result<string>) {
    if env.vnet.Err? then r == env.vnet
    else exists ready :: Stops(env.vnetPoll, n, ready) && r == if ready.Err? then Err(ready.code) else env.vnet
  }

  ghost predicate SubnetOutcome(env: Environment, n: nat, r: Result<string>) {
    if env.subnet.Err? then r == env.subnet
    else exists ready :: Stops(env.subnetPoll, n, ready) && r == if ready.Err? then Err(ready.code) else env.subnet
  }

  function VNetCalls(env: Environment, n: nat): seq<Call> {
    [CreateVNet(env.vnet)] + if env.vnet.Err? then [] else Gets(VNet(env.vnet.value), env.vnetPoll, n)
  }

  function SubnetCalls(vnet: string, env: Environment, n: nat): seq<Call> {
    [CreateSubnet(vnet, env.subnet)] + if env.subnet.Err? then [] else Gets(Subnet(env.subnet.value), env.subnetPoll, n)
  }

  predicate Reuses(env: Environment) {
    env.listed.Err? || |env.listed.value| > 0
  }

  function Calls(env: Environment, run: Run): seq<Call> {
    [ListSubnets(env.listed)]
    + if Reuses(env) then []
      else VNetCalls(env, run.vnetProbes)
           + if run.vnet.Err? then [] else SubnetCalls(run.vnet.value, env, run.subnetProbes)
  }

  ghost predicate Resolves(env: Environment, run: Run, r: Result<string>) {
    if env.listed.Err? then r == Err(env.listed.code)
    else if |env.listed.value| > 0 then r == Ok(env.listed.value[0])
    else
      && VNetOutcome(env, run.vnetProbes, run.vnet)
      && if run.vnet.Err? then r == Err(run.vnet.code) else SubnetOutcome(env, run.subnetProbes, r)
  }

  /** A subnet is only asked for in a network that an earlier Get of the same request saw ready, and only when
      no subnet was listed; and there is at most one such request. */
  lemma SubnetOnlyInReadyNetwork(env: Environment, run: Run, r: Result<string>, j: nat)
    requires Resolves(env, run, r) && j < |Calls(env, run)| && Calls(env, run)[j].CreateSubnet?
    ensures env.listed == Ok([])
    ensures exists i :: 0 <= i < j && Calls(env, run)[i] == Get(VNet(Calls(env, run)[j].vnet), ReadyNow)
    ensures forall k :: 0 <= k < |Calls(env, run)| && Calls(env, run)[k].CreateSubnet? ==> k == j
  {
    var n := run.vnetProbes;
    assert run.vnet == env.vnet && env.vnet.Ok?;
    var gets := Gets(VNet(env.vnet.value), env.vnetPoll, n);
    var last := SubnetCalls(env.vnet.value, env, run.subnetProbes);
    assert Calls(env, run) == [ListSubnets(env.listed), CreateVNet(env.vnet)] + gets + last;
    assert gets[n - 1] == Get(VNet(env.vnet.value), ReadyNow);
    assert Calls(env, run)[2 + n - 1] == gets[n - 1];
    assert Calls(env, run)[2 + n] == last[0];
  }

  /** A subnet that was not found in the listing is returned only after a Get saw it ready: that Get is the
      last thing asked. */
  lemma NewSubnetIsReady(env: Environment, run: Run, r: Result<string>)
    requires Resolves(env, run, r) && r.Ok? && !Reuses(env)
    ensures Last(Calls(env, run)) == Get(Subnet(r.value), ReadyNow)
  {
    var m := run.subnetProbes;
    assert r == env.subnet;
    assert Gets(Subnet(r.value), env.subnetPoll, m)[m - 1] == Get(Subnet(r.value), ReadyNow);
    assert Last(SubnetCalls(run.vnet.value, env, m)) == Get(Subnet(r.value), ReadyNow);
  }
}
