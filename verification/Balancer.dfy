/**
 * internal/qrunner/coordinator/balancer.go and runner.go: the objects whose critical sections are
 * the steps of the system in module Admission. `processJob` is split where it gives up the lock.
 */
module Balancer {
  import opened Options
  import opened Words
  import opened WeightedChoice
  import opened Admission

  class Runner {
    const name: string
    const weight: nat
    const maxConcurrency: Option<nat>
    var alive: bool
    var concurrency: int

    constructor (name: string, weight: nat, maxConcurrency: Option<nat>)
      ensures this.name == name && this.weight == weight && this.maxConcurrency == maxConcurrency
      ensures !alive && concurrency == 0
    {
      this.name, this.weight, this.maxConcurrency := name, weight, maxConcurrency;
      alive, concurrency := false, 0;
    }

    method SetAlive(alive: bool)
      modifies this`alive
      ensures this.alive == alive
    {
      this.alive := alive;
    }

    /** An atomic addition of 32 bits that wraps around, returned as an unsigned number. */
    method AddConcurrency(delta: int) returns (value: nat)
      modifies this`concurrency
      ensures concurrency == ToInt32(old(concurrency) + delta) && value == ToUint32(concurrency)
    {
      concurrency := ToInt32(concurrency + delta);
      value := ToUint32(concurrency);
    }
  }

  class LoadBalancer {
    /** All runners of the coordinator, by name, whether in load balancing or not. */
    ghost const fleet: map<string, Runner>
    var runners: map<string, Runner>

    ghost predicate Valid()
      reads this
    {
      && (forall n <- fleet :: fleet[n].name == n)
      && (forall n <- runners :: n in fleet && runners[n] == fleet[n])
    }

    /** The shared part of a state of the transition system. */
    ghost function View(): Pool
      reads this, fleet.Values
    {
      Pool(runners.Keys, map n | n in fleet :: fleet[n].concurrency)
    }

    ghost function WeightOf(): Weights {
      map n | n in fleet :: fleet[n].weight
    }

    constructor (ghost fleet: map<string, Runner>)
      requires forall n <- fleet :: fleet[n].name == n
      ensures Valid() && this.fleet == fleet && runners == map[]
    {
      this.fleet, runners := fleet, map[];
    }

    method Add(r: Runner) returns (added: bool)
      requires Valid() && r.name in fleet && fleet[r.name] == r
      modifies this`runners
      ensures Valid() && View() == AddTo(old(View()), r.name)
      ensures runners == old(runners)[r.name := r]
      ensures added <==> r.name !in old(View()).members
    {
      if r.name in runners {
        return false;
      }
      runners := runners[r.name := r];
      return true;
    }

    method Remove(r: Runner)
      requires Valid()
      modifies this`runners
      ensures Valid() && View() == RemoveFrom(old(View()), r.name)
      ensures runners == old(runners) - {r.name}
    {
      RemoveUnderLock(r);
    }

    method RemoveUnderLock(r: Runner)
      requires Valid()
      modifies this`runners
      ensures Valid() && View() == RemoveFrom(old(View()), r.name)
      ensures runners == old(runners) - {r.name}
    {
      if r.name !in runners {
        return;
      }
      runners := runners - {r.name};
    }

    /** One check of the liveness loop, given how the probe came out: the step Up or Down. */
    method CheckLiveness(r: Runner, alive: bool)
      requires Valid() && r.name in fleet && fleet[r.name] == r
      modifies this`runners, r`alive
      ensures Valid() && r.alive == alive
      ensures runners == if alive then old(runners)[r.name := r] else old(runners) - {r.name}
      ensures View() == if alive then AddTo(old(View()), r.name) else RemoveFrom(old(View()), r.name)
    {
      r.SetAlive(alive);
      if alive {
        var _ := Add(r);
        return;
      }
      Remove(r);
    }

    /** `runner.addConcurrency(delta)`, seen from the balancer. */
    method AddConcurrencyOf(runner: Runner, delta: int) returns (value: nat)
      requires Valid() && runner.name in fleet && fleet[runner.name] == runner
      modifies runner`concurrency
      ensures Valid() && runner.concurrency == ToInt32(old(runner.concurrency) + delta)
      ensures value == ToUint32(runner.concurrency)
      ensures View() == old(View()).(concurrency := old(View()).concurrency[runner.name := runner.concurrency])
    {
      value := runner.AddConcurrency(delta);
      assert forall n <- fleet :: n != runner.name ==> fleet[n] != runner;
    }

    /** The first loop of `selectRunner`. */
    method TotalWeight(order: seq<string>) returns (totalWeight: nat)
      requires Valid() && forall n <- order :: n in runners
      ensures totalWeight == Total(order, WeightOf())
    {
      ghost var weights := WeightOf();
      totalWeight := 0;
      for i := 0 to |order|
        invariant totalWeight + Total(order[i..], weights) == Total(order, weights)
      {
        assert order[i..][1..] == order[i + 1..];
        totalWeight := totalWeight + runners[order[i]].weight;
      }
    }

    /** The second loop of `selectRunner`. */
    method WalkDown(order: seq<string>, draw: nat) returns (r: Runner?)
      requires Valid() && forall n <- order :: n in runners
      ensures r == null ==> Pick(order, WeightOf(), draw) == None
      ensures r != null ==> r.name in order && runners[r.name] == r && Pick(order, WeightOf(), draw) == Some(r.name)
    {
      ghost var weights := WeightOf();
      var rnd: nat := draw;
      assert order[0..] == order;
      for i := 0 to |order|
        invariant Pick(order[i..], weights, rnd) == Pick(order, weights, draw)
      {
        assert order[i..][1..] == order[i + 1..];
        var candidate := runners[order[i]];
        if rnd < candidate.weight {
          return candidate;
        }
        rnd := rnd - candidate.weight;
      }
      return null;
    }

    /**
     * `first` and `second` are the orders in which the two loops meet the runners, `draw` is the
     * random number. The sum of the weights is taken not to overflow.
     */
    method SelectRunner(first: seq<string>, second: seq<string>, draw: nat) returns (r: Runner?)
      requires Valid() && IsOrder(first, runners.Keys) && IsOrder(second, runners.Keys)
      requires draw < TWO_TO_THE_64 && Total(first, WeightOf()) < TWO_TO_THE_64
      ensures Total(first, WeightOf()) == 0 ==> r == null
      ensures Total(first, WeightOf()) > 0 ==>
                && r != null && r.name in runners && runners[r.name] == r && r.weight > 0
                && Pick(second, WeightOf(), draw % Total(first, WeightOf())) == Some(r.name)
    {
      var totalWeight := TotalWeight(first);
      if totalWeight == 0 {
        return null;
      }
      TotalIsOrderFree(first, second, runners.Keys, WeightOf());
      PickNeverFallsThrough(second, WeightOf(), draw % totalWeight);
      r := WalkDown(second, draw % totalWeight);
    }

    /**
     * The rest of the first critical section once a runner is selected: count, compare, exclude.
     * While the counter has room for one job more, this is the step Admit.
     */
    method CountAndExclude(runner: Runner) returns (excluded: bool)
      requires Valid() && runner.name in fleet && fleet[runner.name] == runner
      modifies this`runners, runner`concurrency
      ensures Valid() && runner.concurrency == ToInt32(old(runner.concurrency) + 1)
      ensures excluded <==> runner.maxConcurrency.Some?
                            && ToUint32(runner.concurrency) >= runner.maxConcurrency.value
      ensures View() == Pool(if excluded then old(View()).members - {runner.name} else old(View()).members,
                             old(View()).concurrency[runner.name := runner.concurrency])
      ensures 0 <= old(runner.concurrency) < TWO_TO_THE_31 - 1 ==>
                && excluded == Exhausts(old(View()), runner.maxConcurrency, runner.name)
                && View() == AdmitTo(old(View()), runner.maxConcurrency, runner.name)
    {
      hide ToInt32, ToUint32;
      excluded := false;
      var concurrency := AddConcurrencyOf(runner, 1);
      if runner.maxConcurrency.Some? && concurrency >= runner.maxConcurrency.value {
        RemoveUnderLock(runner);
        excluded := true;
      }
    }

    /** The first critical section of `processJob`: select, count, exclude when full. */
    method Admit(first: seq<string>, second: seq<string>, draw: nat) returns (runner: Runner?, excluded: bool)
      requires Valid() && IsOrder(first, runners.Keys) && IsOrder(second, runners.Keys)
      requires draw < TWO_TO_THE_64 && Total(first, WeightOf()) < TWO_TO_THE_64
      modifies this`runners, fleet.Values`concurrency
      ensures Valid()
      ensures runner == null <==> Total(first, WeightOf()) == 0
      ensures runner == null ==> View() == old(View())
      ensures runner != null ==>
                && runner.name in old(View()).members && runner.weight > 0
                && runner.name in fleet && fleet[runner.name] == runner
                && runner.concurrency == ToInt32(old(runner.concurrency) + 1)
                && (excluded <==> runner.maxConcurrency.Some?
                                  && ToUint32(runner.concurrency) >= runner.maxConcurrency.value)
                && View() == Pool(if excluded then old(View()).members - {runner.name} else old(View()).members,
                                  old(View()).concurrency[runner.name := runner.concurrency])
      ensures runner != null && 0 <= old(runner.concurrency) < TWO_TO_THE_31 - 1 ==>
                && excluded == Exhausts(old(View()), runner.maxConcurrency, runner.name)
                && View() == AdmitTo(old(View()), runner.maxConcurrency, runner.name)
    {
      hide ToInt32, ToUint32, AdmitTo, Exhausts;
      excluded := false;
      runner := SelectRunner(first, second, draw);
      if runner == null {
        return;
      }
      hide Total, Pick, IsOrder;
      excluded := CountAndExclude(runner);
    }

    /** `defer runner.addConcurrency(-1)`: the step Decrement, as the counter is not at its least value. */
    method Release(runner: Runner)
      requires Valid() && runner.name in fleet && fleet[runner.name] == runner
      modifies runner`concurrency
      ensures Valid() && runner.concurrency == ToInt32(old(runner.concurrency) - 1)
      ensures -TWO_TO_THE_31 < old(runner.concurrency) < TWO_TO_THE_31 ==>
                View() == ReleaseFrom(old(View()), runner.name)
    {
      var _ := AddConcurrencyOf(runner, -1);
    }
  }
}
