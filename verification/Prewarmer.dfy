/**
 * internal/qrunner/dockerengine/prewarmer.go and container.go: the prewarmer and its containers
 * as objects. The methods are the critical sections of the systems in modules PrewarmQueue and
 * WarmContainers; calls to the engine are parameters that say how they came out.
 */
module Prewarmer {
  import opened PrewarmQueue
  import WarmContainers
  import CriticalSections

  type Container = WarmContainers.Container
  type Status = WarmContainers.Status

  class ContainerState {
    const id: string
    const imageFQN: string
    const createdAt: int
    var status: Status

    constructor (id: string, imageFQN: string, createdAt: int)
      ensures this.id == id && this.imageFQN == imageFQN && this.createdAt == createdAt
      ensures status.StatusRunning?
    {
      this.id, this.imageFQN, this.createdAt := id, imageFQN, createdAt;
      status := WarmContainers.StatusRunning;
    }

    /**
     * What the delayed goroutine of `runContainer` does under the container's lock: the steps from
     * LockToPause on, as in `CriticalSections.PauseInOneGo`.
     */
    method PauseLater(pauseSucceeds: bool) returns (pauseCalled: bool)
      modifies this`status
      ensures pauseCalled <==> old(status).StatusRunning?
      ensures status == if old(status).StatusRunning? && pauseSucceeds then WarmContainers.StatusPaused else old(status)
      ensures status == CriticalSections.AfterPause(old(status), pauseSucceeds)
    {
      pauseCalled := false;
      if status != WarmContainers.StatusRunning {
        return;
      }
      pauseCalled := true;
      if !pauseSucceeds {
        return;
      }
      status := WarmContainers.StatusPaused;
    }

    /**
     * Under the container's lock, the steps from LockToFetch on, as in `CriticalSections.FetchInOneGo`;
     * the status is set on every way out.
     */
    method UnpauseIfNecessary(unpauseSucceeds: bool) returns (ok: bool, unpauseCalled: bool)
      modifies this`status
      ensures status == WarmContainers.StatusFetched
      ensures unpauseCalled <==> !old(status).StatusRunning?
      ensures ok <==> !unpauseCalled || unpauseSucceeds
    {
      if status == WarmContainers.StatusRunning {
        status := WarmContainers.StatusFetched;
        return true, false;
      }
      status := WarmContainers.StatusFetched;
      return unpauseSucceeds, true;
    }
  }

  ghost function IdsOf(containers: map<string, ContainerState>): map<string, string> {
    map f | f in containers :: containers[f].id
  }

  /** `all` tells when the containers in the map were created. */
  ghost predicate Described(containers: map<string, ContainerState>, all: map<string, Container>) {
    forall f :: f in containers ==>
      containers[f].id in all && all[containers[f].id].createdAt == containers[f].createdAt
  }

  lemma InsertDescribed(containers: map<string, ContainerState>, all: map<string, Container>, imageFQN: string,
                        c: ContainerState)
    requires Described(containers, all) && c.id !in all
    ensures Described(containers[imageFQN := c], all[c.id := WarmContainers.Created(imageFQN, c.createdAt)])
  {
    var longer, more := containers[imageFQN := c], all[c.id := WarmContainers.Created(imageFQN, c.createdAt)];
    forall f | f in longer
      ensures longer[f].id in more && more[longer[f].id].createdAt == longer[f].createdAt
    {
    }
  }

  lemma InsertIds(containers: map<string, ContainerState>, imageFQN: string, c: ContainerState)
    ensures IdsOf(containers[imageFQN := c]) == IdsOf(containers)[imageFQN := c.id]
  {
  }

  lemma InsertSize<T>(containers: map<string, T>, imageFQN: string, c: T)
    requires imageFQN !in containers
    ensures |containers[imageFQN := c]| == |containers| + 1
  {
    assert containers[imageFQN := c].Keys == containers.Keys + {imageFQN};
  }

  /** Of these containers, and one for this image created now, that of `ejected` is as old as any. */
  ghost predicate IsOldestOf(before: map<string, ContainerState>, imageFQN: string, created: int, ejected: string) {
    && (ejected == imageFQN || ejected in before)
    && var createdAt := if ejected == imageFQN then created else before[ejected].createdAt;
       createdAt <= created && forall f :: f in before ==> createdAt <= before[f].createdAt
  }

  lemma OldestAmong(before: map<string, ContainerState>, all: map<string, Container>, imageFQN: string, id: string,
                    created: int, later: int, ejected: string)
    requires Described(before, all) && id !in all && imageFQN !in before
    requires WarmContainers.IsOldest(IdsOf(before)[imageFQN := id],
                                     all[id := WarmContainers.Created(imageFQN, created)], later, ejected)
    ensures IsOldestOf(before, imageFQN, created, ejected)
  {
    var warm, more := IdsOf(before)[imageFQN := id], all[id := WarmContainers.Created(imageFQN, created)];
    assert warm[imageFQN] == id && more[id].createdAt == created;
    forall f | f in before
      ensures warm[f] in more && more[warm[f]].createdAt == before[f].createdAt
    {
    }
  }

  class Prewarmer {
    const maxWarmContainers: nat
    var containers: map<string, ContainerState>
    var latestRequestsQueue: seq<Request>
    var signals: bool    // whether the channel of capacity one holds an element

    constructor (maxWarmContainers: nat)
      ensures this.maxWarmContainers == maxWarmContainers
      ensures containers == map[] && latestRequestsQueue == [] && !signals
    {
      this.maxWarmContainers := maxWarmContainers;
      containers, latestRequestsQueue, signals := map[], [], false;
    }

    // -------------------------------------------------------------------------------------
    // Queue
    // -------------------------------------------------------------------------------------

    /** A state of the system in module PrewarmQueue, with the worker and the history given. */
    ghost function QueueState(worker: Worker, served: seq<Request>): State
      reads this
    {
      State(latestRequestsQueue, signals, worker, served)
    }

    method Notify()
      modifies this`signals
      ensures signals
    {
      if !signals {
        signals := true;
      }
    }

    /** The step Extract: `count` requests were there, the one returned included. */
    method ExtractNextRequest(zero: Request) returns (request: Request, count: nat)
      modifies this`latestRequestsQueue
      ensures count == |old(latestRequestsQueue)|
      ensures if count == 0 then request == zero && latestRequestsQueue == []
              else old(latestRequestsQueue) == [request] + latestRequestsQueue
      ensures forall served ::
                QueueState(if count == 0 then Waiting else Serving(count),
                           if count == 0 then served else served + [request])
                == Apply(maxWarmContainers, old(QueueState(Woken, served)), Extract)
    {
      count := |latestRequestsQueue|;
      if count == 0 {
        return zero, 0;
      }
      request := latestRequestsQueue[0];
      latestRequestsQueue := latestRequestsQueue[1..];
    }

    /** The step Push. */
    method PushNewRequest(request: Request)
      modifies this`latestRequestsQueue, this`signals
      ensures var was := old(latestRequestsQueue);
              if exists i :: 0 <= i < |was| && was[i].imageFQN == request.imageFQN then
                latestRequestsQueue == was && signals == old(signals)
              else
                && signals
                && latestRequestsQueue == if |was| + 1 < maxWarmContainers then was + [request]
                                          else if was == [] then [] else was[1..] + [request]
      ensures forall worker, served ::
                QueueState(worker, served)
                == Apply(maxWarmContainers, old(QueueState(worker, served)), Push(request))
    {
      for i := 0 to |latestRequestsQueue|
        invariant forall k :: 0 <= k < i ==> latestRequestsQueue[k].imageFQN != request.imageFQN
      {
        if latestRequestsQueue[i].imageFQN == request.imageFQN {
          return;
        }
      }
      latestRequestsQueue := latestRequestsQueue + [request];
      if |latestRequestsQueue| >= maxWarmContainers && |latestRequestsQueue| > 0 {
        latestRequestsQueue := latestRequestsQueue[1..];
      }
      Notify();
    }

    // -------------------------------------------------------------------------------------
    // Warm containers
    // -------------------------------------------------------------------------------------

    ghost function Warm(): map<string, string>
      reads this
    {
      IdsOf(containers)
    }

    /**
     * `order` is the order in which the loop meets the map's keys. Without a container created
     * before `now`, the code looks up the empty image name, which is not there: it panics.
     */
    method EjectContainer(order: seq<string>, now: int, ghost all: map<string, Container>)
        returns (oldestImage: string, panics: bool)
      requires forall f :: f in order <==> f in containers
      requires "" !in containers && Described(containers, all)
      modifies this`containers
      ensures panics <==> forall f :: f in old(containers) ==> old(containers)[f].createdAt >= now
      ensures panics ==> containers == old(containers)
      ensures !panics ==> oldestImage in old(containers) && old(containers)[oldestImage].createdAt < now
      ensures !panics ==> forall f :: f in old(containers) ==>
                old(containers)[oldestImage].createdAt <= old(containers)[f].createdAt
      ensures !panics ==> WarmContainers.IsOldest(old(Warm()), all, now, oldestImage)
      ensures !panics ==> containers == old(containers) - {oldestImage} && |containers| == |old(containers)| - 1
      ensures !panics ==> Warm() == old(Warm()) - {oldestImage}
    {
      oldestImage := "";
      var oldestDate := now;
      for i := 0 to |order|
        invariant oldestDate <= now
        invariant oldestImage == "" ==> oldestDate == now
        invariant oldestImage != "" ==>
                    oldestImage in containers && containers[oldestImage].createdAt == oldestDate < now
        invariant forall k :: 0 <= k < i ==> oldestDate <= containers[order[k]].createdAt
      {
        assert order[i] in order;
        var c := containers[order[i]];
        if c.createdAt < oldestDate {
          oldestImage, oldestDate := order[i], c.createdAt;
        }
      }
      assert forall f :: f in containers ==> f in order && oldestDate <= containers[f].createdAt;
      panics := oldestImage !in containers;
      containers := containers - {oldestImage};
    }

    /** The map and clock of a state of the system in module WarmContainers. */
    ghost predicate IsIn(s: WarmContainers.State)
      reads this, containers.Values
    {
      s.warm == Warm() && Described(containers, s.all)
    }

    /** `p.containers[request.imageFQN] = container`. */
    method Insert(imageFQN: string, id: string, created: int, ghost all: map<string, Container>)
      requires imageFQN !in containers && Described(containers, all) && id !in all
      modifies this`containers
      ensures imageFQN in containers && containers == old(containers)[imageFQN := containers[imageFQN]]
      ensures containers[imageFQN].createdAt == created && |containers| == |old(containers)| + 1
      ensures Warm() == old(Warm())[imageFQN := id]
      ensures Described(containers, all[id := WarmContainers.Created(imageFQN, created)])
    {
      var container := new ContainerState(id, imageFQN, created);
      InsertDescribed(containers, all, imageFQN, container);
      InsertIds(containers, imageFQN, container);
      InsertSize(containers, imageFQN, container);
      hide IdsOf, Described;
      containers := containers[imageFQN := container];
    }

    /** Storing and ejecting, in the terms of the map. */
    method InsertAndEject(imageFQN: string, id: string, created: int, later: int, order: seq<string>,
                          ghost all: map<string, Container>) returns (ejected: string, panics: bool)
      requires imageFQN != "" && "" !in containers && imageFQN !in containers
      requires forall f :: f in order <==> f in containers.Keys + {imageFQN}
      requires Described(containers, all) && id !in all
      modifies this`containers
      ensures panics <==> && |old(containers)| + 1 > maxWarmContainers && created >= later
                          && forall f :: f in old(containers) ==> old(containers)[f].createdAt >= later
      ensures var full := |old(containers)| + 1 > maxWarmContainers;
              && (!panics && full ==>
                    WarmContainers.IsOldest(old(Warm())[imageFQN := id],
                                            all[id := WarmContainers.Created(imageFQN, created)], later, ejected))
              && Warm() == old(Warm())[imageFQN := id] - (if full && !panics then {ejected} else {})
              && |containers| == |old(containers)| + (if full && !panics then 0 else 1)
    {
      hide WarmContainers.IsOldest, Described, IdsOf;
      panics, ejected := false, "";
      Insert(imageFQN, id, created, all);
      if |containers| > maxWarmContainers {
        ejected, panics := EjectContainer(order, later, all[id := WarmContainers.Created(imageFQN, created)]);
      }
    }

    /**
     * The part of `runContainer` under the lock: `created` is the time of the new container,
     * `later` the time at which `ejectContainer` looks at the clock. Unless it panics this is the
     * step Store from any state `s` with this map; then, if the container was stored, its pausing
     * goroutine is started. A panic leaves the map with the new container.
     */
    method StoreContainer(imageFQN: string, id: string, created: int, later: int, order: seq<string>,
                          ghost s: WarmContainers.State)
        returns (stored: bool, ejected: string, panics: bool, pauserStarted: bool)
      requires imageFQN != "" && "" !in containers
      requires forall f :: f in order <==> f in containers.Keys + {imageFQN}
      requires IsIn(s) && s.now == created && id !in s.all && id !in s.orphaned
      modifies this`containers
      ensures stored <==> imageFQN !in old(containers)
      ensures pauserStarted <==> stored && !panics
      ensures panics <==> && stored && |old(containers)| + 1 > maxWarmContainers && created >= later
                          && forall f :: f in old(containers) ==> old(containers)[f].createdAt >= later
      ensures panics ==> Warm() == old(Warm())[imageFQN := id] && |containers| == |old(containers)| + 1
      ensures !stored ==> containers == old(containers)
      ensures stored && !panics && |old(containers)| < maxWarmContainers ==> Warm() == old(Warm())[imageFQN := id]
      ensures stored && !panics && |old(containers)| >= maxWarmContainers ==>
                && Warm() == old(Warm())[imageFQN := id] - {ejected}
                && (ejected == imageFQN || ejected in old(containers))
                && var createdAt := if ejected == imageFQN then created else old(containers)[ejected].createdAt;
                   && createdAt <= created
                   && forall f :: f in old(containers) ==> createdAt <= old(containers)[f].createdAt
      ensures !panics && created <= later ==>
                var step := WarmContainers.Store(imageFQN, id, later, ejected);
                && WarmContainers.Enabled(maxWarmContainers, s, step)
                && Warm() == WarmContainers.Apply(maxWarmContainers, s, step).warm
    {
      hide WarmContainers.Apply, WarmContainers.Enabled, WarmContainers.IsOldest, Described;
      panics, ejected, stored, pauserStarted := false, "", false, false;
      WarmSize();
      ghost var was := containers;
      if imageFQN !in containers {
        stored := true;
        ejected, panics := InsertAndEject(imageFQN, id, created, later, order, s.all);
        if !panics && |was| >= maxWarmContainers {
          OldestAmong(was, s.all, imageFQN, id, created, later, ejected);
        }
        pauserStarted := !panics;
      }
      if !panics && created <= later {
        CriticalSections.StoreIsStep(maxWarmContainers, s, imageFQN, id, later, ejected);
      }
    }

    lemma WarmSize()
      ensures |Warm()| == |containers| && Warm().Keys == containers.Keys
    {
      assert Warm().Keys == containers.Keys;
    }

    /** The step Extract of `fetch`, from any state `s` with this map. */
    method ExtractContainer(imageFQN: string, ghost s: WarmContainers.State, ghost fetch: nat)
        returns (container: ContainerState?)
      requires IsIn(s) && fetch !in s.fetches
      modifies this`containers
      ensures container == null <==> imageFQN !in old(containers)
      ensures container != null ==> container == old(containers)[imageFQN]
      ensures containers == old(containers) - {imageFQN}
      ensures var step := WarmContainers.Extract(fetch, imageFQN);
              && WarmContainers.Enabled(maxWarmContainers, s, step)
              && var s' := WarmContainers.Apply(maxWarmContainers, s, step);
                 && Warm() == s'.warm
                 && s'.fetches[fetch] == if container == null then WarmContainers.Miss
                                         else WarmContainers.Extracted(container.id)
    {
      if imageFQN !in containers {
        return null;
      }
      container := containers[imageFQN];
      containers := containers - {imageFQN};
    }
  }
}
