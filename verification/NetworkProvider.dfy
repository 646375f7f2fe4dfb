/** `platform/fabric/core/provider.go` and `platform/orion/core/provider.go`: the
    provider of network services below the caches.  Its methods run under one
    mutex, so a call is one step of the interleavings in `ServiceCache`. */
module NetworkProvider {
  import opened Options
  import opened ServiceCache

  /** A driver fails, finds nothing to make, or makes a service. */
  datatype Answer = Failed | Nothing | Made(handle: nat)

  /** A service answers to the name of the network it was made for. */
  datatype Service = Service(name: string, handle: nat)

  /** The driver at this position makes the service, and none before it does. */
  predicate FirstToMake(answers: seq<Answer>, n: nat) {
    n < |answers| && answers[n].Made? && forall i | 0 <= i < n :: !answers[i].Made?
  }

  predicate NoneMakes(answers: seq<Answer>) {
    forall i | 0 <= i < |answers| :: !answers[i].Made?
  }

  /** `newFNS`, which asks the drivers one after the other. */
  method NewFns(network: string, answers: seq<Answer>) returns (r: Option<Service>)
    ensures r.None? <==> NoneMakes(answers)
    ensures r.Some? ==> exists n: nat :: FirstToMake(answers, n) && r.value == Service(network, answers[n].handle)
  {
    for i := 0 to |answers|
      invariant forall k | 0 <= k < i :: !answers[k].Made?
    {
      if answers[i].Failed? {
        continue;
      }
      if answers[i].Made? {
        assert FirstToMake(answers, i);
        return Some(Service(network, answers[i].handle));
      }
    }
    return None;
  }

  class Provider {
    const defaultName: string
    var networks: map<string, Service>
    /** The names of the services in the order in which they were made. */
    ghost var internal: seq<string>

    ghost predicate Valid()
      reads this
    {
      && Unique(internal)
      && (forall name :: name in networks <==> name in internal)
      && (forall name | name in networks :: networks[name].name == name)
    }

    constructor (defaultName: string)
      ensures Valid() && networks == map[] && internal == [] && this.defaultName == defaultName
    {
      this.defaultName := defaultName;
      networks, internal := map[], [];
    }

    /** `FabricNetworkService` and `OrionNetworkService`: the step `Ask` of the caches.
        The service is the one made for the resolved name, now or before; there is one
        unless no driver makes it; none is ever replaced, and a failure leaves no trace. */
    method NetworkService(network: string, answers: seq<Answer>) returns (r: Option<Service>)
      requires Valid()
      modifies this
      ensures Valid()
      ensures var name := ResolveNetwork(defaultName)(network);
              && internal == Asked(old(internal), name, r.None?)
              && (r.None? <==> name !in old(networks) && NoneMakes(answers))
              && (r.Some? ==> networks == old(networks)[name := r.value] && r.value.name == name)
              && (r.None? ==> networks == old(networks) && name !in networks)
              && (name in old(networks) ==> networks == old(networks) && r == Some(networks[name]))
    {
      var name := if |network| == 0 then defaultName else network;
      if name in networks {
        assert networks[name := networks[name]] == networks;
        return Some(networks[name]);
      }
      r := NewFns(name, answers);
      if r.Some? {
        networks, internal := networks[name := r.value], internal + [name];
      }
    }
  }

  /** The entries are sound and complete: each leads to the wrapper made for the name
      of its id, and every wrapper, of which there is one per name, is found. */
  ghost predicate Indexed(entries: map<string, Wrapper>, created: seq<string>, defaultName: string) {
    && Unique(created)
    && (forall w | 0 <= w < |created| :: created[w] in entries && entries[created[w]] == w)
    && (forall id | id in entries ::
          entries[id] < |created| && created[entries[id]] == ResolveNetwork(defaultName)(id))
  }

  /** Storing a new wrapper under the id and the name keeps the index. */
  lemma IndexGrows(entries: map<string, Wrapper>, created: seq<string>, defaultName: string, id: string)
    requires var name := ResolveNetwork(defaultName)(id);
             Indexed(entries, created, defaultName) && id !in entries && name !in entries
    ensures var name := ResolveNetwork(defaultName)(id);
            Indexed(entries[id := |created|][name := |created|], created + [name], defaultName)
  {
    var name := ResolveNetwork(defaultName)(id);
    assert ResolveNetwork(defaultName)(name) == name;
    forall w | 0 <= w < |created| ensures created[w] != name && created[w] != id {
      assert created[w] in entries;
    }
  }

  /** `NetworkServiceProvider` of `fns.go` and `ons.go`, for a call that no other call
      interrupts; `ServiceCache` has the interleavings. */
  class NetworkServices {
    const provider: Provider
    var networkServices: map<string, Wrapper>
    /** The names that the wrappers were made for, by wrapper. */
    var created: seq<string>

    ghost predicate Valid()
      reads this, provider
    {
      && provider.Valid()
      && Indexed(networkServices, created, provider.defaultName)
      && (forall name | name in created :: name in provider.networks)
    }

    constructor (provider: Provider)
      requires provider.Valid()
      ensures Valid() && this.provider == provider && created == [] && networkServices == map[]
    {
      this.provider := provider;
      networkServices, created := map[], [];
    }

    /** The result is the one wrapper made for the name of the id.  A wrapper is made
        only for a name without one, and no entry is overwritten. */
    method NetworkService(id: string, answers: seq<Answer>) returns (r: Option<Wrapper>)
      requires Valid()
      modifies this, provider
      ensures Valid()
      ensures var name := ResolveNetwork(provider.defaultName)(id);
              && created == Asked(old(created), name, r.None?)
              && (r.Some? ==> r.value < |created| && created[r.value] == name)
              && (r.None? <==> name !in old(provider.networks) && NoneMakes(answers))
              && (name in old(created) ==> r.Some?)
      ensures forall k | k in old(networkServices) ::
                k in networkServices && networkServices[k] == old(networkServices[k])
    {
      if id in networkServices {
        return Some(networkServices[id]);
      }
      var service := provider.NetworkService(id, answers);
      if service.None? {
        return None;
      }
      var name := service.value.name;
      if name in networkServices {
        return Some(networkServices[name]);
      }
      IndexGrows(networkServices, created, provider.defaultName, id);
      var w := |created|;
      created := created + [name];
      networkServices := networkServices[id := w][name := w];
      return Some(w);
    }
  }
}
