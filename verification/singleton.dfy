/**
 * singleton and init_once: function-local static instances, one per argument signature of
 * instance(), each built by the first call with that signature, and an initializer whose
 * environment set-up runs on the first invoke only.
 */
module Singletons {
  import opened Wrappers

  /**
   * The static locals of singleton<Object>::instance. instance is a member template, so each
   * argument signature it is called with (the deduced Args..., types and value categories) has a
   * static of its own: empty until the first call with that signature constructs it from that
   * call's arguments. Sig stands for the signature.
   */
  class Singleton<Sig(==), T> {
    var instances: map<Sig, T>

    constructor ()
      ensures instances == map[]
    {
      instances := map[];
    }

    /**
     * instance(args...) with signature sig: the first call with that signature constructs its
     * object from the arguments; every later call with the same signature returns that object and
     * ignores its arguments. The statics of other signatures are untouched.
     */
    method Instance(sig: Sig, constructed: T) returns (r: T)
      modifies this
      ensures sig in instances && instances[sig] == r
      ensures sig !in old(instances) ==> r == constructed
      ensures sig in old(instances) ==> r == old(instances)[sig]
      ensures instances == old(instances)[sig := r]
    {
      if sig !in instances {
        instances := instances[sig := constructed];
      }
      r := instances[sig];
    }
  }

  /**
   * Two calls to instance with the same signature return the same object, whatever the arguments
   * of the second: the one built from the first call's arguments when that signature had none.
   */
  method InstanceTwice<Sig(==), T>(s: Singleton<Sig, T>, sig: Sig, first: T, second: T) returns (a: T, b: T)
    modifies s
    ensures a == b
    ensures sig !in old(s.instances) ==> a == first
    ensures s.instances == old(s.instances)[sig := a]
  {
    a := s.Instance(sig, first);
    b := s.Instance(sig, second);
  }

  /**
   * Calls with different signatures reach different statics: the second call constructs its own
   * object from its own arguments when its signature had none, even after the first call built one.
   */
  method InstancesIndependent<Sig(==), T>(s: Singleton<Sig, T>, sig1: Sig, first: T, sig2: Sig, second: T)
    returns (a: T, b: T)
    requires sig1 != sig2
    modifies s
    ensures sig2 !in old(s.instances) ==> b == second
    ensures sig2 in old(s.instances) ==> b == old(s.instances)[sig2]
    ensures sig1 !in old(s.instances) ==> a == first
    ensures s.instances == old(s.instances)[sig1 := a][sig2 := b]
  {
    a := s.Instance(sig1, first);
    b := s.Instance(sig2, second);
  }

  /**
   * init_once<T>: has_initialized_ and the number of times init_environment_core has run, which is
   * one exactly when the flag is set.
   */
  class InitOnce {
    var initialized: bool
    var initRuns: nat

    ghost predicate Valid()
      reads this
    {
      initRuns == (if initialized then 1 else 0)
    }

    /** The flag starts false and nothing has been initialized. */
    constructor ()
      ensures Valid() && !initialized && initRuns == 0
    {
      initialized := false;
      initRuns := 0;
    }

    /** invoke: runs init_environment_core and sets the flag the first time; later calls do nothing. */
    method Invoke()
      requires Valid()
      modifies this
      ensures Valid() && initialized && initRuns == 1
      ensures old(initialized) ==> initRuns == old(initRuns)
      ensures !old(initialized) ==> initRuns == old(initRuns) + 1
    {
      if !initialized {
        initRuns := initRuns + 1;
        initialized := true;
      }
    }
  }
}
