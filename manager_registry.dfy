/** The application-wide table of Poetry package managers, one per SDK key. */
module ManagerRegistry {
  import opened PackageManager

  /** `PyPoetryPackageManagersImpl`: the `myInstances` map from SDK key to manager. */
  class PoetryPackageManagers {
    var instances: map<string, PoetryPackageManager>

    /** Every manager is stored under the key of the SDK it serves. */
    ghost predicate Valid()
      reads this
    {
      forall k | k in instances :: instances[k].sdkKey == k
    }

    constructor ()
      ensures Valid() && instances == map[]
    {
      instances := map[];
    }

    /**
     * `forSdk`: the manager stored under the SDK's key, or a new one, stored
     * under that key, when there is none; nothing else changes.
     */
    method ForSdk(sdkKey: string) returns (m: PoetryPackageManager)
      requires Valid()
      modifies this
      ensures Valid()
      ensures sdkKey in instances && instances[sdkKey] == m && m.sdkKey == sdkKey
      ensures sdkKey in old(instances) ==> m == old(instances)[sdkKey] && instances == old(instances)
      ensures sdkKey !in old(instances) ==>
        fresh(m) && m.packages.None? && m.requirements.None? && instances == old(instances)[sdkKey := m]
    {
      if sdkKey in instances {
        m := instances[sdkKey];
      } else {
        m := new PoetryPackageManager(sdkKey);
        instances := instances[sdkKey := m];
      }
    }

    /** `clearCache`: forgets the manager of the SDK's key, and only that one. */
    method ClearCache(sdkKey: string)
      requires Valid()
      modifies this
      ensures Valid()
      ensures instances == old(instances) - {sdkKey}
    {
      instances := instances - {sdkKey};
    }
  }

  /**
   * Two `forSdk` calls for the same key give the same manager, and after
   * `clearCache` of that key the next call gives a new one; managers of
   * other keys are kept throughout.
   */
  method ForSdkScenario(registry: PoetryPackageManagers, key: string, other: string)
      returns (first: PoetryPackageManager, second: PoetryPackageManager, third: PoetryPackageManager)
    requires registry.Valid() && key != other
    modifies registry
    ensures first == second && third != first && fresh(third)
    ensures other in old(registry.instances) ==> other in registry.instances && registry.instances[other] == old(registry.instances)[other]
    ensures registry.Valid() && key in registry.instances && registry.instances[key] == third
  {
    first := registry.ForSdk(key);
    second := registry.ForSdk(key);
    registry.ClearCache(key);
    third := registry.ForSdk(key);
  }
}
