/**
 * The directory of environments the farm offers (EnvironmentManager.java): a map
 * from environment name to environment, replaced entry by entry.
 */
module Environments {

  import opened Faults

  /** An environment is a name clients ask for and the browser string handed to the worker. */
  datatype Environment = Environment(name: string, browser: string)

  class EnvironmentManager {
    var environmentMap: map<string, Environment>

    /** Every entry is filed under its own name. */
    predicate Valid()
      reads this
    {
      forall n :: n in environmentMap ==> environmentMap[n].name == n
    }

    constructor ()
      ensures Valid() && environmentMap == map[]
    {
      environmentMap := map[];
    }

    /** `addEnvironment(e)`: `e` is filed under its name, replacing any environment of that name. */
    method AddEnvironment(newEnvironment: Environment)
      requires Valid()
      modifies this
      ensures Valid()
      ensures environmentMap == old(environmentMap)[newEnvironment.name := newEnvironment]
      ensures EnvironmentNamed(newEnvironment.name) == Some(newEnvironment)
      ensures forall n :: n != newEnvironment.name ==> EnvironmentNamed(n) == old(EnvironmentNamed(n))
    {
      environmentMap := environmentMap[newEnvironment.name := newEnvironment];
    }

    /** `environment(name)`: the environment filed under `name`, or null for a name never added. */
    function EnvironmentNamed(environmentName: string): (r: Option<Environment>)
      requires Valid()
      reads this
      ensures r.Some? <==> environmentName in environmentMap
      ensures r.Some? ==> r.value.name == environmentName && r.value in environmentMap.Values
    {
      if environmentName in environmentMap then Some(environmentMap[environmentName]) else None
    }

    /**
     * `environments()`: a list of the map's values, one entry per distinct name.
     * The order of a hash map's values is unspecified; the loop takes the names in
     * an arbitrary order.
     */
    method Environments() returns (r: seq<Environment>)
      requires Valid()
      ensures |r| == |environmentMap|
      ensures forall e :: e in r <==> e in environmentMap.Values
      ensures forall i, j :: 0 <= i < j < |r| ==> r[i].name != r[j].name
    {
      r := [];
      var names := environmentMap.Keys;
      while names != {}
        invariant names <= environmentMap.Keys
        invariant |r| + |names| == |environmentMap|
        invariant forall i :: 0 <= i < |r| ==> r[i].name in environmentMap.Keys - names
        invariant forall i :: 0 <= i < |r| ==> r[i] == environmentMap[r[i].name]
        invariant forall n :: n in environmentMap.Keys - names ==> environmentMap[n] in r
        invariant forall i, j :: 0 <= i < j < |r| ==> r[i].name != r[j].name
        decreases |names|
      {
        var n :| n in names;
        r := r + [environmentMap[n]];
        names := names - {n};
      }
    }
  }
}
