/** Service instances and the filter every balancer starts with. */
module Instances {

  datatype ServiceInstance = ServiceInstance(id: string, host: string, port: nat, weight: int, alive: bool)

  function Alive(instances: seq<ServiceInstance>): seq<ServiceInstance> {
    if instances == [] then []
    else
      var rest := Alive(instances[..|instances| - 1]);
      var last := instances[|instances| - 1];
      if last.alive then rest + [last] else rest
  }

  /** The instances at the positions `at` are `alive`, and they are all that live. */
  ghost predicate Picked(instances: seq<ServiceInstance>, alive: seq<ServiceInstance>, at: seq<nat>) {
    && |at| == |alive|
    && (forall i :: 0 <= i < |at| ==> at[i] < |instances| && alive[i] == instances[at[i]])
    && (forall i, j :: 0 <= i < j < |at| ==> at[i] < at[j])
    && (forall k :: 0 <= k < |instances| ==> (instances[k].alive <==> k in at))
  }

  lemma PickLast(front: seq<ServiceInstance>, last: ServiceInstance, alive: seq<ServiceInstance>, at: seq<nat>)
    requires Picked(front, alive, at)
    ensures if last.alive then Picked(front + [last], alive + [last], at + [|front|])
            else Picked(front + [last], alive, at)
  {
    assert forall k :: k in at ==> k < |front|;
    assert forall k :: 0 <= k < |front| ==> (front + [last])[k] == front[k];
    if last.alive {
      PickedNow(front, last, alive, at);
    }
  }

  lemma PickedNow(front: seq<ServiceInstance>, last: ServiceInstance, alive: seq<ServiceInstance>, at: seq<nat>)
    requires Picked(front, alive, at) && last.alive
    ensures Picked(front + [last], alive + [last], at + [|front|])
  {
    var more := at + [|front|];
    forall k | 0 <= k < |front| + 1 ensures (front + [last])[k].alive <==> k in more {
      if k < |front| {
        assert k in more <==> k in at;
      } else {
        assert more[|at|] == k;
      }
    }
  }

  /** The filter keeps exactly the live instances, in their order. */
  lemma {:induction false} AliveKeepsOrder(instances: seq<ServiceInstance>) returns (at: seq<nat>)
    ensures |at| == |Alive(instances)|
    ensures forall i :: 0 <= i < |at| ==> at[i] < |instances| && Alive(instances)[i] == instances[at[i]]
    ensures forall i, j :: 0 <= i < j < |at| ==> at[i] < at[j]
    ensures forall k :: 0 <= k < |instances| ==> (instances[k].alive <==> k in at)
  {
    if instances == [] {
      at := [];
    } else {
      var n := |instances| - 1;
      at := AliveKeepsOrder(instances[..n]);
      PickLast(instances[..n], instances[n], Alive(instances[..n]), at);
      assert instances[..n] + [instances[n]] == instances;
      if instances[n].alive {
        at := at + [n];
      }
    }
  }

  method FilterAlive(instances: seq<ServiceInstance>) returns (alive: seq<ServiceInstance>)
    ensures alive == Alive(instances)
  {
    alive := [];
    for i := 0 to |instances|
      invariant alive == Alive(instances[..i])
    {
      assert instances[..i + 1][..i] == instances[..i];
      if instances[i].alive {
        alive := alive + [instances[i]];
      }
    }
    assert instances[..|instances|] == instances;
  }
}
