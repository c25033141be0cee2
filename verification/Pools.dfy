/** The monitored pools and the order-preserving selection of the active ones. */
module Pools {
  datatype Pool = Pool(id: string, instance: string, name: string, exclude: bool, allowEmptySlots: bool)

  function Active(pools: seq<Pool>): (active: seq<Pool>)
    ensures forall p :: p in active <==> p in pools && !p.exclude
  {
    if pools == [] then []
    else
      var last := pools[|pools| - 1];
      Active(pools[..|pools| - 1]) + if last.exclude then [] else [last]
  }

  /** Selecting goes pool by pool: the active pools keep the order and the number of the list. */
  lemma {:induction false} ActiveGoesPoolByPool(first: seq<Pool>, second: seq<Pool>, p: Pool)
    ensures Active(first + second) == Active(first) + Active(second)
    ensures Active([p]) == if p.exclude then [] else [p]
    decreases |second|
  {
    assert [p][..0] == [];
    if second == [] {
      assert first + second == first;
    } else {
      var init, last := second[..|second| - 1], second[|second| - 1];
      assert (first + second)[..|first + second| - 1] == first + init;
      ActiveGoesPoolByPool(first, init, p);
    }
  }

  /** The hypothesis that no two pools of the list share an id. */
  predicate DistinctIds(pools: seq<Pool>) {
    forall i, j :: 0 <= i < j < |pools| ==> pools[i].id != pools[j].id
  }

  lemma {:induction false} ActiveKeepsDistinctIds(pools: seq<Pool>)
    requires DistinctIds(pools)
    ensures DistinctIds(Active(pools))
  {
    if pools != [] {
      var init := pools[..|pools| - 1];
      ActiveKeepsDistinctIds(init);
      forall i | 0 <= i < |Active(init)|
        ensures Active(init)[i].id != pools[|pools| - 1].id
      {
        assert Active(init)[i] in init;
      }
    }
  }

  method GetActivePools(pools: seq<Pool>) returns (active: seq<Pool>)
    ensures active == Active(pools)
  {
    active := [];
    for i := 0 to |pools|
      invariant active == Active(pools[..i])
    {
      assert pools[..i + 1][..i] == pools[..i];
      if !pools[i].exclude {
        active := active + [pools[i]];
      }
    }
    assert pools[..|pools|] == pools;
  }
}
