/** Keeping a desired set of ids in the client's own vectors, as deltas. */
module LicenseDelta {
  import opened Words

  // ---- the delta on sequences -------------------------------------------------------------

  /** Overwrites the first occurrence of `v` with the last element and shortens by one. */
  function FastRemove(s: seq<u32>, v: u32): seq<u32> {
    if v !in s then s
    else s[First(s, v) := s[|s| - 1]][..|s| - 1]
  }

  function First(s: seq<u32>, v: u32): (i: nat)
    requires v in s
    ensures i < |s| && s[i] == v && v !in s[..i]
  {
    if s[0] == v then 0 else 1 + First(s[1..], v)
  }

  /** Removes the tracked ids that are no longer desired, one after the other. */
  function RemoveDropped(s: seq<u32>, tracked: seq<u32>, desired: set<u32>): seq<u32> {
    if tracked == [] then s
    else
      var front := RemoveDropped(s, tracked[..|tracked| - 1], desired);
      var id := tracked[|tracked| - 1];
      if id in desired then front else FastRemove(front, id)
  }

  /** The desired ids that are not present, in order. */
  function Additions(present: set<u32>, desired: seq<u32>): seq<u32> {
    if desired == [] then []
    else
      var front := Additions(present, desired[..|desired| - 1]);
      var id := desired[|desired| - 1];
      if id in present then front else front + [id]
  }

  function SetOf(s: seq<u32>): set<u32> {
    set x | x in s
  }

  /** The vector after a delta. When the vector cannot grow, only the removals happen. */
  function Delta(s: seq<u32>, tracked: seq<u32>, desired: seq<u32>, grown: bool): seq<u32> {
    var kept := RemoveDropped(s, tracked, SetOf(desired));
    if grown then kept + Additions(SetOf(kept), desired) else kept
  }

  // ---- the client's vector --------------------------------------------------------------------

  class CUtlVector {
    var memory: array?<u32>
    var allocation: nat
    var size: nat

    ghost predicate Valid()
      reads this
    {
      && size <= allocation
      && (if memory == null then size == 0 else memory.Length == allocation)
    }

    function Contents(): seq<u32>
      requires Valid()
      reads this, memory
    {
      if memory == null then [] else memory[..size]
    }

    constructor (memory: array?<u32>, size: nat)
      requires if memory == null then size == 0 else size <= memory.Length
      ensures Valid() && this.memory == memory && this.size == size
    {
      this.memory := memory;
      this.size := size;
      allocation := if memory == null then 0 else memory.Length;
    }

    /**
      * The client's own growth routine, which is assumed to keep the stored elements and to make room for
      * `count` more. It may be unresolved or refuse: `spare` is then none.
      */
    method NativeGrow(count: nat, spare: Option<nat>) returns (ok: bool)
      requires Valid()
      modifies this
      ensures Valid() && size == old(size) && Contents() == old(Contents())
      ensures ok == spare.Some?
      ensures ok ==> memory != null && fresh(memory) && size + count <= allocation
      ensures !ok ==> memory == old(memory) && allocation == old(allocation)
    {
      if spare == None {
        return false;
      }
      var capacity := size + count + spare.value;
      var grown := new u32[capacity](_ => 0);
      if memory != null {
        forall i | 0 <= i < size {
          grown[i] := memory[i];
        }
        assert grown[..size] == memory[..size];
      }
      memory := grown;
      allocation := capacity;
      return true;
    }

    /** Removes the first occurrence of a value by moving the last element into its place. */
    method FastRemoveValue(value: u32) returns (removed: bool)
      requires Valid()
      modifies this, memory
      ensures Valid() && memory == old(memory) && allocation == old(allocation)
      ensures Contents() == FastRemove(old(Contents()), value)
      ensures removed == (value in old(Contents()))
    {
      var i := 0;
      while i < size
        invariant i <= size && Contents() == old(Contents()) && size == old(size)
        invariant value !in Contents()[..i]
      {
        if memory[i] == value {
          FirstIs(Contents(), value, i);
          memory[i] := memory[size - 1];
          size := size - 1;
          return true;
        }
        i := i + 1;
      }
      return false;
    }

    /**
      * Appends the values: in place when there is room, else after growing natively, else into memory of
      * its own. Fails only when no memory can be had.
      */
    method GrowAndAppend(values: seq<u32>, spare: Option<nat>, memoryLeft: bool) returns (ok: bool)
      requires Valid()
      modifies this, memory
      ensures Valid()
      ensures memory != old(memory) ==> memory != null && fresh(memory)
      ensures Contents() == old(Contents()) + (if ok then values else [])
      ensures !ok <==> values != [] && !Room(old(memory), old(size), old(allocation), |values|)
                       && spare == None && !memoryLeft
      ensures ok && values != [] ==>
                if Room(old(memory), old(size), old(allocation), |values|)
                then memory == old(memory) && allocation == old(allocation)
                else spare == None ==> allocation == (old(size) + |values|) * 2 + 64
    {
      if values == [] {
        return true;
      }
      var oldSize := size;
      var numToAdd := |values|;
      var neededCapacity := oldSize + numToAdd;
      if neededCapacity <= allocation && memory != null {
        AppendInPlace(values);
        return true;
      }
      var native := NativeGrow(numToAdd, spare);
      if native {
        AppendInPlace(values);
        return true;
      }
      var newCapacity := neededCapacity * 2 + 64;
      if !memoryLeft {
        return false;
      }
      MoveTo(newCapacity, values);
      return true;
    }

    /** The values are stored behind the last element and the size is raised. */
    method AppendInPlace(values: seq<u32>)
      requires Valid() && memory != null && size + |values| <= allocation
      modifies this`size, memory
      ensures Valid() && Contents() == old(Contents()) + values
    {
      Store(memory, size, values);
      size := size + |values|;
    }

    /** Elements and values move to a block of the vector's own. */
    method MoveTo(newCapacity: nat, values: seq<u32>)
      requires Valid() && size + |values| <= newCapacity
      modifies this
      ensures Valid() && memory != null && fresh(memory) && allocation == newCapacity
      ensures Contents() == old(Contents()) + values
    {
      var newMemory := new u32[newCapacity](_ => 0);
      if size > 0 && memory != null {
        forall i | 0 <= i < size {
          newMemory[i] := memory[i];
        }
        assert newMemory[..size] == memory[..size];
      }
      Store(newMemory, size, values);
      memory := newMemory;
      allocation := newCapacity;
      size := size + |values|;
    }
  }

  /** Whether the values fit without growing. */
  predicate Room(memory: array?<u32>, size: nat, allocation: nat, count: nat) {
    size + count <= allocation && memory != null
  }

  /** The element-by-element copy that ends every growth path. */
  method Store(memory: array<u32>, at: nat, values: seq<u32>)
    requires at + |values| <= memory.Length
    modifies memory
    ensures memory[..at + |values|] == old(memory[..at]) + values
  {
    var i := 0;
    while i < |values|
      invariant i <= |values|
      invariant memory[..at + i] == old(memory[..at]) + values[..i]
    {
      memory[at + i] := values[i];
      i := i + 1;
      assert memory[..at + i] == memory[..at + i - 1] + [values[i - 1]];
    }
    assert values[..i] == values;
  }

  lemma {:induction false} FirstIs(s: seq<u32>, v: u32, i: nat)
    requires i < |s| && s[i] == v && v !in s[..i]
    ensures v in s && First(s, v) == i
  {
    if i > 0 {
      assert s[0] == s[..i][0];
      assert s[1..][..i - 1] == s[..i][1..];
      FirstIs(s[1..], v, i - 1);
    }
  }

  // ---- the delta as the program applies it ------------------------------------------------------

  class PackageInfo {
    const appIdVec: CUtlVector
    const depotIdVec: CUtlVector

    constructor (apps: CUtlVector, depots: CUtlVector)
      ensures appIdVec == apps && depotIdVec == depots
    {
      appIdVec := apps;
      depotIdVec := depots;
    }

    ghost predicate Valid()
      reads this, appIdVec, depotIdVec
    {
      && appIdVec != depotIdVec
      && appIdVec.Valid() && depotIdVec.Valid()
      && (appIdVec.memory != null ==> appIdVec.memory != depotIdVec.memory)
    }
  }

  method RemoveDroppedIds(vec: CUtlVector, tracked: seq<u32>, desired: set<u32>)
    requires vec.Valid()
    modifies vec, vec.memory
    ensures vec.Valid() && vec.memory == old(vec.memory) && vec.allocation == old(vec.allocation)
    ensures vec.Contents() == RemoveDropped(old(vec.Contents()), tracked, desired)
  {
    var i := 0;
    while i < |tracked|
      invariant i <= |tracked| && vec.Valid()
      invariant vec.memory == old(vec.memory) && vec.allocation == old(vec.allocation)
      invariant vec.Contents() == RemoveDropped(old(vec.Contents()), tracked[..i], desired)
    {
      assert tracked[..i + 1][..i] == tracked[..i];
      if tracked[i] !in desired {
        var _ := vec.FastRemoveValue(tracked[i]);
      }
      i := i + 1;
    }
    assert tracked[..i] == tracked;
  }

  method CollectAdditions(vec: CUtlVector, desired: seq<u32>) returns (additions: seq<u32>)
    requires vec.Valid()
    ensures additions == Additions(SetOf(vec.Contents()), desired)
  {
    var present: set<u32> := {};
    var i := 0;
    while i < vec.size
      invariant i <= vec.size && present == SetOf(vec.Contents()[..i])
    {
      assert vec.Contents()[..i + 1] == vec.Contents()[..i] + [vec.memory[i]];
      present := present + {vec.memory[i]};
      i := i + 1;
    }
    assert vec.Contents()[..i] == vec.Contents();
    additions := [];
    i := 0;
    while i < |desired|
      invariant i <= |desired| && additions == Additions(present, desired[..i])
    {
      assert desired[..i + 1][..i] == desired[..i];
      if desired[i] !in present {
        additions := additions + [desired[i]];
      }
      i := i + 1;
    }
    assert desired[..i] == desired;
  }

  /**
    * The delta of one vector: removals, then additions. Apps and depots lie in vectors of their own, so it does
    * not matter that the program alternates between them.
    */
  method ApplyToVector(vec: CUtlVector, tracked: seq<u32>, desired: seq<u32>, spare: Option<nat>, memoryLeft: bool)
    returns (ok: bool)
    requires vec.Valid()
    modifies vec, vec.memory
    ensures vec.Valid() && (vec.memory != old(vec.memory) ==> vec.memory != null && fresh(vec.memory))
    ensures vec.Contents() == Delta(old(vec.Contents()), tracked, desired, ok)
    ensures memoryLeft ==> ok
  {
    hide RemoveDropped, Additions;
    RemoveDroppedIds(vec, tracked, SetOf(desired));
    var additions := CollectAdditions(vec, desired);
    ok := vec.GrowAndAppend(additions, spare, memoryLeft);
  }

  /** The ids believed to be injected. */
  class Injected {
    var apps: seq<u32>
    var appSet: set<u32>
    var depots: seq<u32>

    constructor ()
      ensures apps == [] && appSet == {} && depots == []
    {
      apps := [];
      appSet := {};
      depots := [];
    }

    /** Applies one delta to both vectors; each tracked list becomes the desired one when its vector grew. */
    method ApplyDesiredLicenseDelta(pkg: PackageInfo, desiredApps: seq<u32>, desiredDepots: seq<u32>,
                                    spareApps: Option<nat>, spareDepots: Option<nat>, memoryLeft: bool)
      returns (appsOk: bool, depotsOk: bool)
      requires pkg.Valid() && appSet == SetOf(apps)
      modifies this, pkg.appIdVec, pkg.appIdVec.memory, pkg.depotIdVec, pkg.depotIdVec.memory
      ensures pkg.Valid() && appSet == SetOf(apps)
      ensures pkg.appIdVec.Contents() == Delta(old(pkg.appIdVec.Contents()), old(apps), desiredApps, appsOk)
      ensures pkg.depotIdVec.Contents() == Delta(old(pkg.depotIdVec.Contents()), old(depots), desiredDepots, depotsOk)
      ensures apps == (if appsOk then desiredApps else old(apps))
      ensures depots == (if depotsOk then desiredDepots else old(depots))
      ensures memoryLeft ==> appsOk && depotsOk
    {
      hide Delta, CUtlVector.Contents;
      appsOk := ApplyToVector(pkg.appIdVec, apps, desiredApps, spareApps, memoryLeft);
      depotsOk := ApplyToVector(pkg.depotIdVec, depots, desiredDepots, spareDepots, memoryLeft);
      if appsOk {
        apps := desiredApps;
        appSet := SetOf(desiredApps);
      }
      if depotsOk {
        depots := desiredDepots;
      }
    }
  }
}
