/** What registrations leave in the lists, and the order of a query. */
module DlcRuns {
  import opened Words
  import opened DlcCache
  import opened DlcStores

  /** Bases are walked in ascending order. */
  lemma {:induction false} AscendingIsSorted(s: set<u32>, i: nat, j: nat)
    requires i < j < |Ascending(s)|
    ensures Ascending(s)[i] < Ascending(s)[j]
  {
    var order := Ascending(s);
    LeastExists(s);
    var rest := s - {order[0]};
    assert order[1..] == Ascending(rest);
    if i > 0 {
      AscendingIsSorted(rest, i - 1, j - 1);
    } else {
      assert order[j] in Ascending(rest);
    }
  }

  /** Registrations one after the other. */
  ghost predicate AreRegistrations(states: seq<State>, ops: seq<Op>) {
    && |states| == |ops| + 1
    && forall i :: 0 <= i < |ops| ==> ops[i].Register? && Next(states[i], ops[i], states[i + 1])
  }

  /** The operation lists the id under the base: no redistributable, and the base is not zero. */
  predicate AddsTo(op: Op, base: u32, d: u32) {
    op.Register? && op.base == base && base != 0 && d in op.ids && !(228980 <= d <= 228991)
  }

  predicate Registered(ops: seq<Op>, n: nat, base: u32, d: u32) {
    exists i :: 0 <= i < n && i < |ops| && AddsTo(ops[i], base, d)
  }

  /** Every list begins with what it held at the start and holds besides exactly the ids registered under its base. */
  lemma {:induction false} ListsHoldRegistered(states: seq<State>, ops: seq<Op>, n: nat, base: u32, d: u32)
    requires AreRegistrations(states, ops) && n <= |ops|
    ensures states[n].initialized == states[0].initialized
    ensures ListFor(states[0].lists, base) <= ListFor(states[n].lists, base)
    ensures d in ListFor(states[n].lists, base) <==>
            d in ListFor(states[0].lists, base) || Registered(ops, n, base, d)
  {
    hide Next, Merged;
    if n > 0 {
      ListsHoldRegistered(states, ops, n - 1, base, d);
      RegisteredSnoc(ops, n - 1, base, d);
      var s, op, t := states[n - 1], ops[n - 1], states[n];
      assert op.Register? && Next(s, op, t);
      OneRegistration(s, op.base, op.ids, t, base, d);
    }
  }

  lemma RegisteredSnoc(ops: seq<Op>, n: nat, base: u32, d: u32)
    requires n < |ops|
    ensures Registered(ops, n + 1, base, d) <==> Registered(ops, n, base, d) || AddsTo(ops[n], base, d)
  {
    hide AddsTo;
  }

  lemma OneRegistration(s: State, b: u32, ids: seq<u32>, t: State, base: u32, d: u32)
    requires Next(s, Register(b, ids), t)
    ensures t.initialized == s.initialized && ListFor(s.lists, base) <= ListFor(t.lists, base)
    ensures d in ListFor(t.lists, base) <==> d in ListFor(s.lists, base) || AddsTo(Register(b, ids), base, d)
  {
    hide Merged, Saved;
    MergedIsUnion(ListFor(s.lists, b), ids, true);
  }
}
