/** The canonical map of dedup as a forest whose roots are unmapped or map to themselves. */
module Forest {
  import opened BtfTypes

  type IdMap = seq<u32>

  const UNPROCESSED: u32 := 0xffff_ffff
  const IN_PROGRESS: u32 := 0xffff_fffe

  /** `is_type_mapped`, and the same test on `hypot_map`. */
  predicate Mapped(m: IdMap, id: nat) {
    id < |m| && m[id] <= MAX_NR_TYPES
  }

  ghost predicate InRange(m: IdMap) {
    |m| <= MAX_NR_TYPES && forall id :: 0 <= id < |m| && Mapped(m, id) ==> m[id] < |m|
  }

  predicate IsRoot(m: IdMap, id: nat) {
    id < |m| ==> !Mapped(m, id) || m[id] == id
  }

  ghost function Walk(m: IdMap, id: nat, steps: nat): nat
    decreases steps
  {
    if steps == 0 || IsRoot(m, id) then id else Walk(m, m[id], steps - 1)
  }

  ghost predicate RootAt(m: IdMap, id: nat, steps: nat) {
    IsRoot(m, Walk(m, id, steps))
  }

  ghost predicate HasRoot(m: IdMap, id: nat) {
    exists steps: nat :: RootAt(m, id, steps)
  }

  /** Every chain of mappings ends at a root. */
  ghost predicate IsForest(m: IdMap) {
    InRange(m) && forall id :: 0 <= id < |m| ==> HasRoot(m, id)
  }

  /** The root `resolve_type_id` finds. */
  ghost function Resolve(m: IdMap, id: nat): nat
    requires IsForest(m) && id < |m|
  {
    assert HasRoot(m, id);
    var steps: nat :| RootAt(m, id, steps);
    Walk(m, id, steps)
  }

  lemma {:induction false} RootIsUnique(m: IdMap, id: nat, i: nat, j: nat)
    requires RootAt(m, id, i) && RootAt(m, id, j)
    decreases i
    ensures Walk(m, id, i) == Walk(m, id, j)
  {
    if !IsRoot(m, id) && i > 0 && j > 0 {
      RootIsUnique(m, m[id], i - 1, j - 1);
    }
  }

  lemma ResolveAt(m: IdMap, id: nat, steps: nat)
    requires IsForest(m) && id < |m| && RootAt(m, id, steps)
    ensures Resolve(m, id) == Walk(m, id, steps)
  {
    assert HasRoot(m, id);
    var s: nat :| RootAt(m, id, s) && Resolve(m, id) == Walk(m, id, s);
    RootIsUnique(m, id, s, steps);
  }

  lemma {:induction false} WalkInRange(m: IdMap, id: nat, steps: nat)
    requires InRange(m) && id < |m|
    ensures Walk(m, id, steps) < |m|
    decreases steps
  {
    if steps > 0 && !IsRoot(m, id) {
      WalkInRange(m, m[id], steps - 1);
    }
  }

  lemma StepsToRoot(m: IdMap, id: nat) returns (steps: nat)
    requires IsForest(m) && id < |m|
    ensures RootAt(m, id, steps) && Resolve(m, id) == Walk(m, id, steps)
  {
    assert HasRoot(m, id);
    steps :| RootAt(m, id, steps);
    ResolveAt(m, id, steps);
  }

  /** The defining equation of `Resolve`. */
  lemma ResolveStep(m: IdMap, id: nat)
    requires IsForest(m) && id < |m|
    ensures Resolve(m, id) < |m| && IsRoot(m, Resolve(m, id))
    ensures IsRoot(m, id) ==> Resolve(m, id) == id
    ensures !IsRoot(m, id) ==> m[id] < |m| && Resolve(m, id) == Resolve(m, m[id])
  {
    var s := StepsToRoot(m, id);
    WalkInRange(m, id, s);
    if !IsRoot(m, id) {
      assert RootAt(m, m[id], s - 1);
      ResolveAt(m, m[id], s - 1);
    }
  }

  ghost predicate RootIs(m: IdMap, id: nat, root: nat) {
    exists steps: nat :: RootAt(m, id, steps) && Walk(m, id, steps) == root
  }

  lemma RootsResolve(m: IdMap, roots: seq<nat>)
    requires InRange(m) && |roots| == |m|
    requires forall id :: 0 <= id < |m| ==> RootIs(m, id, roots[id])
    ensures IsForest(m)
    ensures forall id :: 0 <= id < |m| ==> Resolve(m, id) == roots[id]
  {
    forall id | 0 <= id < |m|
      ensures HasRoot(m, id)
    {
      assert RootIs(m, id, roots[id]);
    }
    forall id | 0 <= id < |m|
      ensures Resolve(m, id) == roots[id]
    {
      assert RootIs(m, id, roots[id]);
      var s: nat :| RootAt(m, id, s) && Walk(m, id, s) == roots[id];
      ResolveAt(m, id, s);
    }
  }

  lemma {:induction false} LinkedWalk(m: IdMap, x: nat, t: u32, id: nat, steps: nat, tail: nat)
    requires InRange(m) && x < |m| && t < |m| && id < |m|
    requires IsRoot(m, x) && RootAt(m, id, steps)
    requires RootAt(m, t, tail) && Walk(m, t, tail) != x
    ensures var m' := m[x := t]; 
              RootIs(m', id, if Walk(m, id, steps) == x then Walk(m, t, tail) else Walk(m, id, steps))
    decreases steps
  {
    var m' := m[x := t];
    if id == x {
      AvoidingWalk(m, x, t, t, tail);
      assert Walk(m', x, tail + 1) == Walk(m', t, tail);
      assert RootAt(m', id, tail + 1);
    } else if IsRoot(m, id) {
      assert Walk(m, id, steps) == id;
      assert RootAt(m', id, 0);
    } else {
      LinkedWalk(m, x, t, m[id], steps - 1, tail);
      var root := Walk(m, m[id], steps - 1);
      var s: nat :| RootAt(m', m[id], s) && Walk(m', m[id], s) == if root == x then Walk(m, t, tail) else root;
      assert Walk(m', id, s + 1) == Walk(m', m[id], s);
      assert RootAt(m', id, s + 1);
    }
  }

  /** A walk that does not end at the root x never meets x. */
  lemma {:induction false} AvoidingWalk(m: IdMap, x: nat, t: u32, id: nat, steps: nat)
    requires InRange(m) && x < |m| && t < |m| && id < |m|
    requires IsRoot(m, x) && RootAt(m, id, steps) && Walk(m, id, steps) != x
    ensures RootAt(m[x := t], id, steps) && Walk(m[x := t], id, steps) == Walk(m, id, steps)
    decreases steps
  {
    if !IsRoot(m, id) {
      AvoidingWalk(m, x, t, m[id], steps - 1);
    }
  }

  /** Mapping a root to anything in another tree keeps the forest and merges the two trees. */
  lemma LinkRoot(m: IdMap, x: nat, t: u32)
    requires IsForest(m) && x < |m| && t < |m| && IsRoot(m, x) && Resolve(m, t) != x
    ensures IsForest(m[x := t])
    ensures forall id :: 0 <= id < |m| ==>
              Resolve(m[x := t], id) == if Resolve(m, id) == x then Resolve(m, t) else Resolve(m, id)
  {
    var m' := m[x := t];
    var tail := StepsToRoot(m, t);
    var roots: seq<nat> := seq(|m|, id requires 0 <= id < |m| =>
      if Resolve(m, id) == x then Resolve(m, t) else Resolve(m, id));
    forall id | 0 <= id < |m|
      ensures RootIs(m', id, roots[id])
    {
      var steps := StepsToRoot(m, id);
      LinkedWalk(m, x, t, id, steps, tail);
    }
    RootsResolve(m', roots);
  }

  /** Marking an unmapped root with another unmapped value, or mapping it to itself, moves no id. */
  lemma MarkRoot(m: IdMap, x: nat, v: u32)
    requires IsForest(m) && x < |m| && !Mapped(m, x) && (v == x || v > MAX_NR_TYPES)
    ensures IsForest(m[x := v])
    ensures forall id :: 0 <= id < |m| ==> Resolve(m[x := v], id) == Resolve(m, id)
  {
    var m' := m[x := v];
    var roots: seq<nat> := seq(|m|, id requires 0 <= id < |m| => Resolve(m, id));
    forall id | 0 <= id < |m|
      ensures RootIs(m', id, roots[id])
    {
      var s := StepsToRoot(m, id);
      MarkedWalk(m, x, v, id, s);
      assert RootAt(m', id, s);
    }
    RootsResolve(m', roots);
  }

  lemma {:induction false} MarkedWalk(m: IdMap, x: nat, v: u32, id: nat, steps: nat)
    requires InRange(m) && x < |m| && id < |m| && !Mapped(m, x) && (v == x || v > MAX_NR_TYPES)
    ensures Walk(m[x := v], id, steps) == Walk(m, id, steps)
    decreases steps
  {
    if steps > 0 && !IsRoot(m, id) {
      MarkedWalk(m, x, v, m[id], steps - 1);
    }
  }

  lemma {:induction false} RedirectedWalk(m: IdMap, x: nat, r: u32, id: nat, steps: nat) returns (s: nat)
    requires InRange(m) && x < |m| && r < |m| && id < |m|
    requires x != r && IsRoot(m, r) && RootAt(m, id, steps)
    ensures RootAt(m[x := r], id, s)
    decreases steps
  {
    var m' := m[x := r];
    if id == x {
      assert Walk(m', id, 1) == Walk(m', r, 0);
      s := 1;
    } else if IsRoot(m, id) {
      s := 0;
    } else {
      s := RedirectedWalk(m, x, r, m[id], steps - 1);
      assert Walk(m', id, s + 1) == Walk(m', m[id], s);
      s := s + 1;
    }
  }

  /** Re-parenting any id, root or not, straight to a different root keeps the forest. */
  lemma RedirectToRoot(m: IdMap, x: nat, r: u32)
    requires IsForest(m) && x < |m| && r < |m| && x != r && IsRoot(m, r)
    ensures IsForest(m[x := r])
  {
    var m' := m[x := r];
    forall id | 0 <= id < |m|
      ensures HasRoot(m', id)
    {
      var steps := StepsToRoot(m, id);
      var s := RedirectedWalk(m, x, r, id, steps);
    }
  }
}
