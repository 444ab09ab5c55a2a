/** What the passes of BTF dedup keep about the canonical map and the candidate table. */
module DedupInv {
  import opened BtfTypes
  import opened BtfGraph
  import opened BtfEqual
  import opened Forest
  import opened HashMaps
  import opened Words

  type Cand = Entry<u64, u32>

  /** `btf_fwd_kind`. */
  function FwdKind(r: Rec): nat { if Kflag(r) then KIND_UNION else KIND_STRUCT }

  function Flavour(r: Rec): nat { if IsFwd(r) then FwdKind(r) else Kind(r) }

  /** A type is mapped to its own kind, or a forward declaration to what it declares. */
  predicate EdgeKind(a: Rec, b: Rec) {
    Flavour(a) == Flavour(b) && (IsFwd(b) ==> IsFwd(a))
  }

  ghost predicate KindsAgree(g: Graph, m: IdMap)
    requires |m| == |g| && InRange(m)
  {
    forall id :: 0 <= id < |m| && Mapped(m, id) ==> EdgeKind(g[id], g[m[id]])
  }

  /** Nothing but a struct or union, or the type being processed, is a mapping's unmapped target. */
  ghost predicate TargetsMapped(g: Graph, m: IdMap, current: nat)
    requires |m| == |g| && InRange(m)
  {
    forall id :: 0 <= id < |m| && Mapped(m, id) ==>
      Mapped(m, m[id]) || IsComposite(g[m[id]]) || m[id] == current
  }

  /** Every mapping is to a type of the same meaning. */
  ghost predicate Sound(g: Graph, m: IdMap)
    requires |m| == |g| && InRange(m)
  {
    forall id :: 0 <= id < |m| && Mapped(m, id) ==> SameMeaning(g, id, g, m[id])
  }

  ghost predicate MapInv(g: Graph, m: IdMap, current: nat) {
    && WfGraph(g) && |m| == |g| && IsForest(m) && m[0] == 0
    && KindsAgree(g, m) && TargetsMapped(g, m, current)
    && (NoForwards(g) ==> Sound(g, m))
  }

  /** The kinds whose canonical types may still be re-parented. */
  predicate MayMove(r: Rec) { IsFwd(r) || IsEnumFwd(r) }

  ghost predicate CandOk(g: Graph, m: IdMap, e: Cand) {
    && 0 < e.value < |g| && e.value < |m| && Mapped(m, e.value)
    && e.key == SignatureHash(g[e.value])
    && !IsVarOrDatasec(g[e.value])
    && (!MayMove(g[e.value]) ==> m[e.value] == e.value)
  }

  /** Candidates are canonical types, each filed once, under its own signature hash. */
  ghost predicate TableOk(g: Graph, m: IdMap, tbl: multiset<Cand>) {
    forall e :: e in tbl ==> tbl[e] == 1 && CandOk(g, m, e)
  }

  /** No two candidates are equal, unless both come from the base. */
  ghost predicate Distinct(g: Graph, tbl: multiset<Cand>, start: nat) {
    forall e, f :: e in tbl && f in tbl && e.value < f.value < |g| && start <= f.value
                   && HasExactEquality(Kind(g[f.value])) ==>
      g[e.value] != g[f.value]
  }

  /** Every canonical type of this instance is a candidate, variables and sections excepted. */
  ghost predicate Complete(g: Graph, m: IdMap, tbl: multiset<Cand>, start: nat)
    requires |m| == |g|
  {
    forall id :: 0 < id < |g| && start <= id && m[id] == id && !IsVarOrDatasec(g[id]) ==>
      Entry(SignatureHash(g[id]), id) in tbl
  }

  /** Types of the base that have been prepared are candidates, variables and sections excepted;
      those stay canonical. */
  ghost predicate BaseFiled(g: Graph, m: IdMap, tbl: multiset<Cand>, start: nat)
    requires |m| == |g|
  {
    forall id :: 0 < id < |g| && Mapped(m, id) ==>
      if IsVarOrDatasec(g[id]) then m[id] == id
      else id < start ==> Entry(SignatureHash(g[id]), id) in tbl
  }

  ghost predicate TableInv(g: Graph, m: IdMap, tbl: multiset<Cand>, start: nat)
    requires |m| == |g|
  {
    TableOk(g, m, tbl) && Distinct(g, tbl, start) && Complete(g, m, tbl, start) && BaseFiled(g, m, tbl, start)
  }

  /** The kinds `btf_dedup_ref_type` deduplicates. */
  predicate IsRefKind(kind: nat) {
    IsPlainRefKind(kind) || kind in {KIND_DECL_TAG, KIND_ARRAY, KIND_FUNC_PROTO}
  }

  /** After the primitive pass: only structs and reference types of this instance are unmapped. */
  ghost predicate StructReady(g: Graph, m: IdMap, start: nat)
    requires |m| == |g|
  {
    forall id :: 0 <= id < |g| && !Mapped(m, id) ==> start <= id && (IsComposite(g[id]) || IsRefKind(Kind(g[id])))
  }

  /** Mapped ids stay mapped. */
  ghost predicate StillMapped(m: IdMap, m': IdMap) {
    |m'| == |m| && forall id :: 0 <= id < |m| && Mapped(m, id) ==> Mapped(m', id)
  }

  /** What the first two passes do to the map: mapped ids stay mapped, reference types untouched. */
  ghost predicate PassStep(g: Graph, m: IdMap, m': IdMap) {
    |g| == |m| && StillMapped(m, m') && forall id :: 0 <= id < |g| && IsRefKind(Kind(g[id])) ==> m'[id] == m[id]
  }

  lemma PassStepRefl(g: Graph, m: IdMap)
    requires |g| == |m|
    ensures PassStep(g, m, m)
  {
  }

  lemma PassStepTrans(g: Graph, a: IdMap, b: IdMap, c: IdMap)
    requires PassStep(g, a, b) && PassStep(g, b, c)
    ensures PassStep(g, a, c)
  {
    forall id | 0 <= id < |a| && Mapped(a, id)
      ensures Mapped(c, id)
    {
      assert Mapped(b, id);
    }
  }

  lemma MappedStays(g: Graph, m: IdMap, m': IdMap)
    requires PassStep(g, m, m')
    ensures forall id :: 0 <= id < |m| && Mapped(m, id) ==> Mapped(m', id)
  {
  }

  lemma ReadyBaseMapped(g: Graph, m: IdMap, start: nat)
    requires |g| == |m| && StructReady(g, m, start)
    ensures forall id :: 0 <= id < start && id < |m| ==> Mapped(m, id)
  {
  }

  lemma KindsInRange(g: Graph, id: nat)
    requires WfGraph(g) && 0 < id < |g|
    ensures 1 <= Kind(g[id]) <= KIND_ENUM64
  {
    WfAt(g, id);
  }

  lemma PrimsAreNotSpecial(g: Graph)
    ensures forall id :: 0 <= id < |g| && (IsPrimKind(Kind(g[id])) || IsComposite(g[id])) ==> !IsVarOrDatasec(g[id])
    ensures forall id :: 0 <= id < |g| && IsComposite(g[id]) ==> !IsPrimKind(Kind(g[id]))
  {
  }

  lemma StaysReady(g: Graph, m: IdMap, m': IdMap, start: nat)
    requires |g| == |m| && StructReady(g, m, start) && PassStep(g, m, m')
    ensures StructReady(g, m', start)
  {
  }

  lemma {:induction false} WalkMeansTheSame(g: Graph, m: IdMap, id: nat, steps: nat)
    requires |m| == |g| && InRange(m) && Sound(g, m) && id < |m|
    ensures SameMeaning(g, id, g, Walk(m, id, steps))
    decreases steps
  {
    if steps > 0 && !IsRoot(m, id) {
      WalkMeansTheSame(g, m, m[id], steps - 1);
    }
  }

  /** An id means what the root it resolves to means. */
  lemma RootMeansTheSame(g: Graph, m: IdMap, id: nat)
    requires |m| == |g| && IsForest(m) && Sound(g, m) && id < |m|
    ensures SameMeaning(g, id, g, Resolve(m, id))
  {
    var s := StepsToRoot(m, id);
    WalkMeansTheSame(g, m, id, s);
  }

  lemma {:induction false} WalkKeepsKind(g: Graph, m: IdMap, id: nat, steps: nat)
    requires |m| == |g| && InRange(m) && KindsAgree(g, m) && id < |m|
    ensures Walk(m, id, steps) < |m| && EdgeKind(g[id], g[Walk(m, id, steps)])
    decreases steps
  {
    if steps > 0 && !IsRoot(m, id) {
      WalkKeepsKind(g, m, m[id], steps - 1);
    }
  }

  lemma RootKeepsKind(g: Graph, m: IdMap, id: nat)
    requires |m| == |g| && IsForest(m) && KindsAgree(g, m) && id < |m|
    ensures Resolve(m, id) < |m| && EdgeKind(g[id], g[Resolve(m, id)])
  {
    var s := StepsToRoot(m, id);
    WalkKeepsKind(g, m, id, s);
  }

  lemma {:induction false} WalkFromMapped(g: Graph, m: IdMap, current: nat, id: nat, steps: nat)
    requires |m| == |g| && InRange(m) && KindsAgree(g, m) && TargetsMapped(g, m, current) && id < |m|
    requires Mapped(m, id) || IsComposite(g[id]) || id == current
    ensures var r := Walk(m, id, steps);
            r < |m| && (Mapped(m, r) || IsComposite(g[r]) || r == current)
    decreases steps
  {
    if steps > 0 && !IsRoot(m, id) {
      WalkFromMapped(g, m, current, m[id], steps - 1);
    }
  }

  /** A mapped id resolves to a self-mapped root or to an unprocessed struct or union. */
  lemma MappedResolves(g: Graph, m: IdMap, current: nat, id: nat)
    requires MapInv(g, m, current) && id < |m| && Mapped(m, id)
    ensures var r := Resolve(m, id);
            && r < |m| && IsRoot(m, r) && EdgeKind(g[id], g[r])
            && (m[r] == r || (!Mapped(m, r) && (IsComposite(g[r]) || r == current)))
  {
    var s := StepsToRoot(m, id);
    WalkFromMapped(g, m, current, id, s);
    RootKeepsKind(g, m, id);
    ResolveStep(m, id);
  }

  /** A map that only has roots. */
  lemma RootsKeepMapInv(g: Graph, m: IdMap)
    requires WfGraph(g) && |m| == |g| && m[0] == 0 && InRange(m)
    requires forall id :: 0 <= id < |m| ==> IsRoot(m, id)
    ensures MapInv(g, m, 0)
  {
    forall id | 0 <= id < |m|
      ensures HasRoot(m, id)
    {
      assert RootAt(m, id, 0);
    }
    forall id | 0 <= id < |m| && Mapped(m, id)
      ensures m[id] == id
    {
      assert IsRoot(m, id);
    }
  }

  lemma SoundAfterLink(g: Graph, m: IdMap, x: nat, y: u32)
    requires |m| == |g| && InRange(m) && Sound(g, m) && x < |m| && y < |m|
    requires SameMeaning(g, x, g, y)
    ensures Sound(g, m[x := y])
  {
  }

  /** Linking x to y keeps the map: y a root other than x, or x a root outside the tree of y. */
  lemma LinkKeepsMapInv(g: Graph, m: IdMap, current: nat, x: nat, y: u32)
    requires MapInv(g, m, current) && 0 < x < |m| && y < |m| && y <= MAX_NR_TYPES
    requires (IsRoot(m, y) && x != y) || (IsRoot(m, x) && Resolve(m, y) != x)
    requires EdgeKind(g[x], g[y])
    requires Mapped(m, y) || IsComposite(g[y]) || y == current
    requires NoForwards(g) ==> SameMeaning(g, x, g, y)
    ensures MapInv(g, m[x := y], current)
  {
    if IsRoot(m, y) && x != y {
      RedirectToRoot(m, x, y);
    } else {
      LinkRoot(m, x, y);
    }
    if NoForwards(g) {
      SoundAfterLink(g, m, x, y);
    }
  }

  /** Making an unmapped type canonical keeps the map. */
  lemma SelfMapKeepsMapInv(g: Graph, m: IdMap, current: nat, x: u32)
    requires MapInv(g, m, current) && x < |m| && !Mapped(m, x)
    ensures MapInv(g, m[x := x], current)
  {
    MarkRoot(m, x, x);
    if NoForwards(g) {
      SoundAfterLink(g, m, x, x);
    }
  }

  lemma MarkKeepsMapInv(g: Graph, m: IdMap, current: nat, x: nat, v: u32)
    requires MapInv(g, m, current) && x < |m| && !Mapped(m, x) && v > MAX_NR_TYPES
    ensures MapInv(g, m[x := v], current)
  {
    MarkRoot(m, x, v);
  }

  lemma MapInvBasics(g: Graph, m: IdMap, x: nat)
    requires MapInv(g, m, 0)
    ensures IsForest(m) && |m| == |g| && MapInv(g, m, x)
  {
  }

  lemma CurrentIsDone(g: Graph, m: IdMap, current: nat, next: nat)
    requires MapInv(g, m, current) && current < |m| && (Mapped(m, current) || IsComposite(g[current]))
    ensures MapInv(g, m, next)
  {
  }

  ghost predicate NotCand(tbl: multiset<Cand>, x: nat) {
    forall e :: e in tbl ==> e.value != x
  }

  /** Changing a mapping that no candidate depends on keeps the table. */
  lemma LinkKeepsTable(g: Graph, m: IdMap, tbl: multiset<Cand>, start: nat, x: nat, y: u32)
    requires WfGraph(g) && |m| == |g| && TableInv(g, m, tbl, start) && x < |m| && y <= MAX_NR_TYPES && x != y
    requires (MayMove(g[x]) && Mapped(m, x)) || NotCand(tbl, x)
    requires !IsVarOrDatasec(g[x]) && (start <= x || Mapped(m, x))
    ensures TableInv(g, m[x := y], tbl, start)
  {
    var m' := m[x := y];
    forall e | e in tbl
      ensures tbl[e] == 1 && CandOk(g, m', e)
    {
      assert CandOk(g, m, e);
    }
  }

  lemma MarkKeepsTable(g: Graph, m: IdMap, tbl: multiset<Cand>, start: nat, x: nat, v: u32)
    requires WfGraph(g) && |m| == |g| && TableInv(g, m, tbl, start) && x < |m| && !Mapped(m, x)
    requires v > MAX_NR_TYPES
    ensures TableInv(g, m[x := v], tbl, start)
  {
    var m' := m[x := v];
    forall e | e in tbl
      ensures tbl[e] == 1 && CandOk(g, m', e)
    {
      assert CandOk(g, m, e);
    }
  }

  /** No candidate filed under the hash of x is equal to it. */
  ghost predicate UnlikeCands(g: Graph, tbl: multiset<Cand>, x: nat)
    requires x < |g|
  {
    forall e :: e in tbl && e.key == SignatureHash(g[x]) && e.value < |g| ==> g[e.value] != g[x]
  }

  /** A type unlike every candidate filed under its hash becomes canonical and a candidate itself. */
  lemma NewCandidate(g: Graph, m: IdMap, tbl: multiset<Cand>, start: nat, x: u32)
    requires WfGraph(g) && |m| == |g| && TableInv(g, m, tbl, start) && 0 < x < |m| && !Mapped(m, x)
    requires !IsVarOrDatasec(g[x])
    requires if start <= x then HasExactEquality(Kind(g[x])) ==> UnlikeCands(g, tbl, x)
             else forall e :: e in tbl ==> e.value < start
    ensures TableInv(g, m[x := x], tbl + multiset{Entry(SignatureHash(g[x]), x)}, start)
  {
    var m' := m[x := x];
    var n := Entry(SignatureHash(g[x]), x);
    assert n !in tbl;
    var tbl' := tbl + multiset{n};
    forall e | e in tbl'
      ensures tbl'[e] == 1 && CandOk(g, m', e)
    {
      if e != n {
        assert CandOk(g, m, e);
      }
    }
    hide SignatureHash;
    forall e, f | e in tbl' && f in tbl' && e.value < f.value && f.value >= start
                  && f.value < |g| && HasExactEquality(Kind(g[f.value]))
      ensures g[e.value] != g[f.value]
    {
      assert CandOk(g, m', e) && CandOk(g, m', f);
      if e == n {
        assert f in tbl && f.key == SignatureHash(g[f.value]);
      }
    }
  }

  lemma UnmappedIsNotCand(g: Graph, m: IdMap, tbl: multiset<Cand>, start: nat, x: nat)
    requires |m| == |g| && TableInv(g, m, tbl, start) && !Mapped(m, x)
    ensures NotCand(tbl, x)
  {
    forall e | e in tbl
      ensures e.value != x
    {
      assert CandOk(g, m, e);
    }
  }

  ghost function Settled(g: Graph, tbl: multiset<Cand>, x: u32, y: u32): multiset<Cand>
    requires x < |g|
  {
    if x == y then tbl + multiset{Entry(SignatureHash(g[x]), x)} else tbl
  }

  /** A type may be settled on itself when nothing filed is equal to it, or on a mapped type of
      its own meaning and kind. */
  ghost predicate MaySettle(g: Graph, m: IdMap, tbl: multiset<Cand>, start: nat, x: u32, y: u32)
    requires |m| == |g| && IsForest(m)
  {
    && 0 < x < |g| && start <= x && y < |g| && NotCand(tbl, x) && !IsVarOrDatasec(g[x])
    && if x == y then
         !Mapped(m, x) && (HasExactEquality(Kind(g[x])) ==> UnlikeCands(g, tbl, x))
       else
         && Mapped(m, y) && EdgeKind(g[x], g[y])
         && (IsRoot(m, y) || (IsRoot(m, x) && Resolve(m, y) != x))
         && (NoForwards(g) ==> SameMeaning(g, x, g, y))
  }

  /** `d->map[type_id] = new_id`, with the type filed as a candidate when it is its own. */
  lemma SettleKeepsInv(g: Graph, m: IdMap, tbl: multiset<Cand>, start: nat, x: u32, y: u32)
    requires MapInv(g, m, x) && TableInv(g, m, tbl, start) && MaySettle(g, m, tbl, start, x, y)
    ensures MapInv(g, m[x := y], 0) && TableInv(g, m[x := y], Settled(g, tbl, x, y), start)
    ensures StillMapped(m, m[x := y]) && Mapped(m[x := y], x)
    ensures !IsRefKind(Kind(g[x])) ==> PassStep(g, m, m[x := y])
  {
    hide KindsAgree, TargetsMapped, Sound, TableInv, IsForest, NoForwards;
    if x == y {
      SelfMapKeepsMapInv(g, m, x, x);
      NewCandidate(g, m, tbl, start, x);
    } else {
      LinkKeepsMapInv(g, m, x, x, y);
      LinkKeepsTable(g, m, tbl, start, x, y);
    }
    CurrentIsDone(g, m[x := y], x, 0);
  }

  ghost predicate IsCandidate(g: Graph, m: IdMap, tbl: multiset<Cand>, id: nat) {
    id < |g| && Entry(SignatureHash(g[id]), id) in tbl && CandOk(g, m, Entry(SignatureHash(g[id]), id))
  }

  /** The entries visited for one hash: all that are filed under it, each once, in any order. */
  ghost predicate Visits(cands: seq<Cand>, tbl: multiset<Cand>, h: u64) {
    forall e :: multiset(cands)[e] == if e.key == h then tbl[e] else 0
  }

  /** The entries visited for one hash are candidates. */
  lemma CandidateAt(g: Graph, m: IdMap, tbl: multiset<Cand>, start: nat, cands: seq<Cand>, i: nat, h: u64)
    requires |m| == |g| && TableInv(g, m, tbl, start) && i < |cands|
    requires Visits(cands, tbl, h)
    ensures IsCandidate(g, m, tbl, cands[i].value) && Mapped(m, cands[i].value) && 0 < cands[i].value
  {
    assert cands[i] in multiset(cands) && cands[i] in tbl;
  }

  /** What the candidate loop of the struct pass finds for x: x itself, still unmapped, or an
      equivalent canonical struct. */
  ghost predicate FoundStruct(g: Graph, m: IdMap, tbl: multiset<Cand>, x: nat, y: nat) {
    x < |g| && IsComposite(g[x])
    && if x == y then !Mapped(m, x)
       else IsCandidate(g, m, tbl, y) && EdgeKind(g[x], g[y]) && (NoForwards(g) ==> SameMeaning(g, x, g, y))
  }

  lemma MaySettleStruct(g: Graph, m: IdMap, tbl: multiset<Cand>, start: nat, x: u32, y: u32)
    requires MapInv(g, m, x) && TableInv(g, m, tbl, start) && 0 < x < |g| && start <= x
    requires NotCand(tbl, x) && FoundStruct(g, m, tbl, x, y)
    ensures MaySettle(g, m, tbl, start, x, y)
  {
  }

  /** What the candidate loop of the other passes finds for x: x itself when nothing filed
      under its hash is equal, or an equal candidate. */
  ghost predicate FoundEqual(g: Graph, m: IdMap, tbl: multiset<Cand>, x: nat, y: nat) {
    x < |g| && if x == y then UnlikeCands(g, tbl, x) else IsCandidate(g, m, tbl, y) && g[y] == g[x]
  }

  ghost predicate NoneEqual(g: Graph, cands: seq<Cand>, n: nat, x: nat)
    requires n <= |cands| && x < |g|
  {
    forall j :: 0 <= j < n ==> Differ(g, cands[j].value, x)
  }

  ghost predicate Differ(g: Graph, a: nat, b: nat) {
    a < |g| && b < |g| && g[a] != g[b]
  }

  lemma NoneEqualYet(g: Graph, cands: seq<Cand>, x: nat)
    requires x < |g|
    ensures NoneEqual(g, cands, 0, x)
  {
  }

  lemma NextUnequal(g: Graph, cands: seq<Cand>, n: nat, x: nat)
    requires n < |cands| && x < |g| && NoneEqual(g, cands, n, x)
    requires Differ(g, cands[n].value, x)
    ensures NoneEqual(g, cands, n + 1, x)
  {
  }

  lemma NothingFound(g: Graph, tbl: multiset<Cand>, cands: seq<Cand>, x: nat)
    requires x < |g|
    requires Visits(cands, tbl, SignatureHash(g[x]))
    requires NoneEqual(g, cands, |cands|, x)
    ensures UnlikeCands(g, tbl, x)
  {
    forall e | e in tbl && e.key == SignatureHash(g[x]) && e.value < |g|
      ensures g[e.value] != g[x]
    {
      assert e in multiset(cands);
      var j :| 0 <= j < |cands| && cands[j] == e;
    }
  }

  lemma MaySettleEqual(g: Graph, m: IdMap, tbl: multiset<Cand>, start: nat, x: u32, y: u32)
    requires MapInv(g, m, 0) && TableInv(g, m, tbl, start) && 0 < x < |g| && start <= x
    requires !Mapped(m, x) && HasExactEquality(Kind(g[x])) && FoundEqual(g, m, tbl, x, y)
    ensures MaySettle(g, m, tbl, start, x, y)
  {
    UnmappedIsNotCand(g, m, tbl, start, x);
    if x != y {
      MappedResolves(g, m, 0, y);
      EqualRecsMeanTheSame(g, x, y);
    }
  }

  predicate IsPrimKind(kind: nat) {
    kind in {KIND_INT, KIND_ENUM, KIND_ENUM64, KIND_FWD, KIND_FLOAT}
  }

  /** Resolving a canonical member-less enum to a full enum x, which is not yet mapped itself. */
  lemma EnumRedirect(g: Graph, m: IdMap, tbl: multiset<Cand>, start: nat, x: u32, cand: nat)
    requires MapInv(g, m, x) && TableInv(g, m, tbl, start) && 0 < x < |g| && !Mapped(m, x)
    requires IsCandidate(g, m, tbl, cand) && 0 < cand && Mapped(m, cand)
    requires IsAnyEnum(g[x]) && CompatForKind(g[x], g[cand]) && g[x] != g[cand] && !IsEnumFwd(g[x])
    ensures MapInv(g, m[cand := x], x) && TableInv(g, m[cand := x], tbl, start)
    ensures PassStep(g, m, m[cand := x]) && !Mapped(m[cand := x], x)
  {
    hide KindsAgree, TargetsMapped, Sound, IsForest, Distinct, Complete, BaseFiled;
    CompatNotEqual(g[x], g[cand]);
    LinkKeepsMapInv(g, m, x, cand, x);
    LinkKeepsTable(g, m, tbl, start, cand, x);
  }

  /** What the candidate loop finds for an enum. */
  ghost predicate FoundEnum(g: Graph, m: IdMap, tbl: multiset<Cand>, x: nat, y: nat) {
    x < |g| && if x == y then UnlikeCands(g, tbl, x)
               else IsCandidate(g, m, tbl, y) && (g[y] == g[x] || (IsEnumFwd(g[x]) && CompatForKind(g[x], g[y])))
  }

  lemma MaySettleEnum(g: Graph, m: IdMap, tbl: multiset<Cand>, start: nat, x: u32, y: u32)
    requires MapInv(g, m, x) && TableInv(g, m, tbl, start) && 0 < x < |g| && start <= x
    requires !Mapped(m, x) && IsAnyEnum(g[x]) && FoundEnum(g, m, tbl, x, y)
    requires IsEnumFwd(g[x]) ==> MapInv(g, m, 0)
    ensures MaySettle(g, m, tbl, start, x, y)
  {
    UnmappedIsNotCand(g, m, tbl, start, x);
    if x != y {
      if g[x] == g[y] {
        EqualRecsMeanTheSame(g, x, y);
      } else {
        CompatNotEqual(g[x], g[y]);
      }
      if IsEnumFwd(g[x]) {
        MappedResolves(g, m, 0, y);
      }
    }
  }

  /** Only x, and ids already mapped, have changed. */
  ghost predicate OnlyMapped(m: IdMap, m': IdMap, x: nat) {
    |m'| == |m| && forall id :: 0 <= id < |m| && !Mapped(m, id) && id != x ==> m'[id] == m[id]
  }

  ghost predicate OnlyBaseCands(tbl: multiset<Cand>, start: nat) {
    forall e :: e in tbl ==> e.value < start
  }

  /** Preparing one type of the base: canonical, and a candidate. */
  lemma PrepKeepsInv(g: Graph, m: IdMap, tbl: multiset<Cand>, start: nat, x: u32)
    requires MapInv(g, m, 0) && TableInv(g, m, tbl, start) && OnlyBaseCands(tbl, start)
    requires 0 < x < start && x < |g| && !Mapped(m, x) && !IsVarOrDatasec(g[x])
    ensures MapInv(g, m[x := x], 0) && TableInv(g, m[x := x], Settled(g, tbl, x, x), start)
    ensures OnlyBaseCands(Settled(g, tbl, x, x), start)
  {
    SelfMapKeepsMapInv(g, m, 0, x);
    NewCandidate(g, m, tbl, start, x);
  }

  /** The kinds of well-formed types, as the passes divide them. */
  lemma EveryKindHasAPass(r: Rec)
    requires WfRec(r)
    ensures IsPrimKind(Kind(r)) || IsComposite(r) || IsRefKind(Kind(r)) || IsVarOrDatasec(r)
  {
  }

  /** Before the passes over this instance: the base is mapped, of the rest only variables and sections. */
  ghost predicate Prepared(g: Graph, m: IdMap, start: nat) {
    |m| == |g| && forall id :: 0 <= id < |g| ==>
      m[id] == if id < start || IsVarOrDatasec(g[id]) then id else UNPROCESSED
  }

  /** Nothing of that depends on the types of this instance, but for their kinds. */
  lemma StillPrepared(g0: Graph, g: Graph, m: IdMap, tbl: multiset<Cand>, start: nat)
    requires MapInv(g0, m, 0) && TableInv(g0, m, tbl, start) && OnlyBaseCands(tbl, start) && Prepared(g0, m, start)
    requires WfGraph(g) && |g| == |g0| && forall id :: 0 <= id < |g| ==> g[id][1] == g0[id][1]
    requires forall id :: 0 <= id < start && id < |g| ==> g[id] == g0[id]
    ensures MapInv(g, m, 0) && TableInv(g, m, tbl, start) && Prepared(g, m, start)
  {
    hide SignatureHash;
    assert Prepared(g, m, start);
    RootsKeepMapInv(g, m);
  }

  lemma OnlyMappedRefl(m: IdMap, x: nat)
    ensures OnlyMapped(m, m, x)
  {
  }

  lemma OnlySettled(m: IdMap, x: nat, y: u32)
    requires x < |m|
    ensures OnlyMapped(m, m[x := y], x)
  {
  }

  /** A table without candidates. */
  lemma NothingFiled(g: Graph, m: IdMap, start: nat)
    requires 0 < |m| == |g| <= MAX_NR_TYPES && m[0] == 0
    requires forall id :: 0 < id < |m| ==> m[id] == if IsVarOrDatasec(g[id]) then id else UNPROCESSED
    ensures TableInv(g, m, multiset{}, start)
  {
  }

  lemma OnlyMappedTrans(a: IdMap, b: IdMap, c: IdMap, x: nat)
    requires OnlyMapped(a, b, x) && OnlyMapped(b, c, x)
    ensures OnlyMapped(a, c, x)
  {
  }

  lemma PreparedPrims(g: Graph, m: IdMap, start: nat)
    requires Prepared(g, m, start)
    ensures forall id :: start <= id < |g| && !IsVarOrDatasec(g[id]) ==> !Mapped(m, id)
  {
  }

  lemma PrimsAreReady(g: Graph, m: IdMap, m': IdMap, start: nat)
    requires WfGraph(g) && Prepared(g, m, start) && PassStep(g, m, m') && 0 < start
    requires forall id :: start <= id < |g| && IsPrimKind(Kind(g[id])) ==> Mapped(m', id)
    ensures StructReady(g, m', start)
  {
    forall id | 0 <= id < |g| && !Mapped(m', id)
      ensures start <= id && (IsComposite(g[id]) || IsRefKind(Kind(g[id])))
    {
      if 0 < id { EveryKindHasAPass(g[id]); }
    }
  }
}
