/** `struct btf_dedup` and its passes over the type graph (btf.c, lines 3103-4637). */
module Dedup {
  import opened BtfTypes
  import opened BtfGraph
  import opened BtfEqual
  import opened BtfTable
  import opened Forest
  import opened HashMaps
  import opened Words
  import opened DedupInv
  import opened DedupPaths
  import opened DedupEquiv
  import opened DedupApart
  import opened DedupLoops
  import opened DedupRef
  import opened DedupFinal

  /** The unset entries of the hypothetical map. */
  ghost function Unset(h: IdMap): set<nat> {
    set x: nat | x < |h| && !Mapped(h, x)
  }

  class BtfDedup {
    const btf: Btf
    /** `map` */
    const canon: array<u32>
    const hypotMap: array<u32>
    var hypotList: seq<u32>
    var hypotAdjustCanon: bool
    /** `dedup_table` */
    const table: HashMap<u64, u32, ()>

    /** `btf_dedup_new`: void, variables and data sections are canonical from the start. */
    constructor (btf: Btf, forceCollisions: bool)
      requires btf.Valid() && WfGraph(btf.Types())
      ensures Linked() && Inv(0) && HypInv() && hypotList == [] && this.btf == btf
      ensures table.Contents() == multiset{} && fresh(table) && fresh(canon) && fresh(hypotMap)
      ensures forall id :: 0 < id < canon.Length ==>
                canon[id] == if IsVarOrDatasec(btf.Types()[id]) then id else UNPROCESSED
    {
      hide MapInv, TableInv, HypOk, WfGraph, HashMap.Valid, HashMap.Contents, HashMap.KeyChain;
      GraphBound(btf.Types());
      this.btf := btf;
      canon, hypotMap := new u32[btf.TypeCnt()], new u32[btf.TypeCnt()];
      hypotList, hypotAdjustCanon := [], false;
      table := new HashMap((k: u64, _: ()) => if forceCollisions then 0 else k, (a: u64, b: u64, _: ()) => a == b);
      new;
      InitCanon();
      InitHypotMap();
      RootsKeepMapInv(btf.Types(), canon[..]);
      NothingFiled(btf.Types(), canon[..], btf.StartId());
      NothingPaired(hypotMap[..]);
    }

    method InitCanon()
      requires btf.Valid() && WfGraph(btf.Types()) && canon.Length == btf.TypeCnt()
      modifies canon
      ensures canon[0] == 0 && forall id :: 0 < id < canon.Length ==>
                canon[id] == if IsVarOrDatasec(btf.Types()[id]) then id else UNPROCESSED
    {
      canon[0] := 0;
      var i := 1;
      while i < canon.Length
        invariant 1 <= i <= canon.Length && canon[0] == 0
        invariant forall id :: 0 < id < i ==>
                    canon[id] == if IsVarOrDatasec(btf.Types()[id]) then id else UNPROCESSED
      {
        canon[i] := if IsVarOrDatasec(btf.TypeById(i)) then i else UNPROCESSED;
        i := i + 1;
      }
    }

    method InitHypotMap()
      modifies hypotMap
      ensures forall id :: 0 <= id < hypotMap.Length ==> hypotMap[id] == UNPROCESSED
    {
      var i := 0;
      while i < hypotMap.Length
        invariant 0 <= i <= hypotMap.Length
        invariant forall id :: 0 <= id < i ==> hypotMap[id] == UNPROCESSED
      {
        hypotMap[i] := UNPROCESSED;
        i := i + 1;
      }
    }

    ghost predicate Sized()
      reads this, btf, canon, hypotMap
    {
      && canon != hypotMap && btf.Valid() && WfGraph(btf.Types())
      && canon.Length == hypotMap.Length == btf.TypeCnt()
    }

    ghost predicate Linked()
      reads this, btf, canon, hypotMap, table
    {
      && Sized()
      && table.Valid(()) && table.Lawful(()) && (forall a, b :: table.equalFn(a, b, ()) <==> a == b)
    }

    ghost predicate Inv(current: nat)
      reads this, btf, canon, hypotMap, table
    {
      && Linked() && MapInv(btf.Types(), canon[..], current)
      && TableInv(btf.Types(), canon[..], table.Contents(), btf.StartId())
    }

    /** The state the struct pass works in: the primitive types and the base are mapped. */
    ghost predicate StructInv()
      reads this, btf, canon, hypotMap, table
    {
      Inv(0) && StructReady(btf.Types(), canon[..], btf.StartId())
    }

    ghost predicate HypInv()
      reads this, btf, canon, hypotMap
    {
      HypOk(hypotMap[..], hypotList, btf.TypeCnt())
    }

    /** `resolve_type_id`. */
    method ResolveTypeId(id: nat) returns (root: u32)
      requires IsForest(canon[..]) && id < canon.Length
      ensures root == Resolve(canon[..], id) && root < canon.Length
    {
      ghost var steps := StepsToRoot(canon[..], id);
      WalkInRange(canon[..], id, steps);
      root := id;
      while canon[root] <= MAX_NR_TYPES && canon[root] != root
        invariant root < canon.Length && RootAt(canon[..], root, steps)
        invariant Walk(canon[..], root, steps) == Resolve(canon[..], id)
        decreases steps
      {
        steps := steps - 1;
        root := canon[root];
      }
    }

    /** `resolve_fwd_id`. */
    method ResolveFwdId(id: u32) returns (target: u32)
      requires Sized() && IsForest(canon[..]) && id < canon.Length
      ensures target == FwdTarget(btf.Types(), canon[..], id) && target < canon.Length
    {
      ResolveStep(canon[..], id);
      if !IsFwd(btf.TypeById(id)) { return id; }
      var root := ResolveTypeId(id);
      return if IsFwd(btf.TypeById(root)) then id else root;
    }

    method IdenticalArrays(id1: nat, id2: nat) returns (same: bool)
      requires Sized() && id1 < canon.Length && id2 < canon.Length
      ensures same <==> Kind(btf.Types()[id1]) == KIND_ARRAY && btf.Types()[id1] == btf.Types()[id2]
    {
      var t1, t2 := btf.TypeById(id1), btf.TypeById(id2);
      if Kind(t1) != KIND_ARRAY || Kind(t2) != KIND_ARRAY { return false; }
      ExactEqualityIsIdentity(t1, t2);
      same := EqualArray(t1, t2);
    }

    method IdenticalStructs(id1: nat, id2: nat) returns (same: bool)
      requires Sized() && id1 < canon.Length && id2 < canon.Length
      ensures same <==> IsComposite(btf.Types()[id1]) && btf.Types()[id1] == btf.Types()[id2]
    {
      var t1, t2 := btf.TypeById(id1), btf.TypeById(id2);
      if !IsComposite(t1) || Kind(t1) != Kind(t2) { return false; }
      ShapeTestIsSameShape(t1, t2);
      var eq := BtfShallowEqualStruct(t1, t2);
      if !eq { return false; }
      var i := 0;
      while i < Vlen(t1)
        invariant 0 <= i <= Vlen(t1)
        invariant forall j :: 0 <= j < i ==> Ref(t1, j) == Ref(t2, j)
      {
        if Ref(t1, i) != Ref(t2, i) { return false; }
        i := i + 1;
      }
      ShapeAndRefsDetermineRec(t1, t2);
      same := true;
    }

    /** `btf_dedup_hypot_map_add`. */
    method HypotMapAdd(fromId: u32, toId: u32)
      requires canon != hypotMap && HypInv() && fromId < hypotMap.Length && toId < hypotMap.Length
      requires hypotMap.Length == btf.TypeCnt() && !Mapped(hypotMap[..], fromId)
      modifies hypotMap, this`hypotList
      ensures HypInv() && hypotMap[..] == old(hypotMap[..])[fromId := toId]
      ensures hypotList == old(hypotList) + [fromId]
    {
      ghost var h := hypotMap[..];
      hypotList := hypotList + [fromId];
      hypotMap[fromId] := toId;
      assert hypotMap[..] == h[fromId := toId];
      forall x | 0 <= x < hypotMap.Length && Mapped(hypotMap[..], x)
        ensures x in hypotList
      {
        assert x != fromId ==> Mapped(h, x);
      }
    }

    /** `btf_dedup_clear_hypot_map`: following the trail unsets every entry. */
    method ClearHypotMap()
      requires canon != hypotMap && HypInv() && hypotMap.Length == btf.TypeCnt()
      modifies hypotMap, this`hypotList, this`hypotAdjustCanon
      ensures HypInv() && hypotList == [] && !hypotAdjustCanon
      ensures forall x :: 0 <= x < hypotMap.Length ==> hypotMap[x] == UNPROCESSED
    {
      ghost var h := hypotMap[..];
      var i := 0;
      while i < |hypotList|
        invariant 0 <= i <= |hypotList| && hypotList == old(hypotList)
        invariant forall x :: 0 <= x < hypotMap.Length ==>
                    hypotMap[x] == if x in hypotList[..i] then UNPROCESSED else h[x]
      {
        hypotMap[hypotList[i]] := UNPROCESSED;
        i := i + 1;
      }
      assert hypotList[..i] == hypotList;
      forall x | 0 <= x < hypotMap.Length
        ensures hypotMap[x] == UNPROCESSED
      {
        assert Mapped(h, x) ==> x in hypotList;
      }
      hypotList, hypotAdjustCanon := [], false;
    }

    /** `btf_dedup_is_equiv`: 1 if equivalent, 0 if not, negative on error.
        A positive answer means the pair is related through the hypothetical map, and that
        every pair added to it on the way has been compared. */
    method IsEquiv(candId: u32, canonId: u32, ghost g: Graph, ghost m: IdMap) returns (eq: int)
      requires Sized() && HypInv() && g == btf.Types() && m == canon[..] && IsForest(m) && m[0] == 0
      requires candId < canon.Length && canonId < canon.Length
      modifies hypotMap, this`hypotList, this`hypotAdjustCanon
      ensures HypInv() && Extends(old(hypotMap[..]), hypotMap[..]) && eq in {EINVAL, 0, 1}
      ensures NewReached(g, old(hypotMap[..]), hypotMap[..], candId, canonId)
      ensures eq == EINVAL ==> MeetUncompared(g, candId, canonId)
      ensures NoForwards(g) ==> hypotAdjustCanon == old(hypotAdjustCanon)
      ensures eq == 1 ==> Related(g, m, hypotMap[..], candId, canonId)
      ensures eq == 1 ==> NewChecked(g, m, old(hypotMap[..]), hypotMap[..], |g|)
      ensures eq == 0 ==> Refutes(g, m, hypotMap[..], candId, canonId)
      decreases Unset(hypotMap[..]), 0
    {
      hide HypOk, WfGraph, IsForest, NewChecked, Related, Extends, Refutes, RefRefuted, NewReached, MeetUncompared,
        Checked, FwdTarget, Identical, NoForwards, Mismatch, Unset, HashMap.Valid, HashMap.Contents, HashMap.Lawful;
      ghost var h0 := hypotMap[..];
      NothingNew(g, m, h0, candId, canonId);
      var r1 := ResolveTypeId(candId);
      var r2 := ResolveTypeId(canonId);
      if r1 == r2 {
        RelatedRoots(g, m, h0, candId, canonId);
        return 1;
      }
      var target := ResolveFwdId(canonId);
      FwdTargetNotVoid(g, m, candId, canonId);
      HypEntry(h0, hypotList, |g|, target);
      var hypotTypeId := hypotMap[target];
      if hypotTypeId <= MAX_NR_TYPES {
        eq := CompareTaken(candId, canonId, target, hypotTypeId, g, m, h0);
        return;
      }
      HypotMapAdd(target, candId);
      ghost var h1 := hypotMap[..];
      FewerUnset(h0, h1, target);
      eq := ComparePair(candId, target, g, m);
      ReachedPair(g, h0, h1, hypotMap[..], candId, canonId, target);
      PairExtends(h0, h1, hypotMap[..], target, candId);
      if eq == 1 {
        ConcludePair(g, m, h0, h1, hypotMap[..], target, candId);
        RelatedPair(g, m, h1, hypotMap[..], candId, canonId);
      } else if eq == 0 {
        RefutePair(g, m, hypotMap[..], candId, canonId);
      } else {
        MeetThrough(g, candId, target, canonId);
      }
    }

    /** The target is in the hypothetical map already. */
    method CompareTaken(candId: u32, canonId: u32, target: u32, hypotTypeId: u32, ghost g: Graph, ghost m: IdMap,
                        ghost h: IdMap)
      returns (eq: int)
      requires Sized() && g == btf.Types() && m == canon[..] && IsForest(m) && |h| == |g|
      requires candId < canon.Length && canonId < canon.Length && hypotTypeId < canon.Length
      requires target == FwdTarget(g, m, canonId) && target < |h| && Mapped(h, target) && h[target] == hypotTypeId
      ensures eq == 0 || eq == 1
      ensures eq == 1 ==> Related(g, m, h, candId, canonId)
      ensures eq == 0 ==> Refutes(g, m, h, candId, canonId)
    {
      hide WfGraph, IsForest, Refutes, FwdTarget, HashMap.Valid, HashMap.Contents, HashMap.Lawful;
      if hypotTypeId == candId { return 1; }
      var same := IdenticalArrays(hypotTypeId, candId);
      if same { return 1; }
      same := IdenticalStructs(hypotTypeId, candId);
      if same { return 1; }
      RefuteTaken(g, m, h, candId, canonId);
      return 0;
    }

    /** The part of `btf_dedup_is_equiv` after the pair has entered the hypothetical map. */
    method ComparePair(candId: u32, canonId: u32, ghost g: Graph, ghost m: IdMap) returns (eq: int)
      requires Sized() && HypInv() && g == btf.Types() && m == canon[..] && IsForest(m) && m[0] == 0
      requires candId < canon.Length && canonId < canon.Length && hypotMap[canonId] == candId
      requires (candId != 0 || canonId != 0) && (NoForwards(g) ==> candId != canonId)
      modifies hypotMap, this`hypotList, this`hypotAdjustCanon
      ensures HypInv() && Extends(old(hypotMap[..]), hypotMap[..]) && eq in {EINVAL, 0, 1}
      ensures NewReached(g, old(hypotMap[..]), hypotMap[..], candId, canonId)
      ensures eq == EINVAL ==> MeetUncompared(g, candId, canonId)
      ensures NoForwards(g) ==> hypotAdjustCanon == old(hypotAdjustCanon)
      ensures eq == 1 ==> Checked(g, m, hypotMap[..], canonId)
      ensures eq == 1 ==> NewChecked(g, m, old(hypotMap[..]), hypotMap[..], |g|)
      ensures eq == 0 ==> Mismatch(g[candId], g[canonId]) || RefRefuted(g, m, hypotMap[..], candId, canonId)
      decreases Unset(hypotMap[..]), 5
    {
      hide HypOk, IsForest, NewChecked, Related, Extends, Refutes, RefRefuted, NewReached, MeetUncompared, NoForwards,
        Unset, SameShape, RefsRelated, Checked, ShapeTestForKind, HashMap.Valid, HashMap.Contents, HashMap.Lawful;
      ghost var h0 := hypotMap[..];
      NothingNew(g, m, h0, candId, canonId);
      var candType, canonType := btf.TypeById(candId), btf.TypeById(canonId);
      var candKind, canonKind := Kind(candType), Kind(canonType);
      SameShapePassesTests(candType, canonType);
      if candType[0] != canonType[0] { return 0; }
      if (candKind == KIND_FWD || canonKind == KIND_FWD) && candKind != canonKind {
        var realKind, fwdKind;
        if candKind == KIND_FWD {
          realKind, fwdKind := canonKind, FwdKind(candType);
        } else {
          realKind, fwdKind := candKind, FwdKind(canonType);
          FwdIsForward(g, canonId);
          if fwdKind == realKind && canonId < btf.StartId() { hypotAdjustCanon := true; }
        }
        CheckedLeaf(g, m, hypotMap[..], canonId);
        return if fwdKind == realKind then 1 else 0;
      }
      if candKind != canonKind { return 0; }
      if IsLeafKind(candKind) {
        var b := CompareLeaves(candType, canonType);
        CheckedLeaf(g, m, hypotMap[..], canonId);
        return if b then 1 else 0;
      }
      eq := CompareRefKinds(candId, canonId, g, m);
      if eq == 1 { CheckedByRefs(g, m, h0, hypotMap[..], candId, canonId); }
    }

    /** The cases of records with references. */
    method CompareRefKinds(candId: u32, canonId: u32, ghost g: Graph, ghost m: IdMap) returns (eq: int)
      requires Sized() && HypInv() && g == btf.Types() && m == canon[..] && IsForest(m) && m[0] == 0
      requires 0 < candId < canon.Length && 0 < canonId < canon.Length
      requires Kind(g[candId]) == Kind(g[canonId]) && !IsLeafKind(Kind(g[candId])) && g[candId][0] == g[canonId][0]
      requires NoForwards(g) ==> candId != canonId
      modifies hypotMap, this`hypotList, this`hypotAdjustCanon
      ensures HypInv() && Extends(old(hypotMap[..]), hypotMap[..]) && eq in {EINVAL, 0, 1}
      ensures NewReached(g, old(hypotMap[..]), hypotMap[..], candId, canonId)
      ensures eq == EINVAL ==> MeetUncompared(g, candId, canonId)
      ensures NoForwards(g) ==> hypotAdjustCanon == old(hypotAdjustCanon)
      ensures eq == 1 ==> HasShapeTest(Kind(g[candId])) && ShapeTestForKind(g[candId], g[canonId])
      ensures eq == 1 ==> RefsRelated(g, m, hypotMap[..], candId, canonId, 0, RefCount(g[candId]))
      ensures eq == 1 ==> NewChecked(g, m, old(hypotMap[..]), hypotMap[..], |g|)
      ensures eq == 0 ==> Mismatch(g[candId], g[canonId]) || RefRefuted(g, m, hypotMap[..], candId, canonId)
      decreases Unset(hypotMap[..]), 4
    {
      hide HypOk, IsForest, NewChecked, Related, Extends, Refutes, RefRefuted, NewReached, MeetUncompared, NoForwards,
        Unset, SameShape, RefsRelated, ShallowEqualStruct, HashMap.Valid, HashMap.Contents, HashMap.Lawful;
      NothingNew(g, m, hypotMap[..], candId, canonId);
      var candType, canonType := btf.TypeById(candId), btf.TypeById(canonId);
      var candKind := Kind(candType);
      SameShapePassesTests(candType, canonType);
      if IsPlainRefKind(candKind) {
        if candType[1] != canonType[1] { return 0; }
        ShapeTestIsSameShape(candType, canonType);
        eq := EquivRefs(candId, canonId, 0, 1, g, m);
      } else if candKind == KIND_ARRAY {
        eq := CompareArrays(candId, canonId, g, m);
      } else if candKind == KIND_STRUCT || candKind == KIND_UNION {
        var b := BtfShallowEqualStruct(candType, canonType);
        if !b { return 0; }
        ShapeTestIsSameShape(candType, canonType);
        eq := EquivRefs(candId, canonId, 0, Vlen(candType), g, m);
      } else if candKind == KIND_FUNC_PROTO {
        eq := CompareFnprotos(candId, canonId, g, m);
      } else {
        MeetThemselves(g, candId, canonId);
        return EINVAL;
      }
    }

    /** The cases of records without references. */
    method CompareLeaves(candType: Rec, canonType: Rec) returns (eq: bool)
      requires (WfRec(candType) || candType == VOID) && (WfRec(canonType) || canonType == VOID)
      requires Kind(candType) == Kind(canonType) && IsLeafKind(Kind(candType))
      requires candType[0] == canonType[0]
      ensures if eq then LocalMatch(candType, canonType) else Mismatch(candType, canonType)
    {
      hide SameShape, WfRec;
      SameShapePassesTests(candType, canonType);
      var kind := Kind(candType);
      if kind == KIND_INT { eq := EqualIntTag(candType, canonType); }
      else if kind == KIND_ENUM { eq := BtfCompatEnum(candType, canonType); }
      else if kind == KIND_ENUM64 { eq := BtfCompatEnum64(candType, canonType); }
      else { eq := EqualCommon(candType, canonType); }
    }

    /** The array case: the index type first, then the element type. */
    method CompareArrays(candId: u32, canonId: u32, ghost g: Graph, ghost m: IdMap) returns (eq: int)
      requires Sized() && HypInv() && g == btf.Types() && m == canon[..] && IsForest(m) && m[0] == 0
      requires candId < canon.Length && canonId < canon.Length
      requires Kind(g[candId]) == Kind(g[canonId]) == KIND_ARRAY
      modifies hypotMap, this`hypotList, this`hypotAdjustCanon
      ensures HypInv() && Extends(old(hypotMap[..]), hypotMap[..]) && eq in {EINVAL, 0, 1}
      ensures NewReached(g, old(hypotMap[..]), hypotMap[..], candId, canonId)
      ensures eq == EINVAL ==> MeetUncompared(g, candId, canonId)
      ensures NoForwards(g) ==> hypotAdjustCanon == old(hypotAdjustCanon)
      ensures eq == 1 ==> ShapeTestForKind(g[candId], g[canonId])
      ensures eq == 0 ==> Mismatch(g[candId], g[canonId]) || RefRefuted(g, m, hypotMap[..], candId, canonId)
      ensures eq == 1 ==> RefsRelated(g, m, hypotMap[..], candId, canonId, 0, 2)
      ensures eq == 1 ==> NewChecked(g, m, old(hypotMap[..]), hypotMap[..], |g|)
      decreases Unset(hypotMap[..]), 3
    {
      var candType, canonType := btf.TypeById(candId), btf.TypeById(canonId);
      SameShapePassesTests(candType, canonType);
      NothingNew(g, m, hypotMap[..], candId, canonId);
      if !CompatArray(candType, canonType) { return 0; }
      ShapeTestIsSameShape(candType, canonType);
      ghost var h0 := hypotMap[..];
      eq := EquivRefs(candId, canonId, 1, 1, g, m);
      if eq <= 0 { return; }
      ghost var h1 := hypotMap[..];
      UnsetShrinks(h0, h1);
      eq := EquivRefs(candId, canonId, 0, 1, g, m);
      ExtendsTrans(h0, h1, hypotMap[..]);
      ReachedTrans(g, h0, h1, hypotMap[..], candId, canonId);
      if eq == 1 { JoinRefs(g, m, h0, h1, hypotMap[..], candId, canonId, 1, 1); }
    }

    /** The function prototype case: the return type first, then the parameters. */
    method CompareFnprotos(candId: u32, canonId: u32, ghost g: Graph, ghost m: IdMap) returns (eq: int)
      requires Sized() && HypInv() && g == btf.Types() && m == canon[..] && IsForest(m) && m[0] == 0
      requires candId < canon.Length && canonId < canon.Length
      requires Kind(g[candId]) == Kind(g[canonId]) == KIND_FUNC_PROTO
      modifies hypotMap, this`hypotList, this`hypotAdjustCanon
      ensures HypInv() && Extends(old(hypotMap[..]), hypotMap[..]) && eq in {EINVAL, 0, 1}
      ensures NewReached(g, old(hypotMap[..]), hypotMap[..], candId, canonId)
      ensures eq == EINVAL ==> MeetUncompared(g, candId, canonId)
      ensures NoForwards(g) ==> hypotAdjustCanon == old(hypotAdjustCanon)
      ensures eq == 1 ==> ShapeTestForKind(g[candId], g[canonId])
      ensures eq == 0 ==> Mismatch(g[candId], g[canonId]) || RefRefuted(g, m, hypotMap[..], candId, canonId)
      ensures eq == 1 ==> RefsRelated(g, m, hypotMap[..], candId, canonId, 0, RefCount(g[candId]))
      ensures eq == 1 ==> NewChecked(g, m, old(hypotMap[..]), hypotMap[..], |g|)
      decreases Unset(hypotMap[..]), 3
    {
      var candType, canonType := btf.TypeById(candId), btf.TypeById(canonId);
      SameShapePassesTests(candType, canonType);
      NothingNew(g, m, hypotMap[..], candId, canonId);
      var b := BtfCompatFnproto(candType, canonType);
      if !b { return 0; }
      ShapeTestIsSameShape(candType, canonType);
      ghost var h0 := hypotMap[..];
      eq := EquivRefs(candId, canonId, 0, 1, g, m);
      if eq <= 0 { return; }
      ghost var h1 := hypotMap[..];
      UnsetShrinks(h0, h1);
      eq := EquivRefs(candId, canonId, 1, Vlen(candType), g, m);
      ExtendsTrans(h0, h1, hypotMap[..]);
      ReachedTrans(g, h0, h1, hypotMap[..], candId, canonId);
      if eq == 1 { JoinRefs(g, m, h0, h1, hypotMap[..], candId, canonId, 0, 1); }
    }

    lemma FewerUnset(h: IdMap, h': IdMap, x: nat)
      requires x < |h| && |h'| == |h| && !Mapped(h, x) && Mapped(h', x)
      requires forall y :: 0 <= y < |h| && y != x ==> h'[y] == h[y]
      ensures Unset(h') < Unset(h)
    {
      assert x in Unset(h) && x !in Unset(h');
    }

    lemma UnsetShrinks(h: IdMap, h': IdMap)
      requires Extends(h, h')
      ensures Unset(h') <= Unset(h)
    {
    }

    /** One pair of references. */
    method EquivRef(candId: u32, canonId: u32, k: nat, ghost g: Graph, ghost m: IdMap) returns (eq: int)
      requires Sized() && HypInv() && g == btf.Types() && m == canon[..] && IsForest(m) && m[0] == 0
      requires candId < canon.Length && canonId < canon.Length && k < RefCount(g[candId]) && k < RefCount(g[canonId])
      modifies hypotMap, this`hypotList, this`hypotAdjustCanon
      ensures HypInv() && Extends(old(hypotMap[..]), hypotMap[..]) && eq in {EINVAL, 0, 1}
      ensures NewReached(g, old(hypotMap[..]), hypotMap[..], candId, canonId)
      ensures eq == EINVAL ==> MeetUncompared(g, candId, canonId)
      ensures NoForwards(g) ==> hypotAdjustCanon == old(hypotAdjustCanon)
      ensures eq == 1 ==> Related(g, m, hypotMap[..], Ref(g[candId], k), Ref(g[canonId], k))
      ensures eq == 1 ==> NewChecked(g, m, old(hypotMap[..]), hypotMap[..], |g|)
      ensures eq == 0 ==> RefRefuted(g, m, hypotMap[..], candId, canonId)
      decreases Unset(hypotMap[..]), 1
    {
      hide HypOk, WfGraph, IsForest, NewChecked, Related, Extends, Refutes, RefRefuted, NewReached, MeetUncompared,
        NoForwards, Ref, RefCount, HashMap.Valid, HashMap.Contents, HashMap.Lawful;
      RefInGraph(g, candId, k);
      RefInGraph(g, canonId, k);
      ghost var h := hypotMap[..];
      eq := IsEquiv(Ref(btf.TypeById(candId), k), Ref(btf.TypeById(canonId), k), g, m);
      ReachedFromRef(g, h, hypotMap[..], candId, canonId, k);
      if eq == EINVAL { MeetFirst(g, candId, canonId, k); }
      if eq == 0 { RefuteRef(g, m, hypotMap[..], candId, canonId, k, Ref(g[candId], k), Ref(g[canonId], k)); }
    }

    /** The member and parameter loops: `count` references from the first on. */
    method EquivRefs(candId: u32, canonId: u32, first: nat, count: nat, ghost g: Graph, ghost m: IdMap)
      returns (eq: int)
      requires Sized() && HypInv() && g == btf.Types() && m == canon[..] && IsForest(m) && m[0] == 0
      requires candId < canon.Length && canonId < canon.Length
      requires SameShape(g[candId], g[canonId])
      requires first + count <= RefCount(g[candId])
      modifies hypotMap, this`hypotList, this`hypotAdjustCanon
      ensures HypInv() && Extends(old(hypotMap[..]), hypotMap[..]) && eq in {EINVAL, 0, 1}
      ensures NewReached(g, old(hypotMap[..]), hypotMap[..], candId, canonId)
      ensures eq == EINVAL ==> MeetUncompared(g, candId, canonId)
      ensures NoForwards(g) ==> hypotAdjustCanon == old(hypotAdjustCanon)
      ensures eq == 1 ==> RefsRelated(g, m, hypotMap[..], candId, canonId, first, first + count)
      ensures eq == 1 ==> NewChecked(g, m, old(hypotMap[..]), hypotMap[..], |g|)
      ensures eq == 0 ==> RefRefuted(g, m, hypotMap[..], candId, canonId)
      decreases Unset(hypotMap[..]), 2
    {
      hide HypOk, WfGraph, IsForest, NewChecked, RefsRelated, Related, Extends, Refutes, RefRefuted, NewReached,
        MeetUncompared, NoForwards, HashMap.Valid, HashMap.Contents, HashMap.Lawful;
      var i := 0;
      ghost var h0 := hypotMap[..];
      assert RefCount(g[canonId]) == RefCount(g[candId]) by { SameShapeCounts(g[candId], g[canonId]); }
      hide SameShape, Ref, RefCount;
      NothingYet(g, m, h0, candId, canonId, first);
      NothingReached(g, h0, candId, canonId);
      while i < count
        invariant 0 <= i <= count && Sized() && HypInv() && btf.Types() == g && canon[..] == m
        invariant Extends(h0, hypotMap[..]) && NewChecked(g, m, h0, hypotMap[..], |g|)
        invariant RefsRelated(g, m, hypotMap[..], candId, canonId, first, first + i)
        invariant NewReached(g, h0, hypotMap[..], candId, canonId)
        invariant NoForwards(g) ==> hypotAdjustCanon == old(hypotAdjustCanon)
      {
        ghost var h1 := hypotMap[..];
        UnsetShrinks(h0, h1);
        eq := EquivRef(candId, canonId, first + i, g, m);
        ExtendsTrans(h0, h1, hypotMap[..]);
        ReachedTrans(g, h0, h1, hypotMap[..], candId, canonId);
        if eq <= 0 { return; }
        NextRef(g, m, h0, h1, hypotMap[..], candId, canonId, first, first + i,
                Ref(g[candId], first + i), Ref(g[canonId], first + i));
        i := i + 1;
      }
      eq := 1;
    }

    /** The body of the loop of `btf_dedup_merge_hypot_map`. */
    method MergePair(canonTypeId: u32, targTypeId: u32, ghost g: Graph, ghost m: IdMap)
      requires Sized() && g == btf.Types() && m == canon[..] && IsForest(m)
      requires canonTypeId < canon.Length && targTypeId < canon.Length
      modifies canon
      ensures canon[..] == MergeOne(g, m, targTypeId, canonTypeId, hypotAdjustCanon)
    {
      var tId := ResolveTypeId(targTypeId);
      var cId := ResolveTypeId(canonTypeId);
      var tRec, cRec := btf.TypeById(tId), btf.TypeById(cId);
      if !IsFwd(tRec) && IsFwd(cRec) {
        canon[cId] := tId;
      }
      if hypotAdjustCanon { return; }
      if IsFwd(tRec) && !IsFwd(cRec) {
        canon[tId] := cId;
      }
      if IsComposite(tRec) && !IsFwd(cRec) && canon[cId] <= MAX_NR_TYPES && canon[tId] > MAX_NR_TYPES {
        canon[tId] := cId;
      }
    }

    /** `btf_dedup_merge_hypot_map`: carries a verified hypothetical map over into the canonical one. */
    method MergeHypotMap(ghost g: Graph)
      requires StructInv() && HypInv() && g == btf.Types() && PairsMatch(g, hypotMap[..])
      modifies canon
      ensures StructInv() && HypInv() && PassStep(btf.Types(), old(canon[..]), canon[..])
      ensures hypotAdjustCanon ==> OnlyFwdsMoved(g, old(canon[..]), canon[..])
    {
      hide KindsAgree, TargetsMapped, Sound, TableInv, NoForwards, IsForest, WfGraph, PassStep, MergeOne, StructReady,
        HashMap.Valid, HashMap.Contents, HashMap.Lawful;
      ghost var m0 := canon[..];
      PassStepRefl(g, m0);
      var i := 0;
      while i < |hypotList|
        invariant 0 <= i <= |hypotList| && StructInv() && PassStep(g, m0, canon[..])
        invariant hypotAdjustCanon ==> OnlyFwdsMoved(g, m0, canon[..])
      {
        var canonTypeId := hypotList[i];
        var targTypeId := hypotMap[canonTypeId];
        assert Mapped(hypotMap[..], canonTypeId);
        MergeOneKeepsInv(g, canon[..], table.Contents(), btf.StartId(), hypotMap[..], canonTypeId, hypotAdjustCanon);
        ghost var m := canon[..];
        MergePair(canonTypeId, targTypeId, g, m);
        PassStepTrans(g, m0, m, canon[..]);
        StaysReady(g, m, canon[..], btf.StartId());
        i := i + 1;
      }
    }

    /** `btf_dedup_table_add`. */
    method TableAdd(h: u64, typeId: u32) returns (err: int)
      requires table.Valid(()) && table.Lawful(())
      modifies table
      ensures table.Valid(()) && err == if old(table.Full()) then ENOMEM else 0
      ensures table.Contents() == old(table.Contents()) + if err == 0 then multiset{Entry(h, typeId)} else multiset{}
    {
      var was;
      err, was := table.Insert(h, typeId, Append, ());
    }

    /** The table can always take another type. */
    lemma TableHasRoom(current: nat)
      requires Inv(current)
      ensures !table.Full()
    {
      hide KindsAgree, TargetsMapped, Sound, Distinct, Complete, BaseFiled, SignatureHash, IsForest, HashMap.AtHome,
        HashMap.Contents;
      GraphBound(btf.Types());
      AtMost(table.Contents(), (e: Cand) => e.value, canon.Length);
      if table.Full() { table.FullHoldsMany(); }
    }

    /** `for_each_dedup_cand`. */
    method Candidates(h: u64) returns (cands: seq<Cand>)
      requires Linked()
      ensures Visits(cands, table.Contents(), h)
    {
      cands := table.KeyEntries(h, ());
    }

    /** The end of every per-type pass: record the mapping and file a new canonical type. */
    method Settle(typeId: u32, newId: u32, h: u64, ghost g: Graph, ghost m: IdMap) returns (err: int)
      requires Inv(typeId) && g == btf.Types() && m == canon[..]
      requires MaySettle(g, m, table.Contents(), btf.StartId(), typeId, newId) && h == SignatureHash(g[typeId])
      modifies canon, table
      ensures err == 0 && Linked() && canon[..] == m[typeId := newId] && IsForest(canon[..])
      ensures StillMapped(m, canon[..]) && Mapped(canon[..], typeId)
      ensures !IsRefKind(Kind(g[typeId])) ==> PassStep(g, m, canon[..])
      ensures Inv(0) && table.Contents() == Settled(g, old(table.Contents()), typeId, newId)
    {
      hide KindsAgree, TargetsMapped, Sound, TableInv, IsForest, WfGraph, MaySettle, NoForwards, HashMap.Valid,
        HashMap.Contents, HashMap.Lawful;
      SettleKeepsInv(g, m, table.Contents(), btf.StartId(), typeId, newId);
      TableHasRoom(typeId);
      canon[typeId] := newId;
      assert canon[..] == m[typeId := newId];
      err := 0;
      if typeId == newId { err := TableAdd(h, typeId); }
    }

    /** One candidate of `btf_dedup_struct_type`: whether the type is to be mapped to it. */
    method TryStruct(typeId: u32, candId: u32, ghost g: Graph) returns (eq: int, ghost ground: Ground)
      requires StructInv() && HypInv() && g == btf.Types() && typeId < canon.Length && candId < canon.Length
      requires !Mapped(canon[..], typeId) && IsComposite(g[typeId])
      requires IsCandidate(g, canon[..], table.Contents(), candId)
      modifies canon, hypotMap, this`hypotList, this`hypotAdjustCanon
      ensures HypInv() && PassStep(btf.Types(), old(canon[..]), canon[..]) && StructInv()
      ensures eq in {EINVAL, 0, 1} && (eq != 1 ==> !Mapped(canon[..], typeId))
      ensures eq == 0 ==> Dismissed(g, ground, typeId, candId)
      ensures eq == EINVAL ==> Kind(g[candId]) == Kind(g[typeId]) && MeetUncompared(g, typeId, candId)
      ensures eq == 1 ==> && EdgeKind(g[typeId], g[candId])
                          && (NoForwards(g) ==> SameMeaning(g, typeId, g, candId))
    {
      hide KindsAgree, TargetsMapped, Sound, TableInv, NoForwards, Related, Checked, Refutes, IsForest, WfGraph, HypOk,
        StructReady, PassStep, NewChecked, NewReached, AllChecked, PairsMatch, Dismissed, MeetUncompared, SameShape,
        HashMap.Valid, HashMap.Contents, HashMap.Lawful;
      ghost var m := canon[..];
      PassStepRefl(g, m);
      var t, candType := btf.TypeById(typeId), btf.TypeById(candId);
      var b := BtfShallowEqualStruct(t, candType);
      ground := Ground([], [], false);
      if !b {
        UnequalDismisses(g, ground, typeId, candId);
        return 0, ground;
      }
      ClearHypotMap();
      ghost var h0 := hypotMap[..];
      eq := IsEquiv(typeId, candId, g, m);
      ground := Ground(m, hypotMap[..], hypotAdjustCanon);
      if eq == 0 { RefutedDismisses(g, m, h0, hypotMap[..], typeId, candId, hypotAdjustCanon); }
      if eq <= 0 { return; }
      AllNewIsAll(g, m, h0, hypotMap[..]);
      EquivJustifiesMerge(g, m, hypotMap[..], typeId, candId);
      ShallowEqualsAgree(t, candType);
      MergeHypotMap(g);
      if hypotAdjustCanon {
        AdjustedDismisses(g, ground, typeId, candId);
        CompositeStays(g, m, canon[..], typeId);
        eq := 0;
      }
    }

    /** The candidate loop of `btf_dedup_struct_type`. */
    method FindStruct(typeId: u32, h: u64, ghost g: Graph) returns (err: int, newId: u32, ghost grounds: seq<Ground>)
      requires StructInv() && HypInv() && g == btf.Types() && typeId < canon.Length
      requires !Mapped(canon[..], typeId) && IsComposite(g[typeId])
      modifies canon, hypotMap, this`hypotList, this`hypotAdjustCanon
      ensures StructInv() && HypInv() && PassStep(btf.Types(), old(canon[..]), canon[..]) && err in {0, EINVAL}
      ensures err == 0 ==> FoundStruct(g, canon[..], table.Contents(), typeId, newId)
      ensures err == 0 && newId == typeId ==> AllDismissed(g, table.Contents(), h, typeId, grounds)
      ensures err == EINVAL ==> MeetsUncompared(g, typeId)
    {
      hide KindsAgree, TargetsMapped, Sound, TableInv, NoForwards, HypOk, IsForest, WfGraph, CandOk, Visits,
        HashMap.Valid, HashMap.Contents, HashMap.Lawful, Dismissed, AllDismissed, StructReady, PassStep,
        DismissedUpto, MeetsUncompared, MapInv, HashMap.KeyChain;
      ghost var m0, tbl := canon[..], table.Contents();
      newId := typeId;
      grounds := [];
      var cands := Candidates(h);
      PassStepRefl(g, m0);
      NoneDismissedYet(g, cands, typeId);
      var i := 0;
      while i < |cands| && newId == typeId
        modifies canon, hypotMap, this`hypotList, this`hypotAdjustCanon
        invariant 0 <= i <= |cands| && StructInv() && HypInv() && PassStep(g, m0, canon[..])
        invariant FoundStruct(g, canon[..], tbl, typeId, newId)
        invariant newId == typeId ==> DismissedUpto(g, cands, i, typeId, grounds)
      {
        CandidateAt(g, canon[..], tbl, btf.StartId(), cands, i, h);
        var candId := cands[i].value;
        assert candId != typeId;
        i := i + 1;
        ghost var ground;
        var eq;
        ghost var m := canon[..];
        eq, ground := TryStruct(typeId, candId, g);
        PassStepTrans(g, m0, m, canon[..]);
        if eq < 0 {
          MeetsOther(g, typeId, candId);
          return eq, newId, grounds;
        }
        if eq == 1 {
          CandidateAt(g, canon[..], tbl, btf.StartId(), cands, i - 1, h);
          newId := candId;
        } else {
          DismissedNext(g, cands, i - 1, typeId, grounds, ground);
          grounds := grounds + [ground];
        }
      }
      if newId == typeId { EveryCandDismissed(g, tbl, cands, h, typeId, grounds); }
      err := 0;
    }

    /** `btf_dedup_struct_type`. */
    method StructType(typeId: u32) returns (err: int, ghost grounds: seq<Ground>)
      requires StructInv() && HypInv() && btf.StartId() <= typeId < canon.Length
      modifies canon, hypotMap, this`hypotList, this`hypotAdjustCanon, table
      ensures Linked() && IsForest(canon[..]) && HypInv() && PassStep(btf.Types(), old(canon[..]), canon[..])
      ensures err in {0, EINVAL}
      ensures err == EINVAL ==> IsComposite(btf.Types()[typeId]) && MeetsUncompared(btf.Types(), typeId)
      ensures err == 0 ==> StructInv() && (IsComposite(btf.Types()[typeId]) ==> Mapped(canon[..], typeId))
      ensures err == 0 ==> var t, tbl := btf.Types()[typeId], old(table.Contents());
                || table.Contents() == tbl
                || (IsComposite(t) && table.Contents() == tbl + multiset{Entry(SignatureHash(t), typeId)}
                    && AllDismissed(btf.Types(), tbl, SignatureHash(t), typeId, grounds))
    {
      hide KindsAgree, TargetsMapped, Sound, TableInv, NoForwards, HypOk, IsForest, WfGraph, FoundStruct, MaySettle,
        MapInv, PassStep, AllDismissed, MeetsUncompared, HashMap.Valid, HashMap.Contents, HashMap.Lawful;
      grounds := [];
      ghost var g, m0, tbl := btf.Types(), canon[..], table.Contents();
      MapInvBasics(g, m0, typeId);
      PassStepRefl(g, m0);
      if canon[typeId] <= MAX_NR_TYPES { return 0, grounds; }
      var t := btf.TypeById(typeId);
      if !IsComposite(t) { return 0, grounds; }
      UnmappedIsNotCand(g, m0, tbl, btf.StartId(), typeId);
      var h := BtfHashStruct(t);
      var newId;
      err, newId, grounds := FindStruct(typeId, h, g);
      ghost var m := canon[..];
      MapInvBasics(g, m, typeId);
      if err < 0 { return; }
      MaySettleStruct(g, m, tbl, btf.StartId(), typeId, newId);
      err := Settle(typeId, newId, h, g, m);
      PassStepTrans(g, m0, m, canon[..]);
      StaysReady(g, m, canon[..], btf.StartId());
    }

    /** `btf_dedup_struct_types`. */
    method StructTypes() returns (err: int)
      requires StructInv() && HypInv()
      requires forall id :: btf.StartId() <= id < canon.Length && IsComposite(btf.Types()[id]) ==>
                 !Mapped(canon[..], id)
      modifies canon, hypotMap, this`hypotList, this`hypotAdjustCanon, table
      ensures Linked() && IsForest(canon[..]) && HypInv() && PassStep(btf.Types(), old(canon[..]), canon[..])
      ensures err in {0, EINVAL} && (err == EINVAL ==> StructMeetsUncompared(btf.Types(), btf.StartId()))
      ensures err == 0 ==> StructInv()
      ensures err == 0 ==> forall id :: btf.StartId() <= id < canon.Length && IsComposite(btf.Types()[id]) ==>
                Mapped(canon[..], id)
      ensures err == 0 ==> StructsApart(btf.Types(), canon[..], btf.StartId())
    {
      hide KindsAgree, TargetsMapped, Sound, NoForwards, TableInv, HypOk, IsForest, WfGraph, MapInv, PassStep,
        StructsTold, StructCandsBelow, StructsApart, MeetsUncompared, AllDismissed, SignatureHash, HashMap.Valid,
        HashMap.Contents, HashMap.Lawful;
      ghost var g, m0 := btf.Types(), canon[..];
      GraphBound(g);
      NoStructCands(g, m0, table.Contents(), btf.StartId());
      PassStepRefl(g, m0);
      err := 0;
      var i := 0;
      while i < btf.nrTypes
        modifies canon, hypotMap, this`hypotList, this`hypotAdjustCanon, table
        invariant 0 <= i <= btf.nrTypes && StructInv() && HypInv() && PassStep(g, m0, canon[..])
        invariant forall id :: btf.StartId() <= id < btf.StartId() + i && IsComposite(g[id]) ==> Mapped(canon[..], id)
        invariant StructsTold(g, table.Contents(), btf.StartId())
        invariant StructCandsBelow(g, table.Contents(), btf.StartId() + i)
      {
        ghost var m, tbl := canon[..], table.Contents();
        ghost var grounds;
        err, grounds := StructType(btf.StartId() + i);
        PassStepTrans(g, m0, m, canon[..]);
        MappedStays(g, m, canon[..]);
        if err != 0 { return; }
        NextStructTold(g, tbl, table.Contents(), btf.StartId(), btf.StartId() + i, grounds);
        i := i + 1;
      }
      MapInvBasics(g, canon[..], 0);
      ReadyBaseMapped(g, canon[..], btf.StartId());
      TableTellsApart(g, canon[..], table.Contents(), btf.StartId());
    }

    /** The candidate loop of the primitive and reference passes. */
    method FindEqual(typeId: u32, h: u64, ghost g: Graph) returns (newId: u32)
      requires Inv(0) && g == btf.Types() && 0 < typeId < canon.Length
      requires HasExactEquality(Kind(g[typeId])) && h == SignatureHash(g[typeId]) && !Mapped(canon[..], typeId)
      ensures FoundEqual(g, canon[..], table.Contents(), typeId, newId)
    {
      hide KindsAgree, TargetsMapped, Sound, TableInv, NoForwards, IsForest, WfGraph, CandOk, EqualForKind, NoneEqual,
        Visits, HashMap.Valid, HashMap.Contents, HashMap.Lawful;
      ghost var m, tbl := canon[..], table.Contents();
      var cands := Candidates(h);
      NoneEqualYet(g, cands, typeId);
      var i := 0;
      while i < |cands|
        invariant 0 <= i <= |cands|
        invariant NoneEqual(g, cands, i, typeId)
      {
        CandidateAt(g, m, tbl, btf.StartId(), cands, i, h);
        var candId := cands[i].value;
        var t, cand := btf.TypeById(typeId), btf.TypeById(candId);
        var eq := ExactEqual(t, cand);
        WfAt(g, candId);
        WfAt(g, typeId);
        ExactEqualityIsIdentity(t, cand);
        if eq { return candId; }
        NextUnequal(g, cands, i, typeId);
        i := i + 1;
      }
      NothingFound(g, tbl, cands, typeId);
      newId := typeId;
    }

    /** One candidate of `btf_dedup_prim_type` for an enum: whether the type is to be mapped to it.
        A canonical enum without members is pointed at the full enum being processed. */
    method TryEnum(typeId: u32, candId: u32, ghost g: Graph, ghost m: IdMap) returns (found: bool)
      requires Inv(typeId) && g == btf.Types() && m == canon[..] && typeId < canon.Length && 0 < typeId
      requires IsAnyEnum(g[typeId]) && !Mapped(m, typeId)
      requires IsCandidate(g, m, table.Contents(), candId) && Mapped(m, candId) && 0 < candId
      modifies canon
      ensures Inv(typeId) && !Mapped(canon[..], typeId) && PassStep(g, m, canon[..]) && OnlyMapped(m, canon[..], typeId)
      ensures found ==> g[candId] == g[typeId] || (IsEnumFwd(g[typeId]) && CompatForKind(g[typeId], g[candId]))
      ensures found || IsEnumFwd(g[typeId]) ==> canon[..] == m
      ensures !found ==> Differ(g, candId, typeId)
    {
      hide KindsAgree, TargetsMapped, Sound, TableInv, NoForwards, IsForest, WfGraph, CandOk, EqualForKind,
        HashMap.Valid, HashMap.Contents, HashMap.Lawful;
      var t, cand := btf.TypeById(typeId), btf.TypeById(candId);
      WfAt(g, candId);
      WfAt(g, typeId);
      ExactEqualityIsIdentity(t, cand);
      found := ExactEqual(t, cand);
      if found { return; }
      var compat := CompatEnums(t, cand);
      if compat {
        if IsEnumFwd(t) { return true; }
        EnumRedirect(g, m, table.Contents(), btf.StartId(), typeId, candId);
        canon[candId] := typeId;
        assert canon[..] == m[candId := typeId];
      }
    }

    /** The candidate loop of `btf_dedup_prim_type` for enums. */
    method FindEnum(typeId: u32, h: u64, ghost g: Graph) returns (newId: u32)
      requires Inv(0) && g == btf.Types() && 0 < typeId < canon.Length
      requires IsAnyEnum(g[typeId]) && h == SignatureHash(g[typeId]) && !Mapped(canon[..], typeId)
      modifies canon
      ensures Inv(typeId) && !Mapped(canon[..], typeId) && FoundEnum(g, canon[..], table.Contents(), typeId, newId)
      ensures PassStep(btf.Types(), old(canon[..]), canon[..]) && OnlyMapped(old(canon[..]), canon[..], typeId)
      ensures IsEnumFwd(g[typeId]) ==> canon[..] == old(canon[..])
    {
      hide KindsAgree, TargetsMapped, Sound, TableInv, NoForwards, IsForest, WfGraph, CandOk, NoneEqual, Differ,
        PassStep, IsCandidate, SignatureHash, CompatForKind, MapInv, Visits, HashMap.Valid, HashMap.Contents,
        HashMap.Lawful, OnlyMapped;
      ghost var m0, tbl := canon[..], table.Contents();
      PassStepRefl(g, m0);
      OnlyMappedRefl(m0, typeId);
      var cands := Candidates(h);
      NoneEqualYet(g, cands, typeId);
      MapInvBasics(g, m0, typeId);
      var i := 0;
      while i < |cands|
        invariant 0 <= i <= |cands| && Inv(typeId) && !Mapped(canon[..], typeId)
        invariant PassStep(g, m0, canon[..]) && OnlyMapped(m0, canon[..], typeId)
        invariant IsEnumFwd(g[typeId]) ==> canon[..] == m0
        invariant NoneEqual(g, cands, i, typeId)
      {
        ghost var m := canon[..];
        CandidateAt(g, m, tbl, btf.StartId(), cands, i, h);
        var found := TryEnum(typeId, cands[i].value, g, m);
        PassStepTrans(g, m0, m, canon[..]);
        OnlyMappedTrans(m0, m, canon[..], typeId);
        if found { return cands[i].value; }
        NextUnequal(g, cands, i, typeId);
        i := i + 1;
      }
      NothingFound(g, tbl, cands, typeId);
      newId := typeId;
    }

    /** The enum cases of `btf_dedup_prim_type`. */
    method EnumType(typeId: u32) returns (err: int)
      requires Inv(0) && 0 < typeId && btf.StartId() <= typeId < canon.Length
      requires IsAnyEnum(btf.Types()[typeId]) && !Mapped(canon[..], typeId)
      modifies canon, table
      ensures Linked() && IsForest(canon[..]) && err == 0
      ensures PassStep(btf.Types(), old(canon[..]), canon[..]) && OnlyMapped(old(canon[..]), canon[..], typeId)
      ensures Inv(0) && Mapped(canon[..], typeId)
    {
      hide KindsAgree, TargetsMapped, Sound, TableInv, NoForwards, IsForest, WfGraph, FoundEnum, MaySettle, PassStep,
        OnlyMapped, SignatureHash, Settled, MapInv, HashMap.Valid, HashMap.Contents, HashMap.Lawful;
      ghost var g, m0, start := btf.Types(), canon[..], btf.StartId();
      MapInvBasics(g, m0, typeId);
      var t := btf.TypeById(typeId);
      var h := BtfHash(t);
      var newId := FindEnum(typeId, h, g);
      ghost var m := canon[..];
      MaySettleEnum(g, m, table.Contents(), start, typeId, newId);
      err := Settle(typeId, newId, h, g, m);
      OnlySettled(m, typeId, newId);
      PassStepTrans(g, m0, m, canon[..]);
      OnlyMappedTrans(m0, m, canon[..], typeId);
    }

    /** `btf_dedup_prim_type`. */
    method PrimType(typeId: u32) returns (err: int)
      requires Inv(0) && 0 < typeId && btf.StartId() <= typeId < canon.Length
      requires IsPrimKind(Kind(btf.Types()[typeId])) ==> !Mapped(canon[..], typeId)
      modifies canon, table
      ensures Linked() && IsForest(canon[..]) && err == 0
      ensures PassStep(btf.Types(), old(canon[..]), canon[..]) && OnlyMapped(old(canon[..]), canon[..], typeId)
      ensures !IsPrimKind(Kind(btf.Types()[typeId])) ==> canon[..] == old(canon[..])
      ensures Inv(0) && (IsPrimKind(Kind(btf.Types()[typeId])) ==> Mapped(canon[..], typeId))
    {
      hide KindsAgree, TargetsMapped, Sound, TableInv, NoForwards, IsForest, WfGraph, FoundEqual, FoundEnum, MaySettle,
        PassStep, OnlyMapped, SignatureHash, Settled, MapInv, HashMap.Valid, HashMap.Contents, HashMap.Lawful;
      ghost var g, m0, start := btf.Types(), canon[..], btf.StartId();
      MapInvBasics(g, m0, typeId);
      PassStepRefl(g, m0);
      OnlyMappedRefl(m0, typeId);
      var t := btf.TypeById(typeId);
      var kind := Kind(t);
      if kind == KIND_ENUM || kind == KIND_ENUM64 {
        err := EnumType(typeId);
      } else if kind == KIND_INT || kind == KIND_FWD || kind == KIND_FLOAT {
        var h := BtfHash(t);
        var newId := FindEqual(typeId, h, g);
        MaySettleEqual(g, m0, table.Contents(), start, typeId, newId);
        err := Settle(typeId, newId, h, g, m0);
        OnlySettled(m0, typeId, newId);
      } else {
        KindsInRange(g, typeId);
        err := if 1 <= kind <= KIND_ENUM64 then 0 else EINVAL;
      }
    }

    /** `btf_dedup_prim_types`. */
    method PrimTypes() returns (err: int)
      requires Inv(0)
      requires forall id :: btf.StartId() <= id < canon.Length && !IsVarOrDatasec(btf.Types()[id]) ==>
                 !Mapped(canon[..], id)
      modifies canon, table
      ensures Linked() && IsForest(canon[..]) && PassStep(btf.Types(), old(canon[..]), canon[..]) && err == 0
      ensures forall id :: btf.StartId() <= id < canon.Length && IsComposite(btf.Types()[id]) ==> !Mapped(canon[..], id)
      ensures Inv(0)
      ensures forall id :: btf.StartId() <= id < canon.Length && IsPrimKind(Kind(btf.Types()[id])) ==>
                Mapped(canon[..], id)
    {
      hide KindsAgree, TargetsMapped, Sound, NoForwards, TableInv, IsForest, WfGraph, MapInv, PassStep, IsPrimKind,
        HashMap.Valid, HashMap.Contents, HashMap.Lawful;
      ghost var g, m0, start := btf.Types(), canon[..], btf.StartId();
      GraphBound(g);
      PassStepRefl(g, m0);
      PrimsAreNotSpecial(g);
      err := 0;
      var i := 0;
      while i < btf.nrTypes
        invariant 0 <= i <= btf.nrTypes && Inv(0) && PassStep(g, m0, canon[..])
        invariant forall id :: start <= id < start + i && IsPrimKind(Kind(g[id])) ==> Mapped(canon[..], id)
        invariant forall id :: start + i <= id < canon.Length && IsPrimKind(Kind(g[id])) ==> !Mapped(canon[..], id)
        invariant forall id :: start <= id < canon.Length && IsComposite(g[id]) ==> !Mapped(canon[..], id)
      {
        ghost var m := canon[..];
        err := PrimType(btf.StartId() + i);
        PassStepTrans(g, m0, m, canon[..]);
        MappedStays(g, m, canon[..]);
        if err != 0 { return; }
        i := i + 1;
      }
      MapInvBasics(g, canon[..], 0);
    }

    /** The state the reference pass works in: all structs are mapped. */
    ghost predicate RefInv()
      reads this, btf, canon, hypotMap, table
    {
      Inv(0) && RefReady(btf.Types(), canon[..], btf.StartId())
    }

    /** `btf_dedup_ref_type`: the canonical id of a type, after canonicalising what it refers to.
        g0 is the graph before the pass, rank any candidate for a rank of its reference types,
        and f the order in which types have been finished. */
    method RefType(typeId: u32, ghost g0: Graph, ghost rank: seq<nat>, ghost f: Finish)
      returns (r: int, ghost f': Finish)
      requires RefInv() && typeId < canon.Length
      requires PassOk(g0, btf.Types(), canon[..], btf.StartId(), f)
      modifies canon, btf, table
      ensures Linked() && btf.TypeCnt() == old(btf.TypeCnt()) && IsForest(canon[..])
      ensures r == ELOOP || 0 <= r < canon.Length <= MAX_NR_TYPES
      ensures (RanksOk(g0, btf.StartId(), rank) && BelowProgress(old(canon[..]), rank, typeId) ==> r != ELOOP)
      ensures r >= 0 ==> RefInv() && PassOk(g0, btf.Types(), canon[..], btf.StartId(), f')
      ensures r >= 0 ==> RefStep(old(btf.Types()), old(canon[..]), btf.Types(), canon[..], canon.Length)
      ensures r >= 0 ==> Mapped(canon[..], typeId) && r == Resolve(canon[..], typeId)
      decreases Unprocessed(canon[..]), 0
    {
      hide KindsAgree, TargetsMapped, Sound, TableInv, NoForwards, IsForest, WfGraph, RanksOk, BelowProgress, PassOk,
        RefStep, AllCanon, FoundEqual, MaySettle, HashMap.Valid, HashMap.Contents, HashMap.Lawful;
      f' := f;
      ghost var g, m, start := btf.Types(), canon[..], btf.StartId();
      if canon[typeId] == IN_PROGRESS {
        InProgressIsNotBelow(m, rank, typeId);
        return ELOOP, f;
      }
      if canon[typeId] <= MAX_NR_TYPES {
        r := ResolveTypeId(typeId);
        PassKeepsStep(g0, g, m, start, f);
        return;
      }
      MarkProgress(g0, g, m, table.Contents(), start, f, rank, typeId);
      canon[typeId] := IN_PROGRESS;
      ghost var m1 := canon[..];
      assert m1 == m[typeId := IN_PROGRESS];
      var t := btf.TypeById(typeId);
      if !IsRefKind(Kind(t)) { return EINVAL, f; }
      var err;
      err, f' := RewriteRefs(typeId, g0, rank, f);
      if err != 0 { return err, f'; }
      RewrittenKind(g, m1, btf.Types(), canon[..], typeId);
      r, f' := FinishRef(typeId, g0, g, m, f');
    }

    /** The end of `btf_dedup_ref_type`: the rewritten type is hashed, looked up and settled.
        g and m are the graph and the map when the visit began. */
    method FinishRef(typeId: u32, ghost g0: Graph, ghost g: Graph, ghost m: IdMap, ghost f: Finish)
      returns (r: int, ghost f': Finish)
      requires RefInv() && 0 < typeId && btf.StartId() <= typeId < canon.Length
      requires PassOk(g0, btf.Types(), canon[..], btf.StartId(), f)
      requires typeId < |m| && typeId < |g| && m[typeId] == UNPROCESSED && !Mapped(canon[..], typeId)
      requires RefStep(g, m[typeId := IN_PROGRESS], btf.Types(), canon[..], typeId)
      requires IsRefKind(Kind(btf.Types()[typeId])) && RefsMapped(g0[typeId], canon[..], RefCount(g0[typeId]))
      requires AllCanon(btf.Types()[typeId], canon[..], RefCount(btf.Types()[typeId]))
      modifies canon, table
      ensures Linked() && btf.TypeCnt() == old(btf.TypeCnt()) && IsForest(canon[..])
      ensures 0 <= r < canon.Length <= MAX_NR_TYPES
      ensures RefInv() && PassOk(g0, btf.Types(), canon[..], btf.StartId(), f')
      ensures RefStep(g, m, btf.Types(), canon[..], canon.Length)
      ensures Mapped(canon[..], typeId) && r == Resolve(canon[..], typeId)
    {
      hide KindsAgree, TargetsMapped, Sound, TableInv, NoForwards, IsForest, WfGraph, PassOk, RefStep, AllCanon,
        FoundEqual, MaySettle, HashMap.Valid, HashMap.Contents, HashMap.Lawful;
      ghost var g2, m2, start := btf.Types(), canon[..], btf.StartId();
      f' := f;
      var t := btf.TypeById(typeId);
      var h := BtfHash(t);
      var newId := FindEqual(typeId, h, g2);
      FoundIsRoot(g2, m2, table.Contents(), typeId, newId);
      MaySettleEqual(g2, m2, table.Contents(), start, typeId, newId);
      CurrentIsDone(g2, m2, 0, typeId);
      var err := Settle(typeId, newId, h, g2, m2);
      if err != 0 { return err, f'; }
      FinishProgress(g0, g, m, m[typeId := IN_PROGRESS], g2, m2, start, f', typeId, newId);
      f' := Finish(f'.order[typeId := f'.clock + 1], f'.clock + 1);
      r := newId;
    }

    /** The part of `btf_dedup_ref_type` that replaces each reference, in visiting order, by the
        canonical id it stands for. */
    method RewriteRefs(typeId: u32, ghost g0: Graph, ghost rank: seq<nat>, ghost f: Finish)
      returns (err: int, ghost f': Finish)
      requires RefInv() && typeId < canon.Length && canon[typeId] == IN_PROGRESS
      requires PassOk(g0, btf.Types(), canon[..], btf.StartId(), f)
      requires btf.Types()[typeId] == g0[typeId]
      modifies canon, btf, table
      ensures Linked() && btf.TypeCnt() == old(btf.TypeCnt()) && IsForest(canon[..])
      ensures err in {0, ELOOP}
      ensures RanksOk(g0, btf.StartId(), rank) && AtBottom(old(canon[..]), rank, typeId) ==> err != ELOOP
      ensures err == 0 ==> RefInv() && PassOk(g0, btf.Types(), canon[..], btf.StartId(), f')
      ensures err == 0 ==> RefStep(old(btf.Types()), old(canon[..]), btf.Types(), canon[..], typeId)
      ensures err == 0 ==> RefsMapped(g0[typeId], canon[..], RefCount(g0[typeId]))
      ensures err == 0 ==> AllCanon(btf.Types()[typeId], canon[..], RefCount(btf.Types()[typeId]))
      decreases Unprocessed(canon[..]), 1
    {
      hide KindsAgree, TargetsMapped, Sound, TableInv, NoForwards, IsForest, WfGraph, RanksOk, BelowProgress, AtBottom,
        PassOk, RefStep, RefsMapped, AllCanon, Rewriting, WithRef, WfRec, HashMap.Valid, HashMap.Contents,
        HashMap.Lawful;
      ghost var g1, m1, start := btf.Types(), canon[..], btf.StartId();
      f' := f;
      err := 0;
      var k := 0;
      RewriteStarts(g0, g1, m1, start, f, typeId);
      while k < RefCount(btf.TypeById(typeId))
        invariant RefInv() && btf.TypeCnt() == |g1| && typeId < canon.Length
        invariant PassOk(g0, btf.Types(), canon[..], start, f')
        invariant Rewriting(g0, g1, m1, btf.Types(), canon[..], typeId, k)
        decreases RefCount(g1[typeId]) - k
      {
        ghost var g, m := btf.Types(), canon[..];
        RewritingRef(g0, g1, m1, g, m, start, rank, f', typeId, k);
        var id := Ref(btf.TypeById(typeId), k);
        var rid;
        rid, f' := RefType(id, g0, rank, f');
        if rid < 0 { return rid, f'; }
        ghost var g2, m2 := btf.Types(), canon[..];
        RewriteNext(g0, g1, m1, g, m, g2, m2, table.Contents(), start, f', typeId, k, rid);
        btf.SetRef(typeId, k, rid);
        assert btf.Types() == g2[typeId := WithRef(g2[typeId], k, rid)] && canon[..] == m2;
        k := k + 1;
      }
      RewriteEnds(g0, g1, m1, btf.Types(), canon[..], typeId, k);
    }

    /** The loop body of `btf_dedup_prep`. */
    method PrepType(id: u32, ghost g: Graph, ghost m: IdMap) returns (err: int)
      requires Inv(0) && g == btf.Types() && m == canon[..] && 0 < id < btf.StartId()
      requires OnlyBaseCands(table.Contents(), btf.StartId())
      requires m[id] == if IsVarOrDatasec(g[id]) then id else UNPROCESSED
      modifies canon, table
      ensures Linked() && IsForest(canon[..]) && canon[..] == m[id := id] && err == 0
      ensures Inv(0) && OnlyBaseCands(table.Contents(), btf.StartId())
    {
      hide KindsAgree, TargetsMapped, Sound, NoForwards, TableInv, IsForest, WfGraph, OnlyBaseCands, HashMap.Valid,
        HashMap.Contents, HashMap.Lawful;
      var t := btf.TypeById(id);
      err := 0;
      if IsVarOrDatasec(t) {
        assert canon[..] == m[id := id];
        return;
      }
      PrepKeepsInv(g, m, table.Contents(), btf.StartId(), id);
      TableHasRoom(0);
      canon[id] := id;
      assert canon[..] == m[id := id];
      var h := BtfHash(t);
      err := TableAdd(h, id);
    }

    /** `btf_dedup_prep`: the types of the base are canonical and candidates from the start. */
    method Prep() returns (err: int)
      requires Inv(0) && table.Contents() == multiset{}
      requires forall id :: 0 < id < canon.Length ==>
                 canon[id] == if IsVarOrDatasec(btf.Types()[id]) then id else UNPROCESSED
      modifies canon, table
      ensures Linked() && IsForest(canon[..]) && err == 0
      ensures Inv(0) && Prepared(btf.Types(), canon[..], btf.StartId())
      ensures OnlyBaseCands(table.Contents(), btf.StartId())
    {
      hide KindsAgree, TargetsMapped, Sound, NoForwards, TableInv, IsForest, OnlyBaseCands, HashMap.Valid,
        HashMap.Contents, HashMap.Lawful;
      ghost var g, m0, start := btf.Types(), canon[..], btf.StartId();
      NoCandsYet(start);
      err := 0;
      var i := 1;
      while i < btf.StartId()
        invariant 1 <= i <= start && Inv(0) && OnlyBaseCands(table.Contents(), start)
        invariant forall j :: 0 <= j < canon.Length ==> canon[..][j] == if j < i then j else m0[j]
      {
        err := PrepType(i, g, canon[..]);
        if err != 0 { return; }
        i := i + 1;
      }
    }

    lemma NoCandsYet(start: nat)
      ensures OnlyBaseCands(multiset{}, start)
    {
    }

    /** `btf_dedup_ref_types`. It fails with -ELOOP only if the reference types have no rank, and
        when it succeeds the order in which it finished them is one. */
    method RefTypes(ghost rank: seq<nat>) returns (err: int, ghost order: seq<nat>)
      requires RefInv() && Quiet(canon[..])
      requires forall id :: btf.StartId() <= id < canon.Length && IsRefKind(Kind(btf.Types()[id])) ==>
                 !Mapped(canon[..], id)
      modifies canon, btf, table
      ensures Linked() && btf.TypeCnt() == old(btf.TypeCnt()) && IsForest(canon[..])
      ensures err in {0, ELOOP} && (err == ELOOP ==> !RanksOk(old(btf.Types()), btf.StartId(), rank))
      ensures err == 0 ==> MappedFixed(old(canon[..]), canon[..])
      ensures err == 0 ==> && RefInv() && AllMapped(canon[..]) && RanksOk(old(btf.Types()), btf.StartId(), order)
                           && MeaningKept(old(btf.Types()), btf.Types())
                           && CanonRefs(btf.Types(), canon[..], btf.StartId())
                           && forall id :: 0 <= id < canon.Length ==> SameShape(btf.Types()[id], old(btf.Types())[id])
    {
      hide KindsAgree, TargetsMapped, Sound, NoForwards, TableInv, IsForest, RanksOk, PassOk, RefStep,
        BelowProgress, RefReady, Quiet, MappedFixed, MapInv, WfGraph, MeaningKept, CanonRefs, SameShape,
        HashMap.Valid, HashMap.Contents, HashMap.Lawful;
      ghost var g0, m0, start := btf.Types(), canon[..], btf.StartId();
      ghost var f := Finish(seq(|g0|, _ => 0), 0);
      order := [];
      err := 0;
      GraphBound(g0);
      MapInvBasics(g0, m0, 0);
      MappedFixedRefl(m0);
      PassStarts(g0, m0, start);
      var i := 0;
      while i < btf.nrTypes
        invariant 0 <= i <= btf.nrTypes && btf.TypeCnt() == |g0| && RefInv() && Quiet(canon[..])
        invariant PassOk(g0, btf.Types(), canon[..], start, f)
        invariant forall id :: start <= id < start + i ==> Mapped(canon[..], id)
        invariant MappedFixed(m0, canon[..])
      {
        ghost var g, m := btf.Types(), canon[..];
        if |rank| == |m| { QuietIsBelow(m, rank, start + i); }
        var r;
        r, f := RefType(btf.StartId() + i, g0, rank, f);
        if r < 0 {
          RankHasLength(g0, start, rank);
          return r, order;
        }
        StepKeepsQuiet(g, m, btf.Types(), canon[..]);
        MappedFixedTrans(m0, m, canon[..]);
        i := i + 1;
      }
      MapInvBasics(btf.Types(), canon[..], 0);
      PassEnds(g0, btf.Types(), canon[..], start, f);
      order := f.order;
    }

    lemma RankHasLength(g: Graph, start: nat, rank: seq<nat>)
      ensures RanksOk(g, start, rank) ==> |rank| == |g|
    {
    }

    /** `btf_dedup_remap_type_id`. */
    method RemapTypeId(typeId: u32) returns (err: int, newId: u32)
      requires IsForest(canon[..]) && hypotMap.Length == canon.Length && typeId < canon.Length
      ensures newId == FinalId(canon[..], hypotMap[..], typeId)
      ensures err == if newId > MAX_NR_TYPES then EINVAL else 0
    {
      var resolved := ResolveTypeId(typeId);
      newId := hypotMap[resolved];
      err := if newId > MAX_NR_TYPES then EINVAL else 0;
    }

    /** `btf_type_visit_type_ids` with `btf_dedup_remap_type_id`, on one type. */
    method RemapType(i: nat, ghost ids: seq<nat>) returns (err: int)
      requires btf.Valid() && IsForest(canon[..]) && hypotMap.Length == canon.Length
      requires ids == FinalIds(canon[..], hypotMap[..]) && MayRemap([], ids)
      requires i < btf.nrTypes && RefsInRange(btf.own[i], |ids|)
      modifies btf
      ensures err == 0 && btf.Valid() && btf.nrTypes == old(btf.nrTypes)
      ensures Remapped(old(btf.own)[i], btf.own[i], ids) && btf.own == old(btf.own)[i := btf.own[i]]
    {
      hide IsForest, Remapping, RefsInRange, Remapped, WithRef, HashMap.Valid, HashMap.Contents, HashMap.Lawful;
      ghost var own := btf.own;
      var id, k := btf.StartId() + i, 0;
      RemappingStarts(own[i], ids);
      while k < RefCount(btf.TypeById(id))
        invariant btf.Valid() && btf.nrTypes == |own| && btf.own == own[i := btf.own[i]]
        invariant Remapping(own[i], btf.own[i], ids, k)
        decreases RefCount(own[i]) - k
      {
        ghost var r := btf.own[i];
        RemappingRef(own[i], r, ids, k);
        var newId;
        err, newId := RemapTypeId(Ref(btf.TypeById(id), k));
        assert newId == ids[Ref(r, k)];
        if err != 0 { return; }
        RemappingNext(own[i], r, ids, k, newId);
        btf.SetRef(id, k, newId);
        assert btf.own == own[i := WithRef(r, k, newId)] by {
          OwnOfTypes(btf.base, btf.own, own[i := r], i, WithRef(r, k, newId));
        }
        k := k + 1;
      }
      RemappingEnds(own[i], btf.own[i], ids, k);
      err := 0;
    }

    /** `btf_dedup_remap_types`. */
    method RemapTypes(ghost ids: seq<nat>) returns (err: int)
      requires btf.Valid() && IsForest(canon[..]) && hypotMap.Length == canon.Length
      requires ids == FinalIds(canon[..], hypotMap[..]) && MayRemap(btf.own, ids)
      modifies btf
      ensures err == 0 && btf.Valid() && AllRemapped(old(btf.own), btf.own, ids)
    {
      hide IsForest, RefsInRange, Remapped, HashMap.Valid, HashMap.Contents, HashMap.Lawful;
      ghost var own := btf.own;
      err := 0;
      var i := 0;
      while i < btf.nrTypes
        invariant 0 <= i <= btf.nrTypes == |own| && btf.Valid()
        invariant forall j :: 0 <= j < i ==> Remapped(own[j], btf.own[j], ids)
        invariant forall j :: i <= j < |own| ==> btf.own[j] == own[j]
      {
        err := RemapType(i, ids);
        if err != 0 { return; }
        i := i + 1;
      }
    }

    /** The passes that only map: primitive types and structs. */
    method MapTypes() returns (err: int)
      requires Inv(0) && HypInv() && Prepared(btf.Types(), canon[..], btf.StartId())
      modifies canon, hypotMap, this`hypotList, this`hypotAdjustCanon, table
      ensures Linked() && IsForest(canon[..]) && err in {0, EINVAL}
      ensures err == EINVAL ==> StructMeetsUncompared(btf.Types(), btf.StartId())
      ensures err == 0 ==> && RefInv() && Quiet(canon[..]) && StructsApart(btf.Types(), canon[..], btf.StartId())
                           && PassedStructs(btf.Types(), canon[..], btf.StartId())
    {
      hide MapInv, TableInv, IsForest, WfGraph, HypOk, PassStep, Quiet, StructsApart, StructMeetsUncompared, Prepared,
        StructReady, RefReady, HashMap.Valid, HashMap.Contents, HashMap.Lawful;
      ghost var g, start := btf.Types(), btf.StartId();
      ghost var m0 := canon[..];
      PreparedPrims(g, m0, start);
      err := PrimTypes();
      if err != 0 { return; }
      ghost var m1 := canon[..];
      PrimsAreReady(g, m0, m1, start);
      err := StructTypes();
      if err != 0 { return; }
      ghost var m2 := canon[..];
      PassStepTrans(g, m0, m1, m2);
      StructsAreReady(g, m0, m2, start);
      MapInvBasics(g, m2, 0);
    }

    /** `btf_dedup_compact_types` and `btf_dedup_remap_types`. */
    method CompactAndRemap() returns (err: int, ghost newIds: IdMap)
      requires Linked() && MapInv(btf.Types(), canon[..], 0) && AllMapped(canon[..])
      modifies btf, hypotMap
      ensures err == 0 && btf.Valid()
      ensures |newIds| == canon.Length && IsForest(canon[..]) && |old(btf.Types())| == canon.Length
      ensures NewIdsUpto(newIds, canon[..], btf.StartId(), canon.Length - btf.StartId(), canon.Length - btf.StartId())
      ensures Compacted(old(btf.Types()), canon[..], newIds, btf.StartId(), btf.Types())
    {
      hide MapInv, IsForest, WfGraph, AllMapped, AllRemapped, MayRemap, NewIdsUpto, Compacted, KeptRecs, KeptIds,
        FinalIds, HashMap.Valid, HashMap.Contents, HashMap.Lawful;
      ghost var g, m, start, own := btf.Types(), canon[..], btf.StartId(), btf.own;
      GraphBound(g);
      MapInvBasics(g, m, 0);
      err := btf.Compact(canon, hypotMap);
      newIds := hypotMap[..];
      KeptMayRemap(g, own, m, newIds, start);
      err := RemapTypes(FinalIds(m, newIds));
      RemappedIsCompacted(g, own, m, newIds, start, btf.Types(), btf.own);
    }

    /** The passes of `btf__dedup` over the types: ids gives the final id of every original type. */
    method DedupTypes() returns (err: int, ghost ids: seq<nat>)
      requires Inv(0) && HypInv() && Prepared(btf.Types(), canon[..], btf.StartId())
      requires BaseClosed(btf.Types(), btf.StartId())
      modifies btf, canon, hypotMap, this`hypotList, this`hypotAdjustCanon, table
      ensures btf.Valid() && err in {0, EINVAL, ELOOP}
      ensures err == 0 ==> DedupOk(old(btf.Types()), btf.Types(), ids, btf.StartId())
      ensures err == 0 ==> !RefLoop(old(btf.Types()), btf.StartId())
      ensures err == ELOOP ==> RefLoop(old(btf.Types()), btf.StartId())
      ensures err == EINVAL ==> StructMeetsUncompared(old(btf.Types()), btf.StartId())
    {
      hide MapInv, TableInv, IsForest, WfGraph, RanksOk, CanonRefs, MeaningKept, HypOk, NewIdsUpto, Compacted,
        FinalIds, RefLoop, Heights, DedupOk, RefReady, Quiet, StructsApart, StructMeetsUncompared, SameShape,
        AllMapped, BaseClosed, PassedStructs, Prepared, HashMap.Valid, HashMap.Contents, HashMap.Lawful;
      ghost var g0, start := btf.Types(), btf.StartId();
      ids := [];
      err := MapTypes();
      if err != 0 { return; }
      ghost var m0 := canon[..];
      PassedStructsIs(g0, m0, start);
      ghost var order;
      err, order := RefTypes(Heights(g0, start));
      if err == ELOOP { MustLoop(g0, start); }
      if err != 0 { return; }
      RankedHasNoLoop(g0, start, order);
      ghost var g, m, tbl := btf.Types(), canon[..], table.Contents();
      StructsStayApart(g0, m0, m, start);
      BaseStillClosed(g0, g, start);
      ghost var newIds;
      err, newIds := CompactAndRemap();
      ids := FinalIds(m, newIds);
      DedupResult(g0, g, m, tbl, newIds, start, btf.Types());
    }
  }

  lemma OwnOfTypes(base: seq<Rec>, a: seq<Rec>, b: seq<Rec>, i: nat, r: Rec)
    requires |a| == |b| && i < |b| && base + a == (base + b)[|base| + i := r]
    ensures a == b[i := r]
  {
    forall j | 0 <= j < |a|
      ensures a[j] == b[i := r][j]
    {
      assert a[j] == (base + a)[|base| + j];
    }
  }
}
