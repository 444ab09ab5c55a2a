/** Which structs BTF dedup leaves apart although they mean the same. */
module DedupApart {
  import opened BtfTypes
  import opened BtfGraph
  import opened BtfEqual
  import opened Forest
  import opened DedupInv
  import opened DedupPaths
  import opened DedupEquiv
  import opened DedupRef
  import opened HashMaps

  /** The later struct means something else, or holds two copies of what the earlier holds once. */
  ghost predicate ToldApart(g: Graph, a: nat, b: nat) {
    NoForwards(g) && SameMeaning(g, b, g, a) ==> TwoCopies(g, a, b)
  }

  /** Structs of this instance are candidates only after all earlier ones were turned down. */
  ghost predicate StructsTold(g: Graph, tbl: multiset<Cand>, start: nat) {
    forall e, f :: e in tbl && f in tbl && e.key == f.key && e.value < f.value < |g| && start <= f.value
                   && IsComposite(g[f.value]) ==>
      ToldApart(g, e.value, f.value)
  }

  ghost predicate StructCandsBelow(g: Graph, tbl: multiset<Cand>, bound: nat) {
    forall e :: e in tbl && e.value < |g| && IsComposite(g[e.value]) ==> e.value < bound
  }

  /** Before the struct pass the structs of this instance are not mapped, so none is a candidate. */
  lemma NoStructCands(g: Graph, m: IdMap, tbl: multiset<Cand>, start: nat)
    requires |m| == |g| && TableInv(g, m, tbl, start)
    requires forall id :: start <= id < |g| && IsComposite(g[id]) ==> !Mapped(m, id)
    ensures StructCandsBelow(g, tbl, start) && StructsTold(g, tbl, start)
  {
    hide SignatureHash, Distinct, Complete, BaseFiled;
    forall e | e in tbl && e.value < |g| && IsComposite(g[e.value])
      ensures e.value < start
    {
      assert CandOk(g, m, e);
    }
  }

  lemma DismissedIsTold(g: Graph, ground: Ground, x: nat, cand: nat)
    requires Dismissed(g, ground, x, cand)
    ensures ToldApart(g, cand, x)
  {
  }

  /** A struct that has become a candidate after the others under its hash were turned down. */
  lemma StructTold(g: Graph, tbl: multiset<Cand>, start: nat, x: u32, grounds: seq<Ground>)
    requires x < |g| && start <= x && IsComposite(g[x])
    requires StructsTold(g, tbl, start) && StructCandsBelow(g, tbl, x)
    requires AllDismissed(g, tbl, SignatureHash(g[x]), x, grounds)
    ensures StructsTold(g, tbl + multiset{Entry(SignatureHash(g[x]), x)}, start)
    ensures StructCandsBelow(g, tbl + multiset{Entry(SignatureHash(g[x]), x)}, x + 1)
  {
    hide SignatureHash, ToldApart, Dismissed;
    var tbl' := tbl + multiset{Entry(SignatureHash(g[x]), x)};
    forall e, f | e in tbl' && f in tbl' && e.key == f.key && e.value < f.value < |g| && start <= f.value
                  && IsComposite(g[f.value])
      ensures ToldApart(g, e.value, f.value)
    {
      assert f in tbl ==> f.value < x;
      if f !in tbl {
        var j :| 0 <= j < |grounds| && Dismissed(g, grounds[j], x, e.value);
        DismissedIsTold(g, grounds[j], x, e.value);
      }
    }
  }

  /** What the struct pass does for one type keeps them told apart. */
  lemma NextStructTold(g: Graph, tbl: multiset<Cand>, tbl': multiset<Cand>, start: nat, x: u32, grounds: seq<Ground>)
    requires x < |g| && start <= x && StructsTold(g, tbl, start) && StructCandsBelow(g, tbl, x)
    requires || tbl' == tbl
             || (IsComposite(g[x]) && tbl' == tbl + multiset{Entry(SignatureHash(g[x]), x)}
                 && AllDismissed(g, tbl, SignatureHash(g[x]), x, grounds))
    ensures StructsTold(g, tbl', start) && StructCandsBelow(g, tbl', x + 1)
  {
    hide SignatureHash, ToldApart, AllDismissed, StructsTold;
    if tbl' != tbl {
      StructTold(g, tbl, start, x, grounds);
    }
  }

  /** Some struct of this instance leads to a type that cannot be compared. */
  ghost predicate StructMeetsUncompared(g: Graph, start: nat) {
    exists id :: start <= id < |g| && IsComposite(g[id]) && MeetsUncompared(g, id)
  }

  /** Canonical structs of the same meaning are told apart. */
  ghost predicate StructsApart(g: Graph, m: IdMap, start: nat) {
    |m| == |g|
    && forall a, b :: 0 < a < b < |g| && start <= b && (a < start || m[a] == a) && m[b] == b && IsComposite(g[b]) ==>
         ToldApart(g, a, b)
  }

  /** Types of the same meaning are filed under the same hash, so the table has told them apart. */
  lemma TableTellsApart(g: Graph, m: IdMap, tbl: multiset<Cand>, start: nat)
    requires WfGraph(g) && |m| == |g| && TableInv(g, m, tbl, start) && StructsTold(g, tbl, start)
    requires forall id :: 0 <= id < start && id < |m| ==> Mapped(m, id)
    ensures StructsApart(g, m, start)
  {
    hide TableOk, Distinct, SignatureHash, WfGraph, NoForwards, TwoCopies, SameMeaning;
    forall a, b | 0 < a < b < |g| && start <= b && (a < start || m[a] == a) && m[b] == b && IsComposite(g[b])
      ensures ToldApart(g, a, b)
    {
      if SameMeaning(g, b, g, a) {
        SameMeaningHashesAlike(g, b, a);
        var e: Cand, f: Cand := Entry(SignatureHash(g[a]), a), Entry(SignatureHash(g[b]), b);
        assert f in tbl && e in tbl && e.key == f.key;
      }
    }
  }

  lemma SameMeaningHashesAlike(g: Graph, x: nat, y: nat)
    requires WfGraph(g) && 0 < x < |g| && 0 < y < |g| && IsComposite(g[x]) && SameMeaning(g, x, g, y)
    ensures IsComposite(g[y]) && SignatureHash(g[x]) == SignatureHash(g[y])
  {
    hide SignatureHash;
    if !SameShape(g[x], g[y]) {
      DifferentShapesDiffer(g, x, y);
    }
    SameShapePassesTests(g[x], g[y]);
    MergeableHashAlike(g[x], g[y]);
  }

  /** The struct pass is done, the reference pass has not started. */
  ghost predicate PassedStructs(g: Graph, m: IdMap, start: nat) {
    && |m| == |g| && (forall id :: start <= id < |g| && IsComposite(g[id]) ==> Mapped(m, id))
    && forall id :: start <= id < |g| && IsRefKind(Kind(g[id])) ==> !Mapped(m, id)
  }

  lemma PassedStructsIs(g: Graph, m: IdMap, start: nat)
    requires PassedStructs(g, m, start)
    ensures forall id :: start <= id < |g| && IsRefKind(Kind(g[id])) ==> !Mapped(m, id)
  {
  }

  lemma StructsStayApart(g: Graph, m: IdMap, m': IdMap, start: nat)
    requires WfGraph(g) && StructsApart(g, m, start) && PassedStructs(g, m, start) && MappedFixed(m, m')
    ensures StructsApart(g, m', start)
  {
    hide StructsApart;
    StayApart(g, m, m', start);
  }

  /** The reference pass moves no struct. */
  lemma StayApart(g: Graph, m: IdMap, m': IdMap, start: nat)
    requires WfGraph(g) && StructsApart(g, m, start) && |m'| == |m|
    requires forall id :: start <= id < |g| && IsComposite(g[id]) ==> m'[id] == m[id]
    ensures StructsApart(g, m', start)
  {
    hide NoForwards, TwoCopies, SameMeaning;
    forall a, b | 0 < a < b < |g| && start <= b && (a < start || m'[a] == a) && m'[b] == b && IsComposite(g[b])
      ensures ToldApart(g, a, b)
    {
      if NoForwards(g) && SameMeaning(g, b, g, a) {
        if !SameShape(g[b], g[a]) {
          DifferentShapesDiffer(g, b, a);
        }
        assert IsComposite(g[a]);
      }
    }
  }
}
