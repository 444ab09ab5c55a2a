/** Names: the string offsets a record holds, the strings they denote, and unfolding by content. */
module BtfNames {
  import opened BtfTypes
  import opened BtfGraph
  import opened StrSets

  /** How many string offsets `btf_type_visit_str_offs` visits. */
  function NameCount(r: Rec): nat {
    var kind := Kind(r);
    if kind in {KIND_STRUCT, KIND_UNION, KIND_ENUM, KIND_ENUM64, KIND_FUNC_PROTO} then 1 + Vlen(r) else 1
  }

  /** The word holding the k-th of them. */
  function NamePos(r: Rec, k: nat): nat {
    if k == 0 then 0
    else if Kind(r) == KIND_ENUM || Kind(r) == KIND_FUNC_PROTO then 3 + 2 * (k - 1)
    else 3 + 3 * (k - 1)
  }

  predicate IsNamePos(r: Rec, i: nat) {
    var kind := Kind(r);
    i == 0 || (i >= 3 && if kind == KIND_ENUM || kind == KIND_FUNC_PROTO then i % 2 == 1
                         else (kind == KIND_STRUCT || kind == KIND_UNION || kind == KIND_ENUM64) && i % 3 == 0)
  }

  function Name(r: Rec, k: nat): u32 {
    if NamePos(r, k) < |r| then r[NamePos(r, k)] else 0
  }

  lemma NamesAreWords(r: Rec, k: nat)
    requires WfRec(r) && k < NameCount(r)
    ensures NamePos(r, k) < |r| && IsNamePos(r, NamePos(r, k))
    ensures NamePos(r, k) != 1 && !IsRefPos(r, NamePos(r, k))
  {
  }

  lemma NamePosIndex(r: Rec, i: nat) returns (k: nat)
    requires WfRec(r) && i < |r| && IsNamePos(r, i)
    ensures k < NameCount(r) && NamePos(r, k) == i
  {
    var kind := Kind(r);
    k := if i == 0 then 0
         else if kind == KIND_ENUM || kind == KIND_FUNC_PROTO then 1 + (i - 3) / 2
         else 1 + (i - 3) / 3;
  }

  /** The live string data an instance reads: that of its base, if any, and its own. */
  datatype Strs = Strs(base: seq<Byte>, own: seq<Byte>)

  /** `btf__str_by_offset`. */
  function NameOf(st: Strs, off: nat): CString {
    if off < |st.base| then StrAt(st.base, off) else StrAt(st.own, off - |st.base|)
  }

  predicate OffInRange(st: Strs, off: nat) { off < |st.base| + |st.own| }

  ghost predicate NamesInRange(g: Graph, st: Strs) {
    forall id, k :: 0 <= id < |g| && 0 <= k < NameCount(g[id]) ==> OffInRange(st, Name(g[id], k))
  }

  /** More strings, and the earlier ones unmoved. */
  ghost predicate Grown(st: Strs, st': Strs) {
    st'.base == st.base && st.own <= st'.own && Terminated(st.own) && Terminated(st'.own)
  }

  lemma GrownKeepsNames(st: Strs, st': Strs, off: nat)
    requires Grown(st, st') && OffInRange(st, off)
    ensures OffInRange(st', off) && NameOf(st', off) == NameOf(st, off)
  {
    if off >= |st.base| {
      LiveStringsAreStable(st.own, st'.own, off - |st.base|);
    }
  }

  // ---- unfolding with names by content ----

  datatype Word = RefWord | NameWord(name: CString) | RawWord(v: u32)

  function Label(r: Rec, st: Strs): seq<Word> {
    seq(|r|, i requires 0 <= i < |r| =>
      if IsRefPos(r, i) then RefWord else if IsNamePos(r, i) then NameWord(NameOf(st, r[i])) else RawWord(r[i]))
  }

  datatype NamedTree = NamedCut | NamedNode(words: seq<Word>, kids: seq<NamedTree>)

  ghost function UnfoldNamed(g: Graph, st: Strs, id: nat, depth: nat): NamedTree
    decreases depth
  {
    if depth == 0 || id >= |g| then NamedCut
    else NamedNode(Label(g[id], st),
                   seq(RefCount(g[id]), k requires 0 <= k < RefCount(g[id]) =>
                     UnfoldNamed(g, st, Ref(g[id], k), depth - 1)))
  }

  lemma UnfoldNamedStep(g: Graph, st: Strs, a: nat, h: Graph, st': Strs, b: nat, n: nat)
    requires a < |g| && b < |h| && Label(g[a], st) == Label(h[b], st') && g[a][1] == h[b][1]
    requires forall k :: 0 <= k < RefCount(g[a]) ==>
               UnfoldNamed(g, st, Ref(g[a], k), n) == UnfoldNamed(h, st', Ref(h[b], k), n)
    ensures UnfoldNamed(g, st, a, n + 1) == UnfoldNamed(h, st', b, n + 1)
  {
    var s, t := UnfoldNamed(g, st, a, n + 1), UnfoldNamed(h, st', b, n + 1);
    assert |s.kids| == |t.kids|;
    forall k | 0 <= k < |s.kids|
      ensures s.kids[k] == t.kids[k]
    {
      assert s.kids[k] == UnfoldNamed(g, st, Ref(g[a], k), n);
      assert t.kids[k] == UnfoldNamed(h, st', Ref(h[b], k), n);
    }
  }

  // ---- rewriting a record from one instance for another ----

  /** The first nk names and the first rk references of r0 have been replaced by what they mean
      in the other instance; everything else is as it was. */
  ghost predicate Rewritten(r0: Rec, src: Strs, r: Rec, st: Strs, nk: nat, rk: nat, shift: nat -> nat) {
    && WfRec(r0) && |r| == |r0| && r[1] == r0[1]
    && (forall i :: 0 <= i < |r0| && !IsRefPos(r0, i) && !IsNamePos(r0, i) ==> r[i] == r0[i])
    && (forall k :: 0 <= k < NameCount(r0) ==>
          if k < nk then OffInRange(st, Name(r, k)) && NameOf(st, Name(r, k)) == NameOf(src, Name(r0, k))
          else Name(r, k) == Name(r0, k))
    && (forall k :: 0 <= k < RefCount(r0) ==>
          Ref(r, k) == if k < rk then shift(Ref(r0, k)) else Ref(r0, k))
  }

  lemma NothingRewritten(r0: Rec, src: Strs, st: Strs, shift: nat -> nat)
    requires WfRec(r0)
    ensures Rewritten(r0, src, r0, st, 0, 0, shift)
  {
  }

  lemma GrownKeepsRewritten(r0: Rec, src: Strs, r: Rec, st: Strs, st': Strs, nk: nat, rk: nat, shift: nat -> nat)
    requires Rewritten(r0, src, r, st, nk, rk, shift) && Grown(st, st')
    ensures Rewritten(r0, src, r, st', nk, rk, shift)
  {
    forall k | 0 <= k < NameCount(r0) && k < nk
      ensures OffInRange(st', Name(r, k)) && NameOf(st', Name(r, k)) == NameOf(src, Name(r0, k))
    {
      GrownKeepsNames(st, st', Name(r, k));
    }
  }

  lemma RewriteName(r0: Rec, src: Strs, r: Rec, st: Strs, nk: nat, shift: nat -> nat, off: u32)
    requires Rewritten(r0, src, r, st, nk, 0, shift) && nk < NameCount(r)
    requires OffInRange(st, off) && NameOf(st, off) == NameOf(src, Name(r, nk))
    ensures NamePos(r, nk) < |r| && NamePos(r, nk) != 1
    ensures Rewritten(r0, src, r[NamePos(r, nk) := off], st, nk + 1, 0, shift)
  {
    NamesAreWords(r0, nk);
    var r' := r[NamePos(r, nk) := off];
    forall k | 0 <= k < NameCount(r0)
      ensures Name(r', k) == if k == nk then off else Name(r, k)
    {
      NamesAreWords(r0, k);
    }
    forall k | 0 <= k < RefCount(r0)
      ensures Ref(r', k) == Ref(r, k)
    {
      RefsAreWords(r0, k);
    }
  }

  lemma RewriteRef(r0: Rec, src: Strs, r: Rec, st: Strs, nk: nat, rk: nat, shift: nat -> nat, id: u32)
    requires Rewritten(r0, src, r, st, nk, rk, shift) && rk < RefCount(r) && id == shift(Ref(r, rk))
    ensures RefPos(r, rk) < |r| && RefPos(r, rk) != 1
    ensures Rewritten(r0, src, r[RefPos(r, rk) := id], st, nk, rk + 1, shift)
  {
    RefsAreWords(r0, rk);
    var r' := r[RefPos(r, rk) := id];
    forall k | 0 <= k < NameCount(r0)
      ensures Name(r', k) == Name(r, k)
    {
      NamesAreWords(r0, k);
    }
    forall k | 0 <= k < RefCount(r0)
      ensures Ref(r', k) == if k == rk then id else Ref(r, k)
    {
      RefsAreWords(r0, k);
    }
  }

  /** A fully rewritten record has the label it had, and shifted references. */
  lemma RewrittenLabel(r0: Rec, src: Strs, r: Rec, st: Strs, shift: nat -> nat)
    requires Rewritten(r0, src, r, st, NameCount(r0), RefCount(r0), shift)
    ensures Label(r, st) == Label(r0, src) && WfRec(r) && RefCount(r) == RefCount(r0)
    ensures forall k :: 0 <= k < RefCount(r0) ==> Ref(r, k) == shift(Ref(r0, k))
    ensures forall k :: 0 <= k < NameCount(r) ==> OffInRange(st, Name(r, k))
  {
    forall i | 0 <= i < |r0|
      ensures Label(r, st)[i] == Label(r0, src)[i]
    {
      if IsNamePos(r0, i) && !IsRefPos(r0, i) {
        var k := NamePosIndex(r0, i);
        assert Name(r, k) == r[i] && Name(r0, k) == r0[i];
      }
    }
  }
}
