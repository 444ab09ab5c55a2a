/** The type section of `struct btf`: words in one growing buffer, found by offset. */
module BtfTable {
  import opened BtfTypes
  import opened BtfGraph
  import opened Forest
  import opened Seqs

  const EINVAL := -22

  class Btf {
    /** Whether `base_btf` is set; the base may have no types of its own. */
    const hasBase: bool
    /** The types below start_id: void and, for split BTF, the types of the base. */
    const base: seq<Rec>

    var typesData: seq<u32>
    /** `hdr->type_len`, in words. */
    var typeLen: nat
    var typeOffs: seq<nat>
    var nrTypes: nat

    /** The types of this instance, decoded. */
    ghost var own: seq<Rec>

    constructor (hasBase: bool, base: seq<Rec>, data: seq<u32>, offs: seq<nat>, ghost own: seq<Rec>)
      requires |base| > 0 && base[0] == VOID && (!hasBase ==> |base| == 1)
      requires data == Flat(own) && |offs| == |own|
      requires forall i :: 0 <= i < |own| ==> WfRec(own[i]) && offs[i] == Start(own, i)
      ensures Valid() && Types() == base + own && this.hasBase == hasBase && this.base == base && this.own == own
    {
      this.hasBase, this.base := hasBase, base;
      typesData, typeLen, typeOffs, nrTypes := data, |data|, offs, |offs|;
      this.own := own;
    }

    function StartId(): (n: nat)
    {
      |base|
    }

    /** `btf__type_cnt`. */
    function TypeCnt(): nat
      reads this
    {
      StartId() + nrTypes
    }

    ghost function Types(): Graph
      reads this
    {
      base + own
    }

    ghost predicate Valid()
      reads this
    {
      && |base| > 0 && base[0] == VOID && (!hasBase ==> |base| == 1)
      && |own| == nrTypes <= |typeOffs| && typeLen <= |typesData|
      && typesData[..typeLen] == Flat(own)
      && (forall i :: 0 <= i < nrTypes ==> WfRec(own[i]))
      && (forall i :: 0 <= i < nrTypes ==> typeOffs[i] == Start(own, i))
    }

    lemma OwnTypeAt(i: nat)
      requires Valid() && i < nrTypes
      ensures typeOffs[i] + |own[i]| <= typeLen
      ensures typesData[typeOffs[i]..typeOffs[i] + |own[i]|] == own[i]
      ensures typesData[typeOffs[i] + 1] == own[i][1]
    {
      PartAt(own, i);
      var s, e := typeOffs[i], typeOffs[i] + |own[i]|;
      SliceOfPrefix(typesData, typeLen, s, e);
      assert typesData[s..e][1] == typesData[s + 1];
    }

    /** `btf_type_by_id`: the record an id leads to. */
    function TypeById(id: nat): (t: Rec)
      requires Valid() && id < TypeCnt()
      reads this
      ensures t == Types()[id]
    {
      if id < StartId() then base[id]
      else
        var off := typeOffs[id - StartId()];
        OwnTypeAt(id - StartId());
        typesData[off..off + SizeOfInfo(typesData[off + 1])]
    }

    /** Writes one word of one record, through the pointer to it. */
    method SetWord(id: nat, pos: nat, v: u32)
      requires Valid() && StartId() <= id < TypeCnt() && pos < |Types()[id]| && pos != 1
      modifies this
      ensures Valid() && Types() == old(Types())[id := old(Types())[id][pos := v]]
      ensures nrTypes == old(nrTypes)
    {
      ghost var i := id - StartId();
      var off := typeOffs[id - StartId()];
      OwnTypeAt(i);
      FlatSet(own, i, pos, v);
      ghost var own' := own[i := own[i][pos := v]];
      forall k | 0 <= k < nrTypes
        ensures Start(own', k) == Start(own, k)
      {
        StartSameLengths(own', own, k);
      }
      typesData := typesData[off + pos := v];
      assert typesData[..typeLen] == old(typesData)[..typeLen][off + pos := v];
      own := own';
    }

    /** Stores a referenced id, as `t->type = id` and its variants do. */
    method SetRef(id: nat, k: nat, v: u32)
      requires Valid() && StartId() <= id < TypeCnt() && k < RefCount(Types()[id])
      modifies this
      ensures Valid() && WfRec(old(Types())[id])
      ensures Types() == old(Types())[id := WithRef(old(Types())[id], k, v)]
      ensures nrTypes == old(nrTypes)
    {
      RefsAreWords(own[id - StartId()], k);
      SetWord(id, RefPos(TypeById(id), k), v);
    }

    /** `btf_dedup_compact_types`: moves every type that maps to itself down over the others,
        in place, and records its new id. */
    method Compact(canon: array<u32>, newIds: array<u32>) returns (err: int)
      requires Valid() && canon != newIds && canon.Length == newIds.Length == TypeCnt() <= MAX_NR_TYPES
      modifies this, newIds
      ensures err == 0 && Valid()
      ensures own == KeptRecs(old(own), canon[..], StartId(), old(nrTypes))
      ensures NewIdsUpto(newIds[..], canon[..], StartId(), old(nrTypes), old(nrTypes))
    {
      hide Moving, KeptRecs, KeptIds, NewIdsUpto, Start, Flat, SizeOfInfo, WfRec;
      ghost var own0, m, start := own, canon[..], StartId();
      InitNewIds(newIds);
      NewIdsNone(newIds[..], m, start, nrTypes);
      var p, nextTypeId, i := 0, StartId(), 0;
      MoveStarts(own0, m, start, typesData, typeOffs, typeLen);
      while i < nrTypes
        invariant 0 <= i <= nrTypes == |own0| && newIds.Length == start + nrTypes
        invariant nextTypeId == start + |KeptIds(m, start, i)| && own == own0
        invariant Moving(own0, m, start, i, p, typesData, typeOffs, typeLen)
        invariant NewIdsUpto(newIds[..], m, start, i, nrTypes)
      {
        var id := StartId() + i;
        ghost var h := newIds[..];
        if canon[id] == id {
          MoveReads(own0, m, start, i, p, typesData, typeOffs, typeLen);
          MoveOne(own0, m, start, i, p, typesData, typeOffs, typeLen);
          var off := typeOffs[i];
          var len := SizeOfInfo(typesData[off + 1]);
          if len < 0 { return len; }
          typesData := typesData[..p] + typesData[off..off + len] + typesData[p + len..];
          NewIdsNext(h, m, start, i, nrTypes);
          newIds[id] := nextTypeId as u32;
          assert newIds[..] == h[id := nextTypeId as u32];
          typeOffs := typeOffs[nextTypeId - StartId() := p];
          p := p + len;
          nextTypeId := nextTypeId + 1;
        } else {
          NewIdsNext(h, m, start, i, nrTypes);
          MoveNone(own0, m, start, i, p, typesData, typeOffs, typeLen);
        }
        i := i + 1;
      }
      MoveEnds(own0, m, start, p, typesData, typeOffs, typeLen);
      own := KeptRecs(own0, m, start, nrTypes);
      nrTypes := nextTypeId - StartId();
      typeLen := p;
      typeOffs := typeOffs[..nrTypes];
      err := 0;
    }

    /** Types of the base keep their ids; the others have none yet. */
    method InitNewIds(newIds: array<u32>)
      requires newIds.Length == TypeCnt() <= MAX_NR_TYPES && StartId() > 0
      modifies newIds
      ensures forall id :: 0 <= id < newIds.Length ==> newIds[id] == if id < StartId() then id else UNPROCESSED
    {
      newIds[0] := 0;
      var id := 1;
      while id < StartId()
        invariant 1 <= id <= StartId() && forall j :: 0 <= j < id ==> newIds[j] == j
      {
        newIds[id] := id;
        id := id + 1;
      }
      while id < newIds.Length
        invariant StartId() <= id <= newIds.Length
        invariant forall j :: 0 <= j < id ==> newIds[j] == if j < StartId() then j else UNPROCESSED
      {
        newIds[id] := UNPROCESSED;
        id := id + 1;
      }
    }
  }

  /** The ids, among the first n of this instance, of the types that map to themselves. */
  ghost function KeptIds(m: seq<u32>, start: nat, n: nat): seq<nat>
    requires start + n <= |m|
  {
    if n == 0 then []
    else KeptIds(m, start, n - 1) + if m[start + n - 1] == start + n - 1 then [start + n - 1] else []
  }

  /** The first n types of this instance, filtered to those that map to themselves. */
  ghost function KeptRecs(own: seq<Rec>, m: seq<u32>, start: nat, n: nat): seq<Rec>
    requires start + n <= |m| && n <= |own|
  {
    if n == 0 then []
    else KeptRecs(own, m, start, n - 1) + if m[start + n - 1] == start + n - 1 then [own[n - 1]] else []
  }

  ghost predicate NewIdsUpto(newIds: seq<u32>, m: seq<u32>, start: nat, i: nat, n: nat) {
    && |newIds| == |m| == start + n && i <= n
    && (forall id :: 0 <= id < start ==> newIds[id] == id)
    && (forall id :: start <= id < start + i ==>
          newIds[id] == if m[id] == id then start + |KeptIds(m, start, id - start)| else UNPROCESSED)
    && (forall id :: start + i <= id < start + n ==> newIds[id] == UNPROCESSED)
  }

  lemma NewIdsNone(newIds: seq<u32>, m: seq<u32>, start: nat, n: nat)
    requires |newIds| == |m| == start + n
    requires forall id :: 0 <= id < |newIds| ==> newIds[id] == if id < start then id else UNPROCESSED
    ensures NewIdsUpto(newIds, m, start, 0, n) && KeptIds(m, start, 0) == []
  {
  }

  lemma NewIdsNext(newIds: seq<u32>, m: seq<u32>, start: nat, i: nat, n: nat)
    requires NewIdsUpto(newIds, m, start, i, n) && i < n && |m| <= MAX_NR_TYPES
    ensures start + |KeptIds(m, start, i)| < |m|
    ensures NewIdsUpto(if m[start + i] != start + i then newIds
                       else newIds[start + i := start + |KeptIds(m, start, i)|],
                       m, start, i + 1, n)
  {
    KeptAtMost(m, start, i);
  }

  lemma {:induction false} KeptAtMost(m: seq<u32>, start: nat, n: nat)
    requires start + n <= |m|
    ensures |KeptIds(m, start, n)| <= n
  {
    if n > 0 {
      KeptAtMost(m, start, n - 1);
    }
  }

  /** The state of compaction after i types: the kept ones fill the data up to p, and the
      rest is still where it was. */
  ghost predicate Moving(own: seq<Rec>, m: seq<u32>, start: nat, i: nat, p: nat, data: seq<u32>, offs: seq<nat>,
                         len: nat) {
    && i <= |own| <= |offs| && start + |own| == |m| && len == |Flat(own)| <= |data|
    && (forall j :: 0 <= j < |own| ==> WfRec(own[j]))
    && (var kept := KeptRecs(own, m, start, i);
        && |kept| == |KeptIds(m, start, i)| <= i
        && p == |Flat(kept)| <= Start(own, i) <= len
        && data[..p] == Flat(kept)
        && (forall j :: 0 <= j < |kept| ==> offs[j] == Start(kept, j)))
    && data[Start(own, i)..len] == Flat(own)[Start(own, i)..]
    && (forall j :: i <= j < |own| ==> offs[j] == Start(own, j))
  }

  lemma MoveStarts(own: seq<Rec>, m: seq<u32>, start: nat, data: seq<u32>, offs: seq<nat>, len: nat)
    requires start + |own| == |m| && |own| <= |offs| && len <= |data| && data[..len] == Flat(own)
    requires forall j :: 0 <= j < |own| ==> WfRec(own[j]) && offs[j] == Start(own, j)
    ensures Moving(own, m, start, 0, 0, data, offs, len)
  {
    assert own[..0] == [];
  }

  lemma MoveReads(own: seq<Rec>, m: seq<u32>, start: nat, i: nat, p: nat, data: seq<u32>, offs: seq<nat>, len: nat)
    requires Moving(own, m, start, i, p, data, offs, len) && i < |own|
    ensures i < |offs|
    ensures var off := offs[i];
            && p <= off && off + |own[i]| <= len && data[off..off + |own[i]|] == own[i]
            && SizeOfInfo(data[off + 1]) == |own[i]|
  {
    hide Flat, Start, KeptRecs, KeptIds, SizeOfInfo;
    PartAt(own, i);
    var off, n := offs[i], |own[i]|;
    assert off == Start(own, i) && off + n <= len && data[off..len] == Flat(own)[off..|Flat(own)|];
    SliceOfMiddle(data, off, len, n);
    SliceOfMiddle(Flat(own), off, len, n);
    assert data[off..off + n] == own[i];
    assert data[off + 1] == data[off..off + n][1];
  }

  lemma MoveNone(own: seq<Rec>, m: seq<u32>, start: nat, i: nat, p: nat, data: seq<u32>, offs: seq<nat>, len: nat)
    requires Moving(own, m, start, i, p, data, offs, len) && i < |own| && m[start + i] != start + i
    ensures Moving(own, m, start, i + 1, p, data, offs, len)
    ensures KeptIds(m, start, i + 1) == KeptIds(m, start, i)
  {
    hide WfRec, SizeOfInfo, Flat, Start;
    StartNext(own, i);
    PartAt(own, i);
    assert KeptRecs(own, m, start, i + 1) == KeptRecs(own, m, start, i);
    assert KeptIds(m, start, i + 1) == KeptIds(m, start, i);
    hide KeptRecs, KeptIds;
    RestOfMiddle(data, Start(own, i), len, |own[i]|);
    RestOfMiddle(Flat(own), Start(own, i), |Flat(own)|, |own[i]|);
  }

  lemma MoveOne(own: seq<Rec>, m: seq<u32>, start: nat, i: nat, p: nat, data: seq<u32>, offs: seq<nat>, len: nat)
    requires Moving(own, m, start, i, p, data, offs, len) && i < |own| && m[start + i] == start + i
    ensures var off, n, k := offs[i], |own[i]|, |KeptIds(m, start, i)|;
            && off + n <= |data| && p + n <= |data| && k < |offs|
            && Moving(own, m, start, i + 1, p + n, data[..p] + data[off..off + n] + data[p + n..], offs[k := p], len)
    ensures KeptIds(m, start, i + 1) == KeptIds(m, start, i) + [start + i]
  {
    hide WfRec, SizeOfInfo, Flat, Start;
    StartNext(own, i);
    MoveReads(own, m, start, i, p, data, offs, len);
    var kept, off, n := KeptRecs(own, m, start, i), offs[i], |own[i]|;
    var data', offs' := data[..p] + data[off..off + n] + data[p + n..], offs[|kept| := p];
    var kept' := kept + [own[i]];
    assert KeptRecs(own, m, start, i + 1) == kept' && KeptIds(m, start, i + 1) == KeptIds(m, start, i) + [start + i];
    hide KeptRecs, KeptIds;
    FlatSnoc(kept, own[i]);
    assert data'[..p + n] == data[..p] + own[i];
    assert data'[Start(own, i + 1)..len] == data[Start(own, i + 1)..len];
    RestOfMiddle(data, Start(own, i), len, n);
    RestOfMiddle(Flat(own), Start(own, i), |Flat(own)|, n);
    OffsSnoc(kept, own[i], offs, p);
  }

  lemma OffsSnoc(kept: seq<Rec>, r: Rec, offs: seq<nat>, p: nat)
    requires |kept| < |offs| && p == |Flat(kept)| && forall j :: 0 <= j < |kept| ==> offs[j] == Start(kept, j)
    ensures forall j :: 0 <= j < |kept + [r]| ==> offs[|kept| := p][j] == Start(kept + [r], j)
  {
    forall j | 0 <= j < |kept + [r]|
      ensures offs[|kept| := p][j] == Start(kept + [r], j)
    {
      assert (kept + [r])[..j] == kept[..j];
      if j == |kept| {
        assert kept[..j] == kept;
      }
    }
  }

  lemma {:induction false} MoveEnds(own: seq<Rec>, m: seq<u32>, start: nat, p: nat, data: seq<u32>, offs: seq<nat>,
                                    len: nat)
    requires Moving(own, m, start, |own|, p, data, offs, len)
    ensures var kept := KeptRecs(own, m, start, |own|);
            && |kept| == |KeptIds(m, start, |own|)| <= |offs|
            && data[..p] == Flat(kept) && p <= |data|
            && forall j :: 0 <= j < |kept| ==> WfRec(kept[j]) && offs[j] == Start(kept, j)
  {
    KeptAreOwn(own, m, start, |own|);
  }

  /** The kept types are the types of the kept ids, in order. */
  lemma {:induction false} KeptAreOwn(own: seq<Rec>, m: seq<u32>, start: nat, n: nat)
    requires start + n <= |m| && n <= |own|
    ensures var ids, kept := KeptIds(m, start, n), KeptRecs(own, m, start, n);
            && |ids| == |kept|
            && (forall j :: 0 <= j < |ids| ==>
                 start <= ids[j] < start + n && m[ids[j]] == ids[j] && kept[j] == own[ids[j] - start])
            && (forall i, j :: 0 <= i < j < |ids| ==> ids[i] < ids[j])
  {
    if n > 0 {
      KeptAreOwn(own, m, start, n - 1);
    }
  }

  lemma RestOfMiddle<T>(s: seq<T>, from: nat, to: nat, n: nat)
    requires from + n <= to <= |s|
    ensures s[from..to][n..] == s[from + n..to]
    ensures to == |s| ==> s[from..][n..] == s[from + n..]
  {
  }

  lemma SliceOfMiddle<T>(s: seq<T>, from: nat, to: nat, n: nat)
    requires from + n <= to <= |s|
    ensures s[from..to][..n] == s[from..from + n]
  {
  }

  lemma SliceOfPrefix<T>(s: seq<T>, len: nat, from: nat, to: nat)
    requires from <= to <= len <= |s|
    ensures s[..len][from..to] == s[from..to]
  {
  }
}
