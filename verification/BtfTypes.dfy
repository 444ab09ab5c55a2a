/** BTF type records as the 32-bit words that btf.c reads and writes.

A record is `struct btf_type` (name_off, info, size or type) followed by the
extra words of its kind.  The layout is the one of section 2.2 of the Linux
kernel document "BPF Type Format (BTF)". */
module BtfTypes {
  import Words

  type u32 = Words.u32

  /** A record has at least the three words of `struct btf_type`. */
  type Rec = r: seq<u32> | |r| >= 3 witness [0, 0, 0]

  /** The type every instance has at id 0. */
  const VOID: Rec := [0, 0, 0]

  const MAX_NR_TYPES: u32 := 0x7fff_ffff

  const KIND_INT := 1
  const KIND_PTR := 2
  const KIND_ARRAY := 3
  const KIND_STRUCT := 4
  const KIND_UNION := 5
  const KIND_ENUM := 6
  const KIND_FWD := 7
  const KIND_TYPEDEF := 8
  const KIND_VOLATILE := 9
  const KIND_CONST := 10
  const KIND_RESTRICT := 11
  const KIND_FUNC := 12
  const KIND_FUNC_PROTO := 13
  const KIND_VAR := 14
  const KIND_DATASEC := 15
  const KIND_FLOAT := 16
  const KIND_DECL_TAG := 17
  const KIND_TYPE_TAG := 18
  const KIND_ENUM64 := 19

  function KindOfInfo(info: u32): nat { info / 0x100_0000 % 32 }

  function VlenOfInfo(info: u32): nat { info % 0x1_0000 }

  function NameOff(r: Rec): u32 { r[0] }

  function Kind(r: Rec): nat { KindOfInfo(r[1]) }

  function Vlen(r: Rec): nat { VlenOfInfo(r[1]) }

  predicate Kflag(r: Rec) { r[1] / 0x8000_0000 == 1 }

  /** `btf_type_info`: what goes into the info word comes out of it. */
  lemma InfoFields(kind: nat, vlen: nat, kflag: bool, r: Rec)
    requires kind < 32 && vlen < 0x1_0000
    requires r[1] == (if kflag then 0x8000_0000 else 0) + kind * 0x100_0000 + vlen
    ensures Kind(r) == kind && Vlen(r) == vlen && (Kflag(r) <==> kflag)
  {
    var low := kind * 0x100_0000 + vlen;
    assert low / 0x100_0000 == kind && low % 0x1_0000 == vlen;
  }

  predicate IsComposite(r: Rec) { Kind(r) == KIND_STRUCT || Kind(r) == KIND_UNION }

  predicate IsFwd(r: Rec) { Kind(r) == KIND_FWD }

  predicate IsAnyEnum(r: Rec) { Kind(r) == KIND_ENUM || Kind(r) == KIND_ENUM64 }

  predicate IsVarOrDatasec(r: Rec) { Kind(r) == KIND_VAR || Kind(r) == KIND_DATASEC }

  /** The kinds whose third word is a type id. */
  predicate HasTypeWord(kind: nat) {
    kind in {KIND_FWD, KIND_CONST, KIND_VOLATILE, KIND_RESTRICT, KIND_PTR, KIND_TYPEDEF,
             KIND_FUNC, KIND_VAR, KIND_DECL_TAG, KIND_TYPE_TAG}
  }

  /** Modifiers, pointers, typedefs, functions and type tags: one reference and nothing else. */
  predicate IsPlainRefKind(kind: nat) {
    kind in {KIND_CONST, KIND_VOLATILE, KIND_RESTRICT, KIND_PTR, KIND_TYPEDEF, KIND_FUNC, KIND_TYPE_TAG}
  }

  /** `btf_type_size` in words; -1 stands for -EINVAL. */
  function SizeOfInfo(info: u32): int {
    var kind, vlen := KindOfInfo(info), VlenOfInfo(info);
    if IsPlainRefKind(kind) || kind == KIND_FWD || kind == KIND_FLOAT then 3
    else if kind == KIND_INT || kind == KIND_VAR || kind == KIND_DECL_TAG then 4
    else if kind == KIND_ENUM || kind == KIND_FUNC_PROTO then 3 + 2 * vlen
    else if kind == KIND_ENUM64 || kind == KIND_STRUCT || kind == KIND_UNION || kind == KIND_DATASEC then 3 + 3 * vlen
    else if kind == KIND_ARRAY then 6
    else -1
  }

  predicate WfRec(r: Rec) { SizeOfInfo(r[1]) == |r| }

  /** How many type ids `btf_type_visit_type_ids` visits. */
  function RefCount(r: Rec): nat {
    var kind := Kind(r);
    if HasTypeWord(kind) then 1
    else if kind == KIND_ARRAY then 2
    else if kind == KIND_STRUCT || kind == KIND_UNION || kind == KIND_DATASEC then Vlen(r)
    else if kind == KIND_FUNC_PROTO then 1 + Vlen(r)
    else 0
  }

  /** The word holding the k-th type id, in visiting order. */
  function RefPos(r: Rec, k: nat): nat {
    var kind := Kind(r);
    if kind == KIND_ARRAY then 3 + k
    else if kind == KIND_STRUCT || kind == KIND_UNION then 4 + 3 * k
    else if kind == KIND_DATASEC then 3 + 3 * k
    else 2 + 2 * k
  }

  predicate IsRefPos(r: Rec, i: nat) {
    var kind := Kind(r);
    if HasTypeWord(kind) then i == 2
    else if kind == KIND_ARRAY then i == 3 || i == 4
    else if kind == KIND_STRUCT || kind == KIND_UNION then i >= 3 && i % 3 == 1
    else if kind == KIND_DATASEC then i >= 3 && i % 3 == 0
    else if kind == KIND_FUNC_PROTO then i >= 2 && i % 2 == 0
    else false
  }

  function Ref(r: Rec, k: nat): u32 {
    if RefPos(r, k) < |r| then r[RefPos(r, k)] else 0
  }

  function WithRef(r: Rec, k: nat, id: u32): Rec
    requires WfRec(r) && k < RefCount(r)
  {
    RefsAreWords(r, k);
    r[RefPos(r, k) := id]
  }

  /** Everything in a record but the ids it refers to. */
  function Shape(r: Rec): seq<u32> {
    seq(|r|, i requires 0 <= i < |r| => if IsRefPos(r, i) then 0 else r[i])
  }

  predicate SameShape(a: Rec, b: Rec) {
    && |a| == |b| && a[1] == b[1]
    && forall i :: 0 <= i < |a| && !IsRefPos(a, i) ==> a[i] == b[i]
  }

  /** Same shape and same references: the same record. */
  predicate SameRefs(a: Rec, b: Rec)
    requires a[1] == b[1]
  {
    forall k :: 0 <= k < RefCount(a) ==> Ref(a, k) == Ref(b, k)
  }

  lemma RefsAreWords(r: Rec, k: nat)
    requires WfRec(r) && k < RefCount(r)
    ensures 2 <= RefPos(r, k) < |r| && IsRefPos(r, RefPos(r, k))
  {
  }

  lemma RefPosIndex(r: Rec, i: nat) returns (k: nat)
    requires WfRec(r) && i < |r| && IsRefPos(r, i)
    ensures k < RefCount(r) && RefPos(r, k) == i
  {
    var kind := Kind(r);
    k := if kind == KIND_ARRAY then i - 3
         else if kind == KIND_STRUCT || kind == KIND_UNION then (i - 4) / 3
         else if kind == KIND_DATASEC then (i - 3) / 3
         else (i - 2) / 2;
  }

  lemma SameShapeIsEqualShapes(a: Rec, b: Rec)
    requires WfRec(a) || a == VOID
    requires WfRec(b) || b == VOID
    ensures SameShape(a, b) <==> Shape(a) == Shape(b)
  {
    if Shape(a) == Shape(b) {
      assert |Shape(a)| == |a| && |Shape(b)| == |b|;
      assert Shape(a)[1] == a[1] && Shape(b)[1] == b[1];
      forall i | 0 <= i < |a| && !IsRefPos(a, i)
        ensures a[i] == b[i]
      {
        assert Shape(a)[i] == a[i] && Shape(b)[i] == b[i];
      }
    }
  }

  lemma ShapeAndRefsDetermineRec(a: Rec, b: Rec)
    requires WfRec(a) && WfRec(b) && SameShape(a, b) && SameRefs(a, b)
    ensures a == b
  {
    forall i | 0 <= i < |a|
      ensures a[i] == b[i]
    {
      if IsRefPos(a, i) {
        var k := RefPosIndex(a, i);
        assert Ref(a, k) == Ref(b, k);
      }
    }
  }

  lemma WithRefKeepsShape(r: Rec, k: nat, id: u32)
    requires WfRec(r) && k < RefCount(r)
    ensures var r' := WithRef(r, k, id);
            && WfRec(r') && SameShape(r, r') && Ref(r', k) == id
            && forall j :: 0 <= j < RefCount(r) && j != k ==> Ref(r', j) == Ref(r, j)
  {
    RefsAreWords(r, k);
  }
}
