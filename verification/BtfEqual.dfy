/** The record comparisons and signature hashes of btf.c, lines 3362-3677.

Each comparison is stated field by field, as the code makes it, and then shown
to decide either equality of whole records or equality of their shapes. */
module BtfEqual {
  import opened BtfTypes
  import opened Words

  function At(r: Rec, i: nat): u32 { if i < |r| then r[i] else 0 }

  predicate EqualCommon(a: Rec, b: Rec) { a[0] == b[0] && a[1] == b[1] && a[2] == b[2] }

  predicate EqualIntTag(a: Rec, b: Rec) { EqualCommon(a, b) && At(a, 3) == At(b, 3) }

  ghost predicate EqualEnum(a: Rec, b: Rec) {
    EqualCommon(a, b)
    && forall i :: 0 <= i < Vlen(a) ==> At(a, 3 + 2 * i) == At(b, 3 + 2 * i) && At(a, 4 + 2 * i) == At(b, 4 + 2 * i)
  }

  ghost predicate EqualEnum64(a: Rec, b: Rec) {
    EqualCommon(a, b)
    && forall i :: 0 <= i < Vlen(a) ==>
         && At(a, 3 + 3 * i) == At(b, 3 + 3 * i) && At(a, 4 + 3 * i) == At(b, 4 + 3 * i)
         && At(a, 5 + 3 * i) == At(b, 5 + 3 * i)
  }

  ghost predicate ShallowEqualStruct(a: Rec, b: Rec) {
    EqualCommon(a, b)
    && forall i :: 0 <= i < Vlen(a) ==> At(a, 3 + 3 * i) == At(b, 3 + 3 * i) && At(a, 5 + 3 * i) == At(b, 5 + 3 * i)
  }

  predicate EqualArray(a: Rec, b: Rec) {
    EqualCommon(a, b) && At(a, 3) == At(b, 3) && At(a, 4) == At(b, 4) && At(a, 5) == At(b, 5)
  }

  predicate CompatArray(a: Rec, b: Rec) { EqualCommon(a, b) && At(a, 5) == At(b, 5) }

  ghost predicate EqualFnproto(a: Rec, b: Rec) {
    EqualCommon(a, b)
    && forall i :: 0 <= i < Vlen(a) ==> At(a, 3 + 2 * i) == At(b, 3 + 2 * i) && At(a, 4 + 2 * i) == At(b, 4 + 2 * i)
  }

  ghost predicate CompatFnproto(a: Rec, b: Rec) {
    a[0] == b[0] && a[1] == b[1]
    && forall i :: 0 <= i < Vlen(a) ==> At(a, 3 + 2 * i) == At(b, 3 + 2 * i)
  }

  predicate IsEnumFwd(r: Rec) { IsAnyEnum(r) && Vlen(r) == 0 }

  /** The enum comparison that ignores vlen. */
  predicate SameEnumHeader(a: Rec, b: Rec) {
    a[0] == b[0] && a[1] - Vlen(a) == b[1] - Vlen(b) && a[2] == b[2]
  }

  ghost predicate CompatEnum(a: Rec, b: Rec) {
    if !IsEnumFwd(a) && !IsEnumFwd(b) then EqualEnum(a, b) else SameEnumHeader(a, b)
  }

  ghost predicate CompatEnum64(a: Rec, b: Rec) {
    if !IsEnumFwd(a) && !IsEnumFwd(b) then EqualEnum64(a, b) else SameEnumHeader(a, b)
  }

  /** The exact comparison dedup makes for a type of a's kind. */
  ghost predicate EqualForKind(a: Rec, b: Rec) {
    var kind := Kind(a);
    if kind == KIND_INT || kind == KIND_DECL_TAG then EqualIntTag(a, b)
    else if kind == KIND_ENUM then EqualEnum(a, b)
    else if kind == KIND_ENUM64 then EqualEnum64(a, b)
    else if kind == KIND_ARRAY then EqualArray(a, b)
    else if kind == KIND_FUNC_PROTO then EqualFnproto(a, b)
    else EqualCommon(a, b)
  }

  predicate HasExactEquality(kind: nat) {
    IsPlainRefKind(kind) || kind in {KIND_INT, KIND_FWD, KIND_FLOAT, KIND_ENUM, KIND_ENUM64,
                                     KIND_DECL_TAG, KIND_ARRAY, KIND_FUNC_PROTO}
  }

  /** The comparison that ignores referenced ids, for a type of a's kind. */
  ghost predicate ShapeTestForKind(a: Rec, b: Rec) {
    var kind := Kind(a);
    if kind == KIND_STRUCT || kind == KIND_UNION then ShallowEqualStruct(a, b)
    else if kind == KIND_ARRAY then CompatArray(a, b)
    else if kind == KIND_FUNC_PROTO then CompatFnproto(a, b)
    else a[0] == b[0] && a[1] == b[1]
  }

  predicate HasShapeTest(kind: nat) {
    IsPlainRefKind(kind) || kind in {KIND_STRUCT, KIND_UNION, KIND_ARRAY, KIND_FUNC_PROTO}
  }

  /** The exact comparison of each kind holds only of identical records. */
  lemma ExactEqualityIsIdentity(a: Rec, b: Rec)
    requires WfRec(a) && WfRec(b) && HasExactEquality(Kind(a))
    ensures EqualForKind(a, b) <==> a == b
  {
    if EqualForKind(a, b) {
      forall i | 3 <= i < |a|
        ensures a[i] == b[i]
      {
        if Kind(a) == KIND_ENUM64 {
          assert i == 3 + 3 * ((i - 3) / 3) + (i - 3) % 3;
          assert At(a, 3 + 3 * ((i - 3) / 3)) == At(b, 3 + 3 * ((i - 3) / 3));
        } else {
          assert i == 3 + 2 * ((i - 3) / 2) + (i - 3) % 2;
          assert Kind(a) == KIND_ENUM || Kind(a) == KIND_FUNC_PROTO
                 ==> At(a, 3 + 2 * ((i - 3) / 2)) == At(b, 3 + 2 * ((i - 3) / 2));
        }
      }
    }
  }

  /** The comparisons that ignore referenced ids decide equality of shapes. */
  lemma ShapeTestIsSameShape(a: Rec, b: Rec)
    requires WfRec(a) && WfRec(b) && HasShapeTest(Kind(a))
    ensures ShapeTestForKind(a, b) <==> SameShape(a, b)
  {
    if ShapeTestForKind(a, b) {
      forall i | 0 <= i < |a| && !IsRefPos(a, i)
        ensures a[i] == b[i]
      {
        if IsComposite(a) && i >= 3 {
          assert i == 3 + 3 * ((i - 3) / 3) + (i - 3) % 3;
          assert At(a, 3 + 3 * ((i - 3) / 3)) == At(b, 3 + 3 * ((i - 3) / 3));
        } else if Kind(a) == KIND_FUNC_PROTO && i >= 3 {
          assert i == 3 + 2 * ((i - 3) / 2) + (i - 3) % 2;
          assert At(a, 3 + 2 * ((i - 3) / 2)) == At(b, 3 + 2 * ((i - 3) / 2));
        }
      }
    }
  }

  /** Enums with members compare compatible only when equal. */
  lemma FullEnumsCompatAreEqual(a: Rec, b: Rec)
    requires !IsEnumFwd(a) && !IsEnumFwd(b)
    ensures CompatEnum(a, b) <==> EqualEnum(a, b)
    ensures CompatEnum64(a, b) <==> EqualEnum64(a, b)
  {
  }

  // ---- the comparison loops ----

  method BtfEqualEnum(a: Rec, b: Rec) returns (eq: bool)
    ensures eq == EqualEnum(a, b)
  {
    if !EqualCommon(a, b) { return false; }
    var i := 0;
    while i < Vlen(a)
      invariant 0 <= i <= Vlen(a)
      invariant forall j :: 0 <= j < i ==> At(a, 3 + 2 * j) == At(b, 3 + 2 * j) && At(a, 4 + 2 * j) == At(b, 4 + 2 * j)
    {
      if At(a, 3 + 2 * i) != At(b, 3 + 2 * i) || At(a, 4 + 2 * i) != At(b, 4 + 2 * i) { return false; }
      i := i + 1;
    }
    return true;
  }

  method BtfEqualEnum64(a: Rec, b: Rec) returns (eq: bool)
    ensures eq == EqualEnum64(a, b)
  {
    if !EqualCommon(a, b) { return false; }
    var i := 0;
    while i < Vlen(a)
      invariant 0 <= i <= Vlen(a)
      invariant forall j :: 0 <= j < i ==>
                  && At(a, 3 + 3 * j) == At(b, 3 + 3 * j) && At(a, 4 + 3 * j) == At(b, 4 + 3 * j)
                  && At(a, 5 + 3 * j) == At(b, 5 + 3 * j)
    {
      if At(a, 3 + 3 * i) != At(b, 3 + 3 * i) || At(a, 4 + 3 * i) != At(b, 4 + 3 * i)
         || At(a, 5 + 3 * i) != At(b, 5 + 3 * i) { return false; }
      i := i + 1;
    }
    return true;
  }

  method BtfShallowEqualStruct(a: Rec, b: Rec) returns (eq: bool)
    ensures eq == ShallowEqualStruct(a, b)
  {
    if !EqualCommon(a, b) { return false; }
    var i := 0;
    while i < Vlen(a)
      invariant 0 <= i <= Vlen(a)
      invariant forall j :: 0 <= j < i ==> At(a, 3 + 3 * j) == At(b, 3 + 3 * j) && At(a, 5 + 3 * j) == At(b, 5 + 3 * j)
    {
      if At(a, 3 + 3 * i) != At(b, 3 + 3 * i) || At(a, 5 + 3 * i) != At(b, 5 + 3 * i) { return false; }
      i := i + 1;
    }
    return true;
  }

  method BtfEqualFnproto(a: Rec, b: Rec) returns (eq: bool)
    ensures eq == EqualFnproto(a, b)
  {
    if !EqualCommon(a, b) { return false; }
    var i := 0;
    while i < Vlen(a)
      invariant 0 <= i <= Vlen(a)
      invariant forall j :: 0 <= j < i ==> At(a, 3 + 2 * j) == At(b, 3 + 2 * j) && At(a, 4 + 2 * j) == At(b, 4 + 2 * j)
    {
      if At(a, 3 + 2 * i) != At(b, 3 + 2 * i) || At(a, 4 + 2 * i) != At(b, 4 + 2 * i) { return false; }
      i := i + 1;
    }
    return true;
  }

  method BtfCompatFnproto(a: Rec, b: Rec) returns (eq: bool)
    ensures eq == CompatFnproto(a, b)
  {
    if a[0] != b[0] || a[1] != b[1] { return false; }
    var i := 0;
    while i < Vlen(a)
      invariant 0 <= i <= Vlen(a)
      invariant forall j :: 0 <= j < i ==> At(a, 3 + 2 * j) == At(b, 3 + 2 * j)
    {
      if At(a, 3 + 2 * i) != At(b, 3 + 2 * i) { return false; }
      i := i + 1;
    }
    return true;
  }

  method BtfCompatEnum(a: Rec, b: Rec) returns (eq: bool)
    ensures eq == CompatEnum(a, b)
  {
    if !IsEnumFwd(a) && !IsEnumFwd(b) { eq := BtfEqualEnum(a, b); return; }
    return SameEnumHeader(a, b);
  }

  method BtfCompatEnum64(a: Rec, b: Rec) returns (eq: bool)
    ensures eq == CompatEnum64(a, b)
  {
    if !IsEnumFwd(a) && !IsEnumFwd(b) { eq := BtfEqualEnum64(a, b); return; }
    return SameEnumHeader(a, b);
  }

  // ---- signature hashes, as the residues a 64-bit `long` holds ----

  type long = u64

  function HashCombine(h: long, value: u32): long { Wrap64(h * 31 + value) }

  function HashCommon(r: Rec): long { HashCombine(HashCombine(HashCombine(0, r[0]), r[1]), r[2]) }

  function HashIntDeclTag(r: Rec): long { HashCombine(HashCommon(r), At(r, 3)) }

  function HashEnum(r: Rec): long { HashCombine(HashCombine(HashCombine(0, r[0]), r[1] - r[1] % 0x1_0000), r[2]) }

  function HashArray(r: Rec): long {
    HashCombine(HashCombine(HashCombine(HashCommon(r), At(r, 3)), At(r, 4)), At(r, 5))
  }

  /** The hash after the first n members: names and bit offsets, no type ids. */
  ghost function HashMembers(r: Rec, n: nat): long {
    if n == 0 then HashCommon(r)
    else HashCombine(HashCombine(HashMembers(r, n - 1), At(r, 3 + 3 * (n - 1))), At(r, 5 + 3 * (n - 1)))
  }

  ghost function HashParams(r: Rec, n: nat): long {
    if n == 0 then HashCommon(r)
    else HashCombine(HashCombine(HashParams(r, n - 1), At(r, 3 + 2 * (n - 1))), At(r, 4 + 2 * (n - 1)))
  }

  method BtfHashStruct(r: Rec) returns (h: long)
    ensures h == HashMembers(r, Vlen(r))
  {
    h := HashCommon(r);
    var i := 0;
    while i < Vlen(r)
      invariant 0 <= i <= Vlen(r) && h == HashMembers(r, i)
    {
      h := HashCombine(h, At(r, 3 + 3 * i));
      h := HashCombine(h, At(r, 5 + 3 * i));
      i := i + 1;
    }
  }

  method BtfHashFnproto(r: Rec) returns (h: long)
    ensures h == HashParams(r, Vlen(r))
  {
    h := HashCommon(r);
    var i := 0;
    while i < Vlen(r)
      invariant 0 <= i <= Vlen(r) && h == HashParams(r, i)
    {
      h := HashCombine(h, At(r, 3 + 2 * i));
      h := HashCombine(h, At(r, 4 + 2 * i));
      i := i + 1;
    }
  }

  /** The signature hash dedup files a type under. */
  ghost function SignatureHash(r: Rec): long {
    var kind := Kind(r);
    if kind == KIND_INT || kind == KIND_DECL_TAG then HashIntDeclTag(r)
    else if kind == KIND_ENUM || kind == KIND_ENUM64 then HashEnum(r)
    else if kind == KIND_STRUCT || kind == KIND_UNION then HashMembers(r, Vlen(r))
    else if kind == KIND_ARRAY then HashArray(r)
    else if kind == KIND_FUNC_PROTO then HashParams(r, Vlen(r))
    else HashCommon(r)
  }

  lemma {:induction false} MembersHashAlike(a: Rec, b: Rec, n: nat)
    requires ShallowEqualStruct(a, b) && n <= Vlen(a)
    ensures HashMembers(a, n) == HashMembers(b, n)
  {
    if n > 0 {
      MembersHashAlike(a, b, n - 1);
      assert At(a, 3 + 3 * (n - 1)) == At(b, 3 + 3 * (n - 1));
    }
  }

  /** Records that dedup could merge are filed under the same signature hash: structs
      that agree on everything but type ids, and enums that differ at most in having members. */
  lemma MergeableHashAlike(a: Rec, b: Rec)
    requires WfRec(a) && WfRec(b)
    ensures IsComposite(a) && ShallowEqualStruct(a, b) ==> SignatureHash(a) == SignatureHash(b)
    ensures IsAnyEnum(a) && SameEnumHeader(a, b) ==> SignatureHash(a) == SignatureHash(b)
    ensures HasExactEquality(Kind(a)) && EqualForKind(a, b) ==> SignatureHash(a) == SignatureHash(b)
  {
    if IsComposite(a) && ShallowEqualStruct(a, b) {
      MembersHashAlike(a, b, Vlen(a));
    }
    if IsAnyEnum(a) && SameEnumHeader(a, b) {
      KindIgnoresVlen(a, b);
    }
    if HasExactEquality(Kind(a)) {
      ExactEqualityIsIdentity(a, b);
    }
  }

  lemma KindIgnoresVlen(a: Rec, b: Rec)
    requires SameEnumHeader(a, b)
    ensures Kind(a) == Kind(b)
  {
  }

  /** The hash each pass computes for a type, by kind. */
  method BtfHash(r: Rec) returns (h: long)
    ensures h == SignatureHash(r)
  {
    var kind := Kind(r);
    if kind == KIND_INT || kind == KIND_DECL_TAG { h := HashIntDeclTag(r); }
    else if kind == KIND_ENUM || kind == KIND_ENUM64 { h := HashEnum(r); }
    else if kind == KIND_STRUCT || kind == KIND_UNION { h := BtfHashStruct(r); }
    else if kind == KIND_ARRAY { h := HashArray(r); }
    else if kind == KIND_FUNC_PROTO { h := BtfHashFnproto(r); }
    else { h := HashCommon(r); }
  }

  /** The exact comparison each pass makes, by kind. */
  method ExactEqual(a: Rec, b: Rec) returns (eq: bool)
    ensures eq == EqualForKind(a, b)
  {
    var kind := Kind(a);
    if kind == KIND_INT || kind == KIND_DECL_TAG { eq := EqualIntTag(a, b); }
    else if kind == KIND_ENUM { eq := BtfEqualEnum(a, b); }
    else if kind == KIND_ENUM64 { eq := BtfEqualEnum64(a, b); }
    else if kind == KIND_ARRAY { eq := EqualArray(a, b); }
    else if kind == KIND_FUNC_PROTO { eq := BtfEqualFnproto(a, b); }
    else { eq := EqualCommon(a, b); }
  }

  ghost predicate CompatForKind(a: Rec, b: Rec) {
    if Kind(a) == KIND_ENUM then CompatEnum(a, b) else CompatEnum64(a, b)
  }

  method CompatEnums(a: Rec, b: Rec) returns (eq: bool)
    requires IsAnyEnum(a)
    ensures eq == CompatForKind(a, b)
  {
    if Kind(a) == KIND_ENUM { eq := BtfCompatEnum(a, b); } else { eq := BtfCompatEnum64(a, b); }
  }

  /** Enums that are compatible without being equal: one of the two has no members, and only one. */
  lemma CompatNotEqual(a: Rec, b: Rec)
    requires WfRec(a) && WfRec(b) && IsAnyEnum(a) && CompatForKind(a, b) && a != b
    ensures SameEnumHeader(a, b) && Kind(a) == Kind(b) && (IsEnumFwd(a) <==> !IsEnumFwd(b))
  {
    ExactEqualityIsIdentity(a, b);
    if !IsEnumFwd(a) && !IsEnumFwd(b) {
      FullEnumsCompatAreEqual(a, b);
    } else {
      KindIgnoresVlen(a, b);
    }
  }
}
