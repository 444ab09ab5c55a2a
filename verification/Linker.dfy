/** Global symbol resolution of the static linker (linker.c, lines 1250-1284 and 1780-1995). */
module Linker {

  const EINVAL := -22
  const SHN_UNDEF := 0

  datatype Bind = Local | Weak | Global

  /** The section a symbol ends up in, and where the part of its file starts in it. */
  datatype Section = NoSection | Section(id: nat, idx: nat, off: nat)

  /** One symbol table entry of one object file. */
  datatype Sym = Sym(name: string, bind: Bind, vis: nat, typ: nat, isExtern: bool, sec: Section, value: nat, size: nat)

  /** An entry of the output's symbol table. */
  datatype DstSym = DstSym(name: string, bind: Bind, vis: nat, typ: nat, shndx: nat, value: nat, size: nat)

  datatype GlobSym = GlobSym(name: string, symIdx: nat, secId: nat, isExtern: bool, isWeak: bool)

  /** A definition lies in a section; a symbol without one is an extern. */
  predicate WfSym(s: Sym) {
    (!s.isExtern ==> s.sec.Section?) && (s.bind == Local ==> !s.isExtern)
  }

  // ---- what a run of occurrences resolves to ----

  predicate IsDef(s: Sym) { !s.isExtern }

  predicate IsStrongDef(s: Sym) { !s.isExtern && s.bind == Global }

  ghost predicate AllWeak(occ: seq<Sym>) {
    forall i :: 0 <= i < |occ| ==> occ[i].bind == Weak
  }

  ghost predicate NoDef(occ: seq<Sym>) {
    forall i :: 0 <= i < |occ| ==> !IsDef(occ[i])
  }

  /** The rule of the documentation: at most one strong definition. */
  ghost predicate OneStrongDef(occ: seq<Sym>) {
    forall i, j :: 0 <= i < j < |occ| ==> !(IsStrongDef(occ[i]) && IsStrongDef(occ[j]))
  }

  /** The rule of the code: a strong definition comes after no other definition, unless all that
      came before was weak. */
  ghost predicate Admissible(occ: seq<Sym>) {
    forall i :: 0 <= i < |occ| && IsStrongDef(occ[i]) ==> NoDef(occ[..i]) || AllWeak(occ[..i])
  }

  /** The occurrence that decides section, value, size and type: the strong definition if there is
      one, else the first definition, else the first occurrence. */
  function Winner(occ: seq<Sym>): (w: nat)
    requires occ != []
    ensures w < |occ|
    ensures (exists i :: 0 <= i < |occ| && IsStrongDef(occ[i])) ==> IsStrongDef(occ[w])
    ensures (exists i :: 0 <= i < |occ| && IsDef(occ[i])) ==> IsDef(occ[w])
    ensures forall i :: 0 <= i < w ==> !IsStrongDef(occ[i])
    ensures !IsStrongDef(occ[w]) ==> forall i :: 0 <= i < w ==> !IsDef(occ[i])
    ensures !IsDef(occ[w]) ==> w == 0
  {
    var n := |occ| - 1;
    if n == 0 then 0
    else
      var w := Winner(occ[..n]);
      assert forall i :: 0 <= i < n ==> occ[..n][i] == occ[i];
      if IsStrongDef(occ[w]) then w
      else if IsStrongDef(occ[n]) || (IsDef(occ[n]) && !IsDef(occ[w])) then n
      else w
  }

  function MaxVis(occ: seq<Sym>): (v: nat)
    ensures forall i :: 0 <= i < |occ| ==> occ[i].vis <= v
    ensures occ != [] ==> exists i :: 0 <= i < |occ| && occ[i].vis == v
  {
    if occ == [] then 0
    else
      var n := |occ| - 1;
      var v := MaxVis(occ[..n]);
      assert forall i :: 0 <= i < n ==> occ[..n][i] == occ[i];
      if occ[n].vis > v then occ[n].vis
      else
        assert n > 0 ==> exists i :: 0 <= i < n && occ[i].vis == v;
        assert n == 0 ==> occ[n].vis == v;
        v
  }

  /** GLOBAL exactly when some occurrence is. */
  ghost function BindOf(occ: seq<Sym>): Bind {
    if AllWeak(occ) then Weak else Global
  }

  function PlacedAt(s: Sym): (nat, nat) {
    if s.sec.Section? then (s.sec.idx, s.sec.off + s.value) else (SHN_UNDEF, s.value)
  }

  function SecId(s: Sym): nat {
    if s.sec.Section? then s.sec.id else 0
  }

  /** What the output should hold for a name. */
  ghost function Resolved(occ: seq<Sym>): DstSym
    requires occ != []
  {
    var w := occ[Winner(occ)];
    DstSym(occ[0].name, BindOf(occ), MaxVis(occ), w.typ, PlacedAt(w).0, PlacedAt(w).1, w.size)
  }

  ghost function ResolvedGlob(occ: seq<Sym>, symIdx: nat): GlobSym
    requires occ != []
  {
    var w := occ[Winner(occ)];
    GlobSym(occ[0].name, symIdx, SecId(w), w.isExtern, AllWeak(occ))
  }

  // ---- what that means ----

  /** On every admissible run, the strong definition is the only one and wins; without one, the
      first weak definition does. */
  lemma WinnerIsUnique(occ: seq<Sym>, i: nat)
    requires Admissible(occ) && i < |occ| && IsDef(occ[i])
    ensures IsStrongDef(occ[i]) ==> Winner(occ) == i && forall j :: 0 <= j < |occ| && IsStrongDef(occ[j]) ==> j == i
    ensures IsDef(occ[Winner(occ)])
    ensures NoStrongDef(occ) ==> Winner(occ) <= i
  {
    AdmissibleHasOneStrongDef(occ);
  }

  ghost predicate NoStrongDef(occ: seq<Sym>) {
    forall i :: 0 <= i < |occ| ==> !IsStrongDef(occ[i])
  }

  /** Once strongly defined, a symbol keeps its section, value, size and type. */
  lemma StrongDefinitionStays(occ: seq<Sym>, more: seq<Sym>, i: nat)
    requires Admissible(occ + more) && i < |occ| && IsStrongDef(occ[i])
    ensures Winner(occ + more) == Winner(occ) == i
    ensures var a, b := Resolved(occ), Resolved(occ + more);
            a.shndx == b.shndx && a.value == b.value && a.size == b.size && a.typ == b.typ
  {
    assert (occ + more)[i] == occ[i];
    PrefixAdmissible(occ, more);
    WinnerIsUnique(occ, i);
    WinnerIsUnique(occ + more, i);
  }

  lemma PrefixAdmissible(occ: seq<Sym>, more: seq<Sym>)
    requires Admissible(occ + more)
    ensures Admissible(occ)
  {
    forall i | 0 <= i < |occ| && IsStrongDef(occ[i])
      ensures NoDef(occ[..i]) || AllWeak(occ[..i])
    {
      assert (occ + more)[i] == occ[i] && (occ + more)[..i] == occ[..i];
    }
  }

  /** The documented rule is necessary. */
  lemma AdmissibleHasOneStrongDef(occ: seq<Sym>)
    requires Admissible(occ)
    ensures OneStrongDef(occ)
  {
    forall i, j | 0 <= i < j < |occ|
      ensures !(IsStrongDef(occ[i]) && IsStrongDef(occ[j]))
    {
      assert occ[..j][i] == occ[i];
    }
  }

  /** It is not sufficient: a weak definition and a strong extern, followed by the only strong
      definition, are refused; in another order they are accepted. */
  lemma OneStrongDefMayBeRefused(weakDef: Sym, strongExtern: Sym, strongDef: Sym)
    requires weakDef.bind == Weak && IsDef(weakDef) && strongExtern.bind == Global && !IsDef(strongExtern)
    requires IsStrongDef(strongDef)
    ensures OneStrongDef([weakDef, strongExtern, strongDef]) && !Admissible([weakDef, strongExtern, strongDef])
    ensures Admissible([strongDef, weakDef, strongExtern]) && Admissible([strongExtern, strongDef, weakDef])
  {
    var occ := [weakDef, strongExtern, strongDef];
    assert occ[..2][0] == weakDef && occ[..2][1] == strongExtern && IsStrongDef(occ[2]);
    var other := [strongExtern, strongDef, weakDef];
    assert other[..1] == [strongExtern];
  }

  /** The documented rule is the code's rule exactly when no strong definition comes late: after
      another definition and a strong occurrence that is not a definition. */
  lemma WhenRulesAgree(occ: seq<Sym>)
    requires forall i :: 0 <= i < |occ| ==> occ[i].bind != Local
    ensures Admissible(occ) <==> OneStrongDef(occ) && !LateDefinition(occ)
  {
    if Admissible(occ) {
      AdmissibleHasOneStrongDef(occ);
      forall i: nat, j: nat, k: nat | i < k && j < k && k < |occ|
        ensures !LateAt(occ, i, j, k)
      {
        assert occ[..k][i] == occ[i] && occ[..k][j] == occ[j];
      }
    } else {
      var k :| 0 <= k < |occ| && IsStrongDef(occ[k]) && !NoDef(occ[..k]) && !AllWeak(occ[..k]);
      var i :| 0 <= i < k && IsDef(occ[..k][i]);
      var j :| 0 <= j < k && occ[..k][j].bind != Weak;
      assert occ[..k][i] == occ[i] && occ[..k][j] == occ[j];
      if IsDef(occ[j]) {
        assert IsStrongDef(occ[j]);
      } else {
        assert LateAt(occ, i, j, k);
      }
    }
  }

  predicate LateAt(occ: seq<Sym>, i: nat, j: nat, k: nat) {
    && i < k && j < k && k < |occ| && IsStrongDef(occ[k])
    && IsDef(occ[i]) && !IsDef(occ[j]) && occ[j].bind == Global
  }

  ghost predicate LateDefinition(occ: seq<Sym>) {
    exists i: nat, j: nat, k: nat :: LateAt(occ, i, j, k)
  }

  // ---- one more occurrence ----

  lemma OneMore(occ: seq<Sym>, s: Sym)
    requires occ != []
    ensures var all, w := occ + [s], Winner(occ);
            && (AllWeak(all) <==> AllWeak(occ) && s.bind == Weak)
            && MaxVis(all) == (if s.vis > MaxVis(occ) then s.vis else MaxVis(occ))
            && all[0] == occ[0]
            && Winner(all)
               == if IsDef(s) && !IsStrongDef(occ[w]) && (IsStrongDef(s) || !IsDef(occ[w])) then |occ| else w
  {
    var all := occ + [s];
    assert all[..|occ|] == occ;
    if AllWeak(all) {
      assert forall i :: 0 <= i < |occ| ==> all[i] == occ[i];
      assert all[|occ|] == s;
    }
  }

  /** The conflict test of the code refuses exactly the occurrences that would not be admissible. */
  lemma OneMoreAdmissible(occ: seq<Sym>, s: Sym)
    requires occ != [] && Admissible(occ)
    ensures Admissible(occ + [s]) <==> !(IsDef(s) && IsDef(occ[Winner(occ)]) && !AllWeak(occ) && s.bind == Global)
  {
    var all := occ + [s];
    assert all[..|occ|] == occ && all[|occ|] == s;
    forall i | 0 <= i < |occ|
      ensures all[..i] == occ[..i] && all[i] == occ[i]
    {
    }
    if !NoDef(occ) {
      var i :| 0 <= i < |occ| && IsDef(occ[i]);
      assert IsDef(occ[Winner(occ)]);
    }
  }

  /** The occurrences of one global name among all symbols appended. */
  function OccOf(syms: seq<Sym>, name: string): seq<Sym> {
    if syms == [] then []
    else
      var n := |syms| - 1;
      OccOf(syms[..n], name) + if syms[n].bind != Local && syms[n].name == name then [syms[n]] else []
  }

  lemma OccSnoc(syms: seq<Sym>, s: Sym, name: string)
    ensures OccOf(syms + [s], name) == if s.bind != Local && s.name == name then OccOf(syms, name) + [s]
              else OccOf(syms, name)
  {
    assert (syms + [s])[..|syms|] == syms;
  }

  lemma {:induction false} OccAreNamed(syms: seq<Sym>, name: string)
    ensures forall i :: 0 <= i < |OccOf(syms, name)| ==>
              OccOf(syms, name)[i].name == name && OccOf(syms, name)[i].bind != Local
    decreases |syms|
  {
    if syms != [] {
      OccAreNamed(syms[..|syms| - 1], name);
    }
  }

  ghost predicate HasName(globs: seq<GlobSym>, name: string) {
    exists i :: 0 <= i < |globs| && globs[i].name == name
  }

  /** There is a global symbol for exactly the names that have occurred. */
  ghost predicate NamesOk(fed: seq<Sym>, globs: seq<GlobSym>) {
    forall name :: OccOf(fed, name) != [] <==> HasName(globs, name)
  }

  // ---- the linker ----

  class BpfLinker {
    /** The output's symbol table and its global symbols. */
    var syms: seq<DstSym>
    var globSyms: seq<GlobSym>

    /** All symbols appended so far. */
    ghost var fed: seq<Sym>

    ghost predicate Valid()
      reads this
    {
      && NamesOk(fed, globSyms)
      && (forall i, j :: 0 <= i < j < |globSyms| ==> globSyms[i].name != globSyms[j].name)
      && (forall i, j :: 0 <= i < j < |globSyms| ==> globSyms[i].symIdx != globSyms[j].symIdx)
      && (forall i :: 0 <= i < |globSyms| ==> GlobOk(fed, syms, globSyms[i]))
    }

    constructor ()
      ensures Valid() && syms == [] && globSyms == [] && fed == []
    {
      syms, globSyms, fed := [], [], [];
    }

    /** `find_glob_sym`. */
    method FindGlobSym(name: string) returns (i: nat)
      ensures i <= |globSyms| && forall j :: 0 <= j < i ==> globSyms[j].name != name
      ensures i < |globSyms| ==> globSyms[i].name == name
    {
      i := 0;
      while i < |globSyms|
        invariant i <= |globSyms| && forall j :: 0 <= j < i ==> globSyms[j].name != name
      {
        if globSyms[i].name == name { return; }
        i := i + 1;
      }
    }

    /** `linker_append_elf_sym`: the entry of the output that stands for the symbol, or -EINVAL and
        nothing changed.  typesMatch tells whether the types of the occurrence match those of the
        existing symbol. */
    method AppendElfSym(s: Sym, typesMatch: bool) returns (err: int, idx: nat)
      requires Valid() && WfSym(s)
      modifies this
      ensures Valid()
      ensures err == 0 <==> s.bind == Local || OccOf(old(fed), s.name) == []
                            || (typesMatch && Admissible(OccOf(old(fed), s.name) + [s]))
      ensures err == 0 ==> fed == old(fed) + [s] && idx < |syms| && syms[idx].name == s.name
      ensures err != 0 ==> err == EINVAL && fed == old(fed) && syms == old(syms) && globSyms == old(globSyms)
    {
      idx := 0;
      if s.bind != Local {
        var g := FindGlobSym(s.name);
        if g < |globSyms| {
          err, idx := MergeSym(s, typesMatch, g);
          return;
        }
      }
      idx := AddSym(s);
      err := 0;
    }

    /** `linker_append_elf_syms`: unless types differ, appending the symbols of a file succeeds
        exactly when all occurrences of every name, in this file and before, are admissible. */
    method AppendElfSyms(objSyms: seq<Sym>, typesMatch: seq<bool>) returns (err: int)
      requires Valid() && |typesMatch| == |objSyms| && forall i :: 0 <= i < |objSyms| ==> WfSym(objSyms[i])
      modifies this
      ensures Valid() && (err == 0 ==> fed == old(fed) + objSyms)
      ensures err == 0 ==> AllAdmissible(old(fed) + objSyms)
      ensures err != 0 && AllAdmissible(old(fed) + objSyms) ==> err == EINVAL && false in typesMatch
    {
      hide NamesOk, GlobOk, OccOf, Admissible, AllAdmissible;
      var i := 0;
      while i < |objSyms|
        invariant 0 <= i <= |objSyms| && Valid() && fed == old(fed) + objSyms[..i]
      {
        var idx;
        SplitAt(old(fed), objSyms, i);
        err, idx := AppendElfSym(objSyms[i], typesMatch[i]);
        if err != 0 {
          RefusedAt(fed, objSyms[i], objSyms[i + 1..]);
          return;
        }
        i := i + 1;
      }
      ValidIsAdmissible();
      assert old(fed) + objSyms == fed;
      err := 0;
    }

    lemma ValidIsAdmissible()
      requires Valid()
      ensures AllAdmissible(fed)
    {
      hide OccOf, Admissible;
      forall name
        ensures Admissible(OccOf(fed, name))
      {
        if OccOf(fed, name) == [] {
          NothingIsAdmissible();
        } else {
          var i :| 0 <= i < |globSyms| && globSyms[i].name == name;
          assert GlobOk(fed, syms, globSyms[i]);
        }
      }
    }

    /** The first occurrence of a global name, or a local symbol. */
    method AddSym(s: Sym) returns (idx: nat)
      requires Valid() && WfSym(s)
      requires s.bind == Local || forall i :: 0 <= i < |globSyms| ==> globSyms[i].name != s.name
      modifies this
      ensures Valid() && fed == old(fed) + [s] && idx < |syms| && syms[idx].name == s.name
      ensures s.bind != Local ==> OccOf(old(fed), s.name) == []
    {
      hide GlobOk, Resolved, ResolvedGlob, OccOf;
      idx := |syms|;
      ghost var fed0, syms0, globs0 := fed, syms, globSyms;
      syms := syms + [DstSym(s.name, s.bind, s.vis, s.typ, PlacedAt(s).0, PlacedAt(s).1, s.size)];
      if s.bind != Local {
        globSyms := globSyms + [GlobSym(s.name, idx, SecId(s), s.isExtern, s.bind == Weak)];
        FirstOccurrence(fed, syms, s, idx);
      }
      fed := fed + [s];
      forall i | 0 <= i < |globs0|
        ensures GlobOk(fed, syms, globs0[i]) && globs0[i].symIdx < idx
      {
        OtherGlob(fed0, syms0, syms, globs0[i], s);
      }
      if s.bind != Local {
        NamesGrow(fed0, globs0, s, globSyms[|globs0|]);
      } else {
        NamesStay(fed0, globs0, globs0, s);
      }
    }

    /** Another occurrence of a global name. */
    method MergeSym(s: Sym, typesMatch: bool, g: nat) returns (err: int, idx: nat)
      requires Valid() && WfSym(s) && s.bind != Local && g < |globSyms| && globSyms[g].name == s.name
      modifies this
      ensures Valid()
      ensures OccOf(old(fed), s.name) != []
      ensures err == 0 <==> typesMatch && Admissible(OccOf(old(fed), s.name) + [s])
      ensures err == 0 ==> fed == old(fed) + [s] && idx < |syms| && syms[idx].name == s.name
      ensures err != 0 ==> err == EINVAL && fed == old(fed) && syms == old(syms) && globSyms == old(globSyms)
    {
      hide GlobOk, Resolved, ResolvedGlob, OccOf, Admissible;
      var glob := globSyms[g];
      idx := glob.symIdx;
      MergeIsResolve(fed, syms, glob, s);
      if !s.isExtern && !glob.isExtern && !glob.isWeak && s.bind != Weak { return EINVAL, idx; }
      if !typesMatch { return EINVAL, idx; }
      var sym := syms[idx];
      if s.bind == Global {
        sym := sym.(bind := Global);
        glob := glob.(isWeak := false);
      }
      if s.vis > sym.vis {
        sym := sym.(vis := s.vis);
      }
      if !s.isExtern && (glob.isExtern || s.bind != Weak) {
        sym := sym.(typ := s.typ, shndx := s.sec.idx, value := s.sec.off + s.value, size := s.size);
        glob := glob.(secId := s.sec.id, isExtern := false);
      }
      ghost var fed0, syms0, globs0 := fed, syms, globSyms;
      syms := syms[idx := sym];
      globSyms := globSyms[g := glob];
      fed := fed + [s];
      forall i | 0 <= i < |globSyms| && i != g
        ensures GlobOk(fed, syms, globSyms[i])
      {
        OtherGlob(fed0, syms0, syms, globs0[i], s);
      }
      NamesStay(fed0, globs0, globSyms, s);
      err := 0;
    }
  }

  ghost predicate AllAdmissible(fed: seq<Sym>) {
    forall name :: Admissible(OccOf(fed, name))
  }

  lemma NothingIsAdmissible()
    ensures Admissible([])
  {
  }

  lemma {:induction false} OccConcat(a: seq<Sym>, b: seq<Sym>, name: string)
    ensures OccOf(a + b, name) == OccOf(a, name) + OccOf(b, name)
    decreases |b|
  {
    if b == [] {
      assert a + b == a;
    } else {
      var n := |b| - 1;
      OccConcat(a, b[..n], name);
      assert a + b[..n] + [b[n]] == a + b;
      OccSnoc(a + b[..n], b[n], name);
    }
  }

  lemma SplitAt(fed: seq<Sym>, objSyms: seq<Sym>, i: nat)
    requires i < |objSyms|
    ensures fed + objSyms == fed + objSyms[..i] + [objSyms[i]] + objSyms[i + 1..]
    ensures fed + objSyms[..i] + [objSyms[i]] == fed + objSyms[..i + 1]
  {
  }

  /** What is refused stays refused, whatever follows. */
  lemma RefusedAt(fed: seq<Sym>, s: Sym, more: seq<Sym>)
    requires s.bind != Local
    ensures !Admissible(OccOf(fed, s.name) + [s]) ==> !AllAdmissible(fed + [s] + more)
  {
    hide Admissible;
    OccSnoc(fed, s, s.name);
    OccConcat(fed + [s], more, s.name);
    if AllAdmissible(fed + [s] + more) {
      assert Admissible(OccOf(fed + [s] + more, s.name));
      PrefixAdmissible(OccOf(fed, s.name) + [s], OccOf(more, s.name));
    }
  }

  /** What a single occurrence resolves to. */
  lemma OneOccurrence(s: Sym)
    ensures Winner([s]) == 0 && MaxVis([s]) == s.vis && Admissible([s]) && (AllWeak([s]) <==> s.bind == Weak)
    ensures [s][0] == s
  {
    var occ := [s];
    assert occ[0] == s && occ[..0] == [];
    assert MaxVis(occ[..0]) == 0;
  }

  lemma FirstOccurrence(fed: seq<Sym>, syms: seq<DstSym>, s: Sym, idx: nat)
    requires s.bind != Local && OccOf(fed, s.name) == [] && idx < |syms|
    requires syms[idx] == DstSym(s.name, s.bind, s.vis, s.typ, PlacedAt(s).0, PlacedAt(s).1, s.size)
    ensures GlobOk(fed + [s], syms, GlobSym(s.name, idx, SecId(s), s.isExtern, s.bind == Weak))
  {
    hide OccOf, Winner, MaxVis, Admissible, AllWeak;
    OccSnoc(fed, s, s.name);
    assert [] + [s] == [s];
    OneOccurrence(s);
  }

  /** A global symbol of another name is as before. */
  lemma OtherGlob(fed: seq<Sym>, syms: seq<DstSym>, syms': seq<DstSym>, g: GlobSym, s: Sym)
    requires GlobOk(fed, syms, g) && (s.bind == Local || g.name != s.name)
    requires |syms| <= |syms'| && (g.symIdx < |syms| ==> syms'[g.symIdx] == syms[g.symIdx])
    ensures GlobOk(fed + [s], syms', g) && g.symIdx < |syms|
  {
    OccSnoc(fed, s, g.name);
  }

  lemma NamesStay(fed: seq<Sym>, globs: seq<GlobSym>, globs': seq<GlobSym>, s: Sym)
    requires NamesOk(fed, globs) && (s.bind == Local || HasName(globs, s.name))
    requires |globs'| == |globs| && forall i :: 0 <= i < |globs| ==> globs'[i].name == globs[i].name
    ensures NamesOk(fed + [s], globs')
  {
    hide OccOf;
    forall name
      ensures OccOf(fed + [s], name) != [] <==> HasName(globs', name)
    {
      OccSnoc(fed, s, name);
      assert HasName(globs, name) <==> HasName(globs', name);
    }
  }

  lemma NamesGrow(fed: seq<Sym>, globs: seq<GlobSym>, s: Sym, g: GlobSym)
    requires NamesOk(fed, globs) && s.bind != Local && g.name == s.name
    ensures NamesOk(fed + [s], globs + [g])
  {
    hide OccOf;
    forall name
      ensures OccOf(fed + [s], name) != [] <==> HasName(globs + [g], name)
    {
      OccSnoc(fed, s, name);
      NameSnoc(globs, g, name);
    }
  }

  lemma NameSnoc(globs: seq<GlobSym>, g: GlobSym, name: string)
    ensures HasName(globs + [g], name) <==> HasName(globs, name) || g.name == name
  {
    var all := globs + [g];
    assert all[|globs|] == g;
    if HasName(globs, name) {
      var i :| 0 <= i < |globs| && globs[i].name == name;
      assert all[i].name == name;
    }
  }

  /** What the code does to a symbol and its entry is what one more occurrence asks for. */
  lemma MergeIsResolve(fed: seq<Sym>, syms: seq<DstSym>, g: GlobSym, s: Sym)
    requires GlobOk(fed, syms, g) && WfSym(s) && s.bind != Local && g.name == s.name
    ensures g.symIdx < |syms| && OccOf(fed, s.name) != [] && syms[g.symIdx].name == s.name
    ensures Admissible(OccOf(fed, s.name) + [s]) <==> !(!s.isExtern && !g.isExtern && !g.isWeak && s.bind != Weak)
    ensures var d := syms[g.symIdx];
            var takes := !s.isExtern && (g.isExtern || s.bind != Weak);
            var d' := DstSym(d.name, if s.bind == Global then Global else d.bind,
                             if s.vis > d.vis then s.vis else d.vis,
                             if takes then s.typ else d.typ, if takes then s.sec.idx else d.shndx,
                             if takes then s.sec.off + s.value else d.value, if takes then s.size else d.size);
            var g' := GlobSym(g.name, g.symIdx, if takes then s.sec.id else g.secId,
                              if takes then false else g.isExtern, g.isWeak && s.bind != Global);
            Admissible(OccOf(fed, s.name) + [s]) ==> forall syms' :: |syms'| == |syms| && syms'[g.symIdx] == d' ==>
              GlobOk(fed + [s], syms', g')
  {
    hide MaxVis, Winner, OccOf, Admissible;
    var occ := OccOf(fed, s.name);
    OccSnoc(fed, s, s.name);
    OccAreNamed(fed, s.name);
    OneMore(occ, s);
    OneMoreAdmissible(occ, s);
  }

  /** A global symbol and its entry are what the occurrences of its name resolve to. */
  ghost predicate GlobOk(fed: seq<Sym>, syms: seq<DstSym>, g: GlobSym) {
    var occ := OccOf(fed, g.name);
    && occ != [] && Admissible(occ) && g.symIdx < |syms|
    && g == ResolvedGlob(occ, g.symIdx) && syms[g.symIdx] == Resolved(occ)
  }
}
