/** Sequences laid end to end. */
module Seqs {

  ghost function Flat<T>(parts: seq<seq<T>>): seq<T> {
    if parts == [] then [] else Flat(parts[..|parts| - 1]) + parts[|parts| - 1]
  }

  /** Where part i starts. */
  ghost function Start<T>(parts: seq<seq<T>>, i: nat): nat
    requires i <= |parts|
  {
    |Flat(parts[..i])|
  }

  lemma FlatSnoc<T>(parts: seq<seq<T>>, part: seq<T>)
    ensures Flat(parts + [part]) == Flat(parts) + part
  {
    assert (parts + [part])[..|parts|] == parts;
  }

  lemma {:induction false} FlatConcat<T>(a: seq<seq<T>>, b: seq<seq<T>>)
    ensures Flat(a + b) == Flat(a) + Flat(b)
    decreases |b|
  {
    if b == [] {
      assert a + b == a;
    } else {
      var init, last := b[..|b| - 1], b[|b| - 1];
      FlatConcat(a, init);
      assert (a + init) + [last] == a + b;
      FlatSnoc(a + init, last);
      Reassociate(Flat(a), Flat(init), last);
    }
  }

  lemma Reassociate<T>(a: seq<T>, b: seq<T>, c: seq<T>)
    ensures (a + b) + c == a + (b + c)
  {
  }

  lemma StartNext<T>(parts: seq<seq<T>>, i: nat)
    requires i < |parts|
    ensures Start(parts, i + 1) == Start(parts, i) + |parts[i]|
  {
    assert parts[..i + 1] == parts[..i] + [parts[i]];
    FlatSnoc(parts[..i], parts[i]);
  }

  lemma StartLast<T>(parts: seq<seq<T>>)
    ensures Start(parts, |parts|) == |Flat(parts)|
  {
    assert parts[..|parts|] == parts;
  }

  /** Part i is found at its start, and ends before the end of the whole. */
  lemma {:induction false} PartAt<T>(parts: seq<seq<T>>, i: nat)
    requires i < |parts|
    ensures Start(parts, i) + |parts[i]| <= |Flat(parts)|
    ensures Flat(parts)[Start(parts, i)..Start(parts, i) + |parts[i]|] == parts[i]
    decreases |parts|
  {
    var n := |parts| - 1;
    if i < n {
      PartAt(parts[..n], i);
      assert parts[..n][..i] == parts[..i];
      var s, e := Start(parts, i), Start(parts, i) + |parts[i]|;
      assert Flat(parts)[s..e] == Flat(parts[..n])[s..e];
    }
  }

  lemma {:induction false} FlatSet<T>(parts: seq<seq<T>>, i: nat, j: nat, v: T)
    requires i < |parts| && j < |parts[i]|
    ensures Start(parts, i) + j < |Flat(parts)|
    ensures Flat(parts[i := parts[i][j := v]]) == Flat(parts)[Start(parts, i) + j := v]
    decreases |parts|
  {
    var n := |parts| - 1;
    var after := parts[i := parts[i][j := v]];
    if i == n {
      assert after[..n] == parts[..n];
    } else {
      FlatSet(parts[..n], i, j, v);
      assert parts[..n][..i] == parts[..i];
      assert after[..n] == parts[..n][i := parts[i][j := v]];
    }
  }

  lemma {:induction false} StartSameLengths<T>(a: seq<seq<T>>, b: seq<seq<T>>, i: nat)
    requires |a| == |b| && i <= |a|
    requires forall k :: 0 <= k < i ==> |a[k]| == |b[k]|
    ensures Start(a, i) == Start(b, i)
    decreases i
  {
    if i > 0 {
      StartSameLengths(a, b, i - 1);
      StartNext(a, i - 1);
      StartNext(b, i - 1);
    }
  }

  lemma SliceOfSlice<T>(s: seq<T>, from: nat, to: nat, i: nat, j: nat)
    requires from <= to <= |s| && i <= j <= to - from
    ensures s[from..to][i..j] == s[from + i..from + j]
  {
    forall k | 0 <= k < j - i
      ensures s[from..to][i..j][k] == s[from + i..from + j][k]
    {
      assert s[from..to][i + k] == s[from + i + k];
    }
  }
}
