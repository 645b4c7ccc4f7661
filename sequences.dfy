/** Sequence helpers used by the link resolver: first and last positions of an
    element, duplicate-freedom, and first-occurrence deduplication (the order in
    which a Python list built with `if x not in xs: xs.append(x)` holds its items). */
module Sequences {

  predicate NoDup<T(==)>(s: seq<T>) {
    forall i, j :: 0 <= i < j < |s| ==> s[i] != s[j]
  }

  /** Position of the first occurrence of `x` in `s`. */
  function IndexOf<T(==)>(s: seq<T>, x: T): (i: nat)
    requires x in s
    ensures i < |s| && s[i] == x && x !in s[..i]
  {
    if s[0] == x then 0
    else
      var j := IndexOf(s[1..], x);
      assert s[..j + 1] == [s[0]] + s[1..][..j];
      1 + j
  }

  /** Position of the last occurrence of `x` in `s`. */
  function LastIndexOf<T(==)>(s: seq<T>, x: T): (i: nat)
    requires x in s
    ensures i < |s| && s[i] == x && x !in s[i + 1..]
  {
    if s[|s| - 1] == x then |s| - 1
    else
      var p := s[..|s| - 1];
      assert x in p by { var k :| 0 <= k < |s| && s[k] == x; assert p[k] == x; }
      var j := LastIndexOf(p, x);
      assert s[j + 1..] == p[j + 1..] + [s[|s| - 1]];
      j
  }

  lemma TakeSnoc<T>(s: seq<T>, i: nat)
    requires i < |s|
    ensures s[..i + 1] == s[..i] + [s[i]]
  {
  }

  /** `xs.append(x)` guarded by `x not in xs`. */
  function AddNew<T(==)>(s: seq<T>, x: T): seq<T> {
    if x in s then s else s + [x]
  }

  /** The distinct elements of `s`, each at the place of its first occurrence. */
  function Dedup<T(==)>(s: seq<T>): seq<T> {
    if s == [] then []
    else
      var p := s[..|s| - 1];
      if s[|s| - 1] in p then Dedup(p) else Dedup(p) + [s[|s| - 1]]
  }

  /** Deduplication keeps exactly the elements of its input. */
  lemma {:induction false} DedupMembers<T>(s: seq<T>, x: T)
    ensures x in Dedup(s) <==> x in s
  {
    if s != [] {
      var p := s[..|s| - 1];
      assert s == p + [s[|s| - 1]];
      DedupMembers(p, x);
    }
  }

  /** Deduplication leaves no element twice and never lengthens its input. */
  lemma {:induction false} DedupNoDup<T>(s: seq<T>)
    ensures NoDup(Dedup(s)) && |Dedup(s)| <= |s|
  {
    if s != [] {
      var p, z := s[..|s| - 1], s[|s| - 1];
      DedupNoDup(p);
      DedupMembers(p, z);
    }
  }

  lemma IndexOfSnoc<T>(s: seq<T>, z: T, x: T)
    requires x in s + [z]
    ensures x in s ==> IndexOf(s + [z], x) == IndexOf(s, x)
    ensures x !in s ==> x == z && IndexOf(s + [z], x) == |s|
  {
    var i := IndexOf(s + [z], x);
    assert (s + [z])[..i] == if i < |s| then s[..i] else s;
  }

  lemma LastIndexOfSnoc<T>(s: seq<T>, z: T, x: T)
    requires x in s + [z]
    ensures LastIndexOf(s + [z], x) == if x == z then |s| else LastIndexOf(s, x)
  {
  }

  /** Appending one element adds it at the end exactly when it is new. */
  lemma DedupSnoc<T>(s: seq<T>, x: T)
    ensures Dedup(s + [x]) == AddNew(Dedup(s), x)
  {
    assert (s + [x])[..|s|] == s;
    DedupMembers(s, x);
  }

  /** Deduplication keeps elements in the order of their first occurrence. */
  lemma {:induction false} DedupOrder<T>(s: seq<T>, x: T, y: T)
    requires x in s && y in s
    ensures x in Dedup(s) && y in Dedup(s)
    ensures IndexOf(Dedup(s), x) < IndexOf(Dedup(s), y) <==> IndexOf(s, x) < IndexOf(s, y)
  {
    DedupMembers(s, x);
    DedupMembers(s, y);
    var p, z := s[..|s| - 1], s[|s| - 1];
    assert s == p + [z];
    DedupSnoc(p, z);
    DedupMembers(p, x);
    DedupMembers(p, y);
    var d := Dedup(p);
    IndexOfSnoc(p, z, x);
    IndexOfSnoc(p, z, y);
    if x in p && y in p {
      DedupOrder(p, x, y);
      if z !in d {
        IndexOfSnoc(d, z, x);
        IndexOfSnoc(d, z, y);
      }
    } else if x in p {
      IndexOfSnoc(d, z, x);
      IndexOfSnoc(d, z, y);
    } else if y in p {
      IndexOfSnoc(d, z, x);
      IndexOfSnoc(d, z, y);
    }
  }
}
