/** The frontier `cola_prioridad` of `GraphWindow.dijkstra`: a list of
    (tentative distance, node) pairs that is sorted before each round and
    whose first element is popped. Because the list is sorted again before
    every pop, only the element taken out matters, not the order the rest is
    left in; `PopMin` takes out the least pair under Python's tuple order. */
module Frontier {
  import opened Graphs

  /** A frontier entry (dist_nueva, vecino). */
  type Entry = (nat, Node)

  /** Python's `<` on `str`: lexicographic by code point, a proper prefix
      before the longer string. */
  predicate StrLt(a: string, b: string)
    decreases |a|
  {
    if |a| == 0 then |b| > 0
    else if |b| == 0 then false
    else a[0] < b[0] || (a[0] == b[0] && StrLt(a[1..], b[1..]))
  }

  /** Python's `<` on a (number, str) tuple: by distance, then by node. */
  predicate EntryLt(a: Entry, b: Entry)
  {
    a.0 < b.0 || (a.0 == b.0 && StrLt(a.1, b.1))
  }

  lemma {:induction false} StrLtIrreflexive(a: string)
    ensures !StrLt(a, a)
    decreases |a|
  {
    if |a| > 0 {
      StrLtIrreflexive(a[1..]);
    }
  }

  lemma {:induction false} StrLtTransitive(a: string, b: string, c: string)
    requires StrLt(a, b) && StrLt(b, c)
    ensures StrLt(a, c)
    decreases |a|
  {
    if |a| > 0 && a[0] == b[0] && b[0] == c[0] {
      StrLtTransitive(a[1..], b[1..], c[1..]);
    }
  }

  /** Any two different strings are ordered one way or the other. */
  lemma {:induction false} StrLtTotal(a: string, b: string)
    ensures a == b || StrLt(a, b) || StrLt(b, a)
    decreases |a|
  {
    if |a| > 0 && |b| > 0 && a[0] == b[0] {
      StrLtTotal(a[1..], b[1..]);
      if a[1..] == b[1..] {
        assert a == [a[0]] + a[1..] && b == [b[0]] + b[1..];
      }
    }
  }

  lemma EntryLtIrreflexive(a: Entry)
    ensures !EntryLt(a, a)
  {
    StrLtIrreflexive(a.1);
  }

  lemma EntryLtTransitive(a: Entry, b: Entry, c: Entry)
    requires EntryLt(a, b) && EntryLt(b, c)
    ensures EntryLt(a, c)
  {
    if a.0 == b.0 && b.0 == c.0 {
      StrLtTransitive(a.1, b.1, c.1);
    }
  }

  /** `e` is a least entry of `q`: no entry of `q` sorts before it. */
  ghost predicate IsLeast(q: seq<Entry>, e: Entry)
  {
    e in q && forall x :: x in q ==> !EntryLt(x, e)
  }

  /** The tuple order is total, so the first element after sorting is
      determined by the contents of the list alone. */
  lemma LeastUnique(q: seq<Entry>, e1: Entry, e2: Entry)
    requires IsLeast(q, e1) && IsLeast(q, e2)
    ensures e1 == e2
  {
    StrLtTotal(e1.1, e2.1);
  }

  /** `cola_prioridad.sort()` followed by `cola_prioridad.pop(0)`: returns
      the least entry and the frontier without one copy of it. */
  method PopMin(q: seq<Entry>) returns (e: Entry, rest: seq<Entry>)
    requires |q| > 0
    ensures IsLeast(q, e)
    ensures forall x :: x in q ==> e.0 <= x.0
    ensures multiset(rest) == multiset(q) - multiset{e} && |rest| == |q| - 1
    ensures forall x :: x in rest ==> x in q
    ensures forall x :: x in q && x != e ==> x in rest
  {
    var m := 0;
    EntryLtIrreflexive(q[0]);
    for i := 1 to |q|
      invariant m < i
      invariant forall j :: 0 <= j < i ==> !EntryLt(q[j], q[m])
    {
      if EntryLt(q[i], q[m]) {
        forall j | 0 <= j <= i
          ensures !EntryLt(q[j], q[i])
        {
          EntryLtIrreflexive(q[i]);
          if EntryLt(q[j], q[i]) {
            EntryLtTransitive(q[j], q[i], q[m]);
          }
        }
        m := i;
      }
    }
    e := q[m];
    rest := q[..m] + q[m + 1..];
    assert q == q[..m] + [e] + q[m + 1..];
    assert multiset(q) == multiset(rest) + multiset{e};
    forall x | x in q && x != e
      ensures x in rest
    {
      assert x in multiset(q);
    }
  }
}
