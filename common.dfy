/** Shared vocabulary: optional values, results, and facts about sequences used as Python lists and sets. */
module Common {

  datatype Option<T> = None | Some(value: T)

  datatype Result<T, E> = Ok(value: T) | Err(error: E)

  function Min(a: int, b: int): int {
    if a <= b then a else b
  }

  /** Python's `sum(xs)`. */
  function Sum(xs: seq<int>): int {
    if xs == [] then 0 else Sum(xs[..|xs| - 1]) + xs[|xs| - 1]
  }

  /** Python's `s.index(x)`: the position of the first occurrence of `x`. */
  function IndexOf<T(==)>(s: seq<T>, x: T): (i: nat)
    requires x in s
    ensures i < |s| && s[i] == x && x !in s[..i]
  {
    if s[0] == x then 0 else 1 + IndexOf(s[1..], x)
  }

  /** Python's `set(xs)`. */
  function Elems<T>(s: seq<T>): set<T> {
    set x | x in s
  }

  /** No element occurs twice. */
  predicate NoDup<T(==)>(s: seq<T>) {
    forall i, j :: 0 <= i < j < |s| ==> s[i] != s[j]
  }

  /** Drops repeated elements and keeps the first occurrence of each. */
  function Dedup<T(==)>(s: seq<T>): (r: seq<T>)
    ensures Elems(r) == Elems(s)
    ensures NoDup(r)
  {
    if s == [] then []
    else
      var r := Dedup(s[..|s| - 1]);
      assert s == s[..|s| - 1] + [s[|s| - 1]];
      ElemsAppend(s[..|s| - 1], [s[|s| - 1]]);
      ElemsAppend(r, [s[|s| - 1]]);
      if s[|s| - 1] in r then r else r + [s[|s| - 1]]
  }

  /** Appending an element keeps it when it is new and drops it when it is a repeat. */
  lemma DedupSnoc<T>(s: seq<T>, x: T)
    ensures Dedup(s + [x]) == if x in Dedup(s) then Dedup(s) else Dedup(s) + [x]
  {
    assert (s + [x])[..|s|] == s;
  }

  lemma ElemsNil<T>()
    ensures Elems<T>([]) == {}
  {
  }

  lemma ElemsAppend<T>(a: seq<T>, b: seq<T>)
    ensures Elems(a + b) == Elems(a) + Elems(b)
  {
    forall x ensures x in Elems(a + b) <==> x in Elems(a) + Elems(b) {
      assert x in a + b <==> x in a || x in b;
    }
  }

  lemma NoDupAppend<T>(a: seq<T>, b: seq<T>)
    requires NoDup(a) && NoDup(b)
    requires forall x :: x in a ==> x !in b
    ensures NoDup(a + b)
  {
    forall i, j | 0 <= i < j < |a + b|
      ensures (a + b)[i] != (a + b)[j]
    {
      if j >= |a| && i < |a| {
        assert (a + b)[i] in a && (a + b)[j] in b;
      }
    }
  }

  /** A list without repeats has as many distinct elements as entries; a list with repeats has fewer. */
  lemma {:induction false} ElemsCard<T>(s: seq<T>)
    ensures |Elems(s)| <= |s|
    ensures NoDup(s) <==> |Elems(s)| == |s|
  {
    if s != [] {
      var p, x := s[..|s| - 1], s[|s| - 1];
      assert s == p + [x];
      ElemsCard(p);
      assert Elems(s) == Elems(p) + {x};
      if x in p {
        assert Elems(s) == Elems(p);
        var i :| 0 <= i < |p| && p[i] == x;
        assert s[i] == s[|s| - 1];
      } else {
        assert |Elems(s)| == |Elems(p)| + 1;
        if NoDup(p) {
          forall i, j | 0 <= i < j < |s| ensures s[i] != s[j] {
            if j == |s| - 1 { assert s[i] in p; }
            else { assert s[i] == p[i] && s[j] == p[j]; }
          }
        } else {
          var i, j :| 0 <= i < j < |p| && p[i] == p[j];
          assert s[i] == s[j];
        }
      }
    }
  }

  /** Reordering a list keeps its elements and, with them, the absence of repeats. */
  lemma PermutationFacts<T>(a: seq<T>, b: seq<T>)
    requires multiset(a) == multiset(b)
    ensures |a| == |b|
    ensures Elems(a) == Elems(b)
    ensures NoDup(a) ==> NoDup(b)
  {
    assert |a| == |multiset(a)| == |multiset(b)| == |b|;
    forall x ensures x in Elems(a) <==> x in Elems(b) {
      assert x in a <==> x in multiset(a);
      assert x in b <==> x in multiset(b);
    }
    ElemsCard(a);
    ElemsCard(b);
  }

  /** A list without repeats whose elements lie in a set of its own size enumerates that set. */
  lemma NoDupCovers<T>(s: seq<T>, pool: set<T>)
    requires NoDup(s) && Elems(s) <= pool && |s| == |pool|
    ensures Elems(s) == pool
  {
    ElemsCard(s);
    assert pool == Elems(s) + (pool - Elems(s));
    assert |pool| == |Elems(s)| + |pool - Elems(s)|;
  }
}
