/** Sequence utilities shared by the wordlist engine: first-occurrence
    deduplication against a growing `seen` set, and dropping empty strings. */
module Seqs {

  function Elems<T>(s: seq<T>): set<T>
  {
    set x | x in s
  }

  /** A sequence without repeats has as many distinct elements as entries. */
  lemma {:induction false} NoDupCard<T>(s: seq<T>)
    requires NoDup(s)
    ensures |Elems(s)| == |s|
  {
    if s != [] {
      assert Elems(s) == {s[0]} + Elems(s[1..]);
      assert s[0] !in Elems(s[1..]) by {
        forall j | 0 <= j < |s[1..]| ensures s[1..][j] != s[0] {
          assert s[1..][j] == s[j + 1];
        }
      }
      assert NoDup(s[1..]) by {
        forall i, j | 0 <= i < j < |s[1..]| ensures s[1..][i] != s[1..][j] {
          assert s[1..][i] == s[i + 1] && s[1..][j] == s[j + 1];
        }
      }
      NoDupCard(s[1..]);
    }
  }

  lemma ElemsAppend<T>(a: seq<T>, b: seq<T>)
    ensures Elems(a + b) == Elems(a) + Elems(b)
  {
  }

  predicate NoDup<T(==)>(s: seq<T>)
  {
    forall i, j :: 0 <= i < j < |s| ==> s[i] != s[j]
  }

  /** Walks `s` left to right and keeps every element that is neither in
      `seen` nor kept earlier; the kept elements join `seen` as it goes. */
  function Fresh<T(==)>(s: seq<T>, seen: set<T>): seq<T>
  {
    if s == [] then []
    else if s[0] in seen then Fresh(s[1..], seen)
    else [s[0]] + Fresh(s[1..], seen + {s[0]})
  }

  /** Deduplication that keeps each element at its first occurrence. */
  function Dedup<T(==)>(s: seq<T>): seq<T>
  {
    Fresh(s, {})
  }

  /** The index of the first occurrence of `x` in `s`. */
  ghost function IndexOf<T>(s: seq<T>, x: T): (k: nat)
    requires x in s
    ensures k < |s| && s[k] == x && x !in s[..k]
  {
    if s[0] == x then 0 else 1 + IndexOf(s[1..], x)
  }

  /** `s` without its empty entries, in order. */
  function DropEmpty<T>(s: seq<seq<T>>): (r: seq<seq<T>>)
  {
    if s == [] then []
    else if s[0] == [] then DropEmpty(s[1..])
    else [s[0]] + DropEmpty(s[1..])
  }

  lemma {:induction false} FreshProperties<T>(s: seq<T>, seen: set<T>)
    ensures NoDup(Fresh(s, seen))
    ensures Elems(Fresh(s, seen)) == Elems(s) - seen
    ensures |Fresh(s, seen)| <= |s|
    decreases |s|
  {
    if s != [] {
      if s[0] in seen {
        FreshProperties(s[1..], seen);
        assert Elems(s) == {s[0]} + Elems(s[1..]);
      } else {
        var rest := Fresh(s[1..], seen + {s[0]});
        FreshProperties(s[1..], seen + {s[0]});
        assert Elems(s) == {s[0]} + Elems(s[1..]);
        assert Elems([s[0]] + rest) == {s[0]} + Elems(rest);
        assert s[0] !in Elems(rest);
        forall i, j | 0 <= i < j < |[s[0]] + rest| ensures ([s[0]] + rest)[i] != ([s[0]] + rest)[j] {
          if i == 0 {
            assert ([s[0]] + rest)[j] == rest[j - 1];
            assert rest[j - 1] in Elems(rest);
          }
        }
      }
    }
  }

  /** Deduplicating a concatenation is deduplicating the first part, then
      the second part against everything the first part saw. */
  lemma {:induction false} FreshAppend<T>(a: seq<T>, b: seq<T>, seen: set<T>)
    ensures Fresh(a + b, seen) == Fresh(a, seen) + Fresh(b, seen + Elems(a))
    decreases |a|
  {
    if a == [] {
      assert a + b == b;
      assert Elems(a) == {};
      assert seen + Elems(a) == seen;
    } else {
      assert (a + b)[0] == a[0] && (a + b)[1..] == a[1..] + b;
      assert Elems(a) == {a[0]} + Elems(a[1..]);
      if a[0] in seen {
        FreshAppend(a[1..], b, seen);
        assert seen + Elems(a[1..]) == seen + Elems(a);
      } else {
        FreshAppend(a[1..], b, seen + {a[0]});
        assert seen + {a[0]} + Elems(a[1..]) == seen + Elems(a);
      }
    }
  }

  /** A duplicate-free sequence disjoint from `seen` passes through unchanged. */
  lemma {:induction false} FreshOfNoDup<T>(s: seq<T>, seen: set<T>)
    requires NoDup(s) && Elems(s) !! seen
    ensures Fresh(s, seen) == s
    decreases |s|
  {
    if s != [] {
      assert s[0] !in Elems(s[1..]);
      assert Elems(s) == {s[0]} + Elems(s[1..]);
      assert NoDup(s[1..]) by {
        forall i, j | 0 <= i < j < |s[1..]| ensures s[1..][i] != s[1..][j] {
          assert s[i + 1] != s[j + 1];
        }
      }
      FreshOfNoDup(s[1..], seen + {s[0]});
    }
  }

  /** Every element of `d` occurs in `s`, and they come in the order of
      their first occurrences in `s`. */
  ghost predicate FirstOccurrenceOrder<T>(d: seq<T>, s: seq<T>)
  {
    forall i, j :: 0 <= i < j < |d| ==> Before(s, d[i], d[j])
  }

  /** `x` first occurs in `s` before `y` does. */
  ghost predicate Before<T>(s: seq<T>, x: T, y: T)
  {
    x in s && y in s && IndexOf(s, x) < IndexOf(s, y)
  }

  /** An order by first occurrence in `s[1..]` is one in `s`, for
      elements other than `s[0]`. */
  lemma OrderShift<T>(s: seq<T>, d: seq<T>)
    requires s != [] && s[0] !in d
    requires forall x :: x in d ==> x in s[1..]
    requires FirstOccurrenceOrder(d, s[1..])
    ensures FirstOccurrenceOrder(d, s)
  {
    forall i, j | 0 <= i < j < |d| ensures Before(s, d[i], d[j]) {
      assert Before(s[1..], d[i], d[j]);
      IndexOfTail(s, d[i]);
      IndexOfTail(s, d[j]);
    }
  }

  lemma IndexOfTail<T>(s: seq<T>, x: T)
    requires s != [] && x in s[1..] && x != s[0]
    ensures x in s && IndexOf(s, x) == 1 + IndexOf(s[1..], x)
  {
  }

  /** `s[0]` comes first in any order by first occurrence in `s`. */
  lemma OrderCons<T>(s: seq<T>, d: seq<T>)
    requires s != [] && s[0] !in d
    requires forall x :: x in d ==> x in s
    requires FirstOccurrenceOrder(d, s)
    ensures FirstOccurrenceOrder([s[0]] + d, s)
  {
    var e := [s[0]] + d;
    forall i, j | 0 <= i < j < |e| ensures Before(s, e[i], e[j]) {
      assert e[j] == d[j - 1] && e[j] in s && e[j] != s[0];
      if i > 0 {
        assert e[i] == d[i - 1];
      }
    }
  }

  /** The kept elements occur in `s`, in the order of their first
      occurrences. */
  lemma {:induction false} FreshOrder<T>(s: seq<T>, seen: set<T>)
    ensures forall x :: x in Fresh(s, seen) ==> x in s
    ensures FirstOccurrenceOrder(Fresh(s, seen), s)
    decreases |s|
  {
    if s != [] {
      if s[0] in seen {
        var rest := Fresh(s[1..], seen);
        FreshOrder(s[1..], seen);
        FreshProperties(s[1..], seen);
        assert s[0] !in Elems(rest);
        OrderShift(s, rest);
      } else {
        var rest := Fresh(s[1..], seen + {s[0]});
        FreshOrder(s[1..], seen + {s[0]});
        FreshProperties(s[1..], seen + {s[0]});
        assert s[0] !in Elems(rest);
        OrderShift(s, rest);
        OrderCons(s, rest);
      }
    }
  }

  /** Dedup is duplicate-free, keeps exactly the distinct elements of its
      input, and orders them by first occurrence. */
  lemma DedupProperties<T>(s: seq<T>)
    ensures NoDup(Dedup(s))
    ensures Elems(Dedup(s)) == Elems(s)
    ensures |Dedup(s)| <= |s|
    ensures FirstOccurrenceOrder(Dedup(s), s)
  {
    FreshProperties(s, {});
    FreshOrder(s, {});
  }

  /** A non-empty input keeps its first element in front. */
  lemma DedupHead<T>(s: seq<T>)
    requires s != []
    ensures Dedup(s) != [] && Dedup(s)[0] == s[0]
  {
  }

  lemma {:induction false} DropEmptyProperties<T>(s: seq<seq<T>>)
    ensures Elems(DropEmpty(s)) == Elems(s) - {[]}
    ensures |DropEmpty(s)| <= |s|
    decreases |s|
  {
    if s != [] {
      DropEmptyProperties(s[1..]);
      assert Elems(s) == {s[0]} + Elems(s[1..]);
      if s[0] != [] {
        assert Elems([s[0]] + DropEmpty(s[1..])) == {s[0]} + Elems(DropEmpty(s[1..]));
      }
    }
  }

  lemma {:induction false} DropEmptyOfNonEmpty<T>(s: seq<seq<T>>)
    requires forall k :: 0 <= k < |s| ==> s[k] != []
    ensures DropEmpty(s) == s
    decreases |s|
  {
    if s != [] {
      assert forall k :: 0 <= k < |s[1..]| ==> s[1..][k] == s[k + 1];
      DropEmptyOfNonEmpty(s[1..]);
      assert [s[0]] + s[1..] == s;
    }
  }

  lemma {:induction false} DropEmptyAppend<T>(a: seq<seq<T>>, b: seq<seq<T>>)
    ensures DropEmpty(a + b) == DropEmpty(a) + DropEmpty(b)
    decreases |a|
  {
    if a == [] {
      assert a + b == b;
    } else {
      assert (a + b)[0] == a[0] && (a + b)[1..] == a[1..] + b;
      DropEmptyAppend(a[1..], b);
    }
  }

  lemma NoDupConcat<T>(a: seq<T>, b: seq<T>)
    requires NoDup(a) && NoDup(b) && Elems(a) !! Elems(b)
    ensures NoDup(a + b)
  {
    forall i, j | 0 <= i < j < |a + b| ensures (a + b)[i] != (a + b)[j] {
      if i < |a| && j >= |a| {
        assert (a + b)[i] == a[i] && a[i] in Elems(a);
        assert (a + b)[j] == b[j - |a|] && b[j - |a|] in Elems(b);
      }
    }
  }

  /** The loop that deduplicates a list with a `seen` set, keeping the first
      occurrence of each element. */
  method DedupInOrder<T(==)>(s: seq<T>) returns (uniq: seq<T>)
    ensures uniq == Dedup(s)
  {
    var seen: set<T> := {};
    uniq := [];
    var i := 0;
    while i < |s|
      invariant 0 <= i <= |s|
      invariant seen == Elems(uniq)
      invariant uniq + Fresh(s[i..], seen) == Dedup(s)
    {
      var v := s[i];
      assert s[i..][0] == v && s[i..][1..] == s[i + 1..];
      if v !in seen {
        assert Fresh(s[i..], seen) == [v] + Fresh(s[i + 1..], seen + {v});
        assert (uniq + [v]) + Fresh(s[i + 1..], seen + {v}) == uniq + Fresh(s[i..], seen);
        seen := seen + {v};
        uniq := uniq + [v];
      } else {
        assert Fresh(s[i..], seen) == Fresh(s[i + 1..], seen);
      }
      i := i + 1;
    }
    assert s[i..] == [];
  }
}
