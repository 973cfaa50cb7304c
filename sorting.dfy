/** The candidate sorter: a non-destructive, stable sort of a candidate list
    by name ascending or by experience descending. */
module Sorting {
  import opened Types

  /** Three-way comparison of two names in ordinal (character by character)
      lexicographic order: negative, zero or positive as `a` sorts before,
      together with or after `b`. */
  function NameCompare(a: string, b: string): (r: int)
    ensures -1 <= r <= 1
    ensures r == 0 <==> a == b
    decreases |a|
  {
    if a == [] && b == [] then 0
    else if a == [] then -1
    else if b == [] then 1
    else if a[0] < b[0] then -1
    else if b[0] < a[0] then 1
    else
      assert a == [a[0]] + a[1..] && b == [b[0]] + b[1..];
      NameCompare(a[1..], b[1..])
  }

  /** Swapping the arguments negates the comparison. */
  lemma {:induction false} NameCompareAntisymmetric(a: string, b: string)
    ensures NameCompare(b, a) == -NameCompare(a, b)
    decreases |a|
  {
    if a != [] && b != [] && a[0] == b[0] {
      NameCompareAntisymmetric(a[1..], b[1..]);
    }
  }

  /** "Sorts no later than" on names is transitive. */
  lemma {:induction false} NameCompareTransitive(a: string, b: string, c: string)
    requires NameCompare(a, b) <= 0 && NameCompare(b, c) <= 0
    ensures NameCompare(a, c) <= 0
    decreases |a|
  {
    if a != [] && b != [] && c != [] && a[0] == b[0] && b[0] == c[0] {
      NameCompareTransitive(a[1..], b[1..], c[1..]);
    }
  }

  /** The selector picks the name order only when it is exactly the
      "name-asc" literal; every other string selects experience. */
  predicate ByName(sortBy: string) {
    sortBy == NameAsc.Label()
  }

  /** The comparator handed to the sort: the name comparison for "name-asc",
      otherwise the experience difference with `b` first, so that larger
      experience sorts first. */
  function Compare(sortBy: string, a: Candidate, b: Candidate): (r: int)
    ensures ByName(sortBy) ==>
      (r < 0 <==> NameCompare(a.name, b.name) < 0) && (r > 0 <==> NameCompare(b.name, a.name) < 0)
    ensures !ByName(sortBy) ==>
      (r < 0 <==> a.experience > b.experience) && (r > 0 <==> a.experience < b.experience)
  {
    NameCompareAntisymmetric(a.name, b.name);
    if ByName(sortBy) then NameCompare(a.name, b.name) else b.experience - a.experience
  }

  /** `a` may stand before `b` in the output. */
  predicate InOrder(sortBy: string, a: Candidate, b: Candidate) {
    Compare(sortBy, a, b) <= 0
  }

  /** `a` and `b` have equal sort keys. */
  predicate SameKey(sortBy: string, a: Candidate, b: Candidate) {
    if ByName(sortBy) then a.name == b.name else a.experience == b.experience
  }

  /** The comparator reports a tie exactly when the sort keys are equal. */
  lemma CompareZeroIffSameKey(sortBy: string, a: Candidate, b: Candidate)
    ensures Compare(sortBy, a, b) == 0 <==> SameKey(sortBy, a, b)
  {
  }

  /** Any two candidates are ordered one way or the other. */
  lemma InOrderTotal(sortBy: string, a: Candidate, b: Candidate)
    ensures InOrder(sortBy, a, b) || InOrder(sortBy, b, a)
  {
    NameCompareAntisymmetric(a.name, b.name);
  }

  /** Candidates ordered both ways have equal keys. */
  lemma InOrderBothWays(sortBy: string, a: Candidate, b: Candidate)
    requires InOrder(sortBy, a, b) && InOrder(sortBy, b, a)
    ensures SameKey(sortBy, a, b)
  {
    NameCompareAntisymmetric(a.name, b.name);
  }

  /** The order is transitive. */
  lemma InOrderTransitive(sortBy: string, a: Candidate, b: Candidate, c: Candidate)
    requires InOrder(sortBy, a, b) && InOrder(sortBy, b, c)
    ensures InOrder(sortBy, a, c)
  {
    if ByName(sortBy) {
      NameCompareTransitive(a.name, b.name, c.name);
    }
  }

  /** Every element of `s` may stand before every later one. */
  ghost predicate Sorted(sortBy: string, s: seq<Candidate>) {
    forall i, j :: 0 <= i < j < |s| ==> InOrder(sortBy, s[i], s[j])
  }

  /** The elements of `s` whose key equals that of `k`, in their order in `s`. */
  function KeyClass(sortBy: string, s: seq<Candidate>, k: Candidate): seq<Candidate> {
    if s == [] then []
    else (if SameKey(sortBy, s[0], k) then [s[0]] else []) + KeyClass(sortBy, s[1..], k)
  }

  /** `r` holds, for every key, the same records in the same relative order
      as `s`: the sort is stable. (This also makes `r` a permutation of `s`.) */
  ghost predicate Stable(sortBy: string, r: seq<Candidate>, s: seq<Candidate>) {
    forall k :: KeyClass(sortBy, r, k) == KeyClass(sortBy, s, k)
  }

  /** `x` inserted into `s` in front of the first element it may precede. */
  function Insert(sortBy: string, x: Candidate, s: seq<Candidate>): (r: seq<Candidate>)
    ensures |r| == |s| + 1
    ensures multiset(r) == multiset(s) + multiset{x}
  {
    if s == [] then [x]
    else if InOrder(sortBy, x, s[0]) then [x] + s
    else
      assert s == [s[0]] + s[1..];
      [s[0]] + Insert(sortBy, x, s[1..])
  }

  /** `x` may stand before every element of `s`. */
  ghost predicate Precedes(sortBy: string, x: Candidate, s: seq<Candidate>) {
    forall i :: 0 <= i < |s| ==> InOrder(sortBy, x, s[i])
  }

  /** Putting an element that precedes a sorted list in front of it gives a
      sorted list. */
  lemma SortedCons(sortBy: string, x: Candidate, s: seq<Candidate>)
    requires Precedes(sortBy, x, s) && Sorted(sortBy, s)
    ensures Sorted(sortBy, [x] + s)
  {
  }

  /** An element that precedes `x` and all of `s` precedes `x` inserted
      into `s`. */
  lemma {:induction false} InsertPrecedes(sortBy: string, y: Candidate, x: Candidate, s: seq<Candidate>)
    requires InOrder(sortBy, y, x) && Precedes(sortBy, y, s)
    ensures Precedes(sortBy, y, Insert(sortBy, x, s))
  {
    if s != [] && !InOrder(sortBy, x, s[0]) {
      InsertPrecedes(sortBy, y, x, s[1..]);
    }
  }

  /** Inserting into a sorted list keeps it sorted. */
  lemma {:induction false} InsertSorted(sortBy: string, x: Candidate, s: seq<Candidate>)
    requires Sorted(sortBy, s)
    ensures Sorted(sortBy, Insert(sortBy, x, s))
  {
    if s == [] {
    } else if InOrder(sortBy, x, s[0]) {
      forall i | 0 <= i < |s| ensures InOrder(sortBy, x, s[i]) {
        if i > 0 {
          InOrderTransitive(sortBy, x, s[0], s[i]);
        }
      }
      SortedCons(sortBy, x, s);
    } else {
      var t := s[1..];
      assert Sorted(sortBy, t);
      InsertSorted(sortBy, x, t);
      InOrderTotal(sortBy, x, s[0]);
      InsertPrecedes(sortBy, s[0], x, t);
      SortedCons(sortBy, s[0], Insert(sortBy, x, t));
    }
  }

  /** Inserting `x` adds `x` to its own key class, in front, and leaves every
      other key class alone. */
  lemma {:induction false} InsertKeyClass(sortBy: string, x: Candidate, s: seq<Candidate>, k: Candidate)
    ensures KeyClass(sortBy, Insert(sortBy, x, s), k)
         == (if SameKey(sortBy, x, k) then [x] else []) + KeyClass(sortBy, s, k)
  {
    var r := Insert(sortBy, x, s);
    if s == [] {
      assert r[1..] == [];
    } else if InOrder(sortBy, x, s[0]) {
      assert r[1..] == s;
    } else {
      InsertKeyClass(sortBy, x, s[1..], k);
      assert r[1..] == Insert(sortBy, x, s[1..]);
    }
  }

  /** Inserting the head of `s` into a stable sort of its tail gives a stable
      sort of `s`. */
  lemma InsertStable(sortBy: string, s: seq<Candidate>, t: seq<Candidate>)
    requires s != [] && Stable(sortBy, t, s[1..])
    ensures Stable(sortBy, Insert(sortBy, s[0], t), s)
  {
    forall k ensures KeyClass(sortBy, Insert(sortBy, s[0], t), k) == KeyClass(sortBy, s, k) {
      InsertKeyClass(sortBy, s[0], t, k);
    }
  }

  /** A stable sort of `s` under the comparator for `sortBy`: each element
      is inserted, back to front, in front of the first element it may
      precede, so equal keys keep their input order. This is the sort that
      the language's stable array sort performs. */
  function InsertionSort(sortBy: string, s: seq<Candidate>): (r: seq<Candidate>)
    ensures |r| == |s|
    ensures multiset(r) == multiset(s)
  {
    if s == [] then []
    else
      assert s == [s[0]] + s[1..];
      Insert(sortBy, s[0], InsertionSort(sortBy, s[1..]))
  }

  /** The insertion sort orders its output. */
  lemma {:induction false} InsertionSortSorted(sortBy: string, s: seq<Candidate>)
    ensures Sorted(sortBy, InsertionSort(sortBy, s))
  {
    if s != [] {
      InsertionSortSorted(sortBy, s[1..]);
      InsertSorted(sortBy, s[0], InsertionSort(sortBy, s[1..]));
    }
  }

  /** The insertion sort is stable. */
  lemma {:induction false} InsertionSortStable(sortBy: string, s: seq<Candidate>)
    ensures Stable(sortBy, InsertionSort(sortBy, s), s)
  {
    if s != [] {
      InsertionSortStable(sortBy, s[1..]);
      InsertStable(sortBy, s, InsertionSort(sortBy, s[1..]));
    }
  }

  /** The sorted copy of `candidates`: by name ascending when `sortBy` is
      "name-asc", otherwise by experience descending; ties keep their input
      order. The input is a value and is never changed. */
  function SortCandidates(candidates: seq<Candidate>, sortBy: string): (r: seq<Candidate>)
    ensures |r| == |candidates|
    ensures multiset(r) == multiset(candidates)
    ensures Sorted(sortBy, r)
    ensures Stable(sortBy, r, candidates)
    ensures ByName(sortBy) ==> forall i :: 0 <= i < |r| - 1 ==> NameCompare(r[i].name, r[i + 1].name) <= 0
    ensures !ByName(sortBy) ==> forall i :: 0 <= i < |r| - 1 ==> r[i].experience >= r[i + 1].experience
  {
    InsertionSortSorted(sortBy, candidates);
    InsertionSortStable(sortBy, candidates);
    InsertionSort(sortBy, candidates)
  }

  /** `x` lands behind every leading element it may not precede, in front of
      the first one it may. */
  lemma {:induction false} InsertAfterPrefix(sortBy: string, x: Candidate, p: seq<Candidate>, q: seq<Candidate>)
    requires forall i :: 0 <= i < |p| ==> !InOrder(sortBy, x, p[i])
    requires q == [] || InOrder(sortBy, x, q[0])
    ensures Insert(sortBy, x, p + q) == p + [x] + q
  {
    if p == [] {
      assert p + q == q;
    } else {
      SplitHead(p, q, x);
      assert !InOrder(sortBy, x, p[0]);
      InsertAfterPrefix(sortBy, x, p[1..], q);
    }
  }

  /** How `p + q` and `p + [x] + q` split at the head of a non-empty `p`. */
  lemma SplitHead<T>(p: seq<T>, q: seq<T>, x: T)
    requires p != []
    ensures (p + q)[0] == p[0] && (p + q)[1..] == p[1..] + q
    ensures p + [x] + q == [p[0]] + (p[1..] + [x] + q)
  {
  }

  /** An element lies in its own key class exactly when it lies in the list. */
  lemma {:induction false} KeyClassMember(sortBy: string, s: seq<Candidate>, k: Candidate, x: Candidate)
    requires SameKey(sortBy, x, k)
    ensures x in KeyClass(sortBy, s, k) <==> x in s
  {
    if s != [] {
      KeyClassMember(sortBy, s[1..], k, x);
      assert s == [s[0]] + s[1..];
    }
  }

  /** The key class of the head of a non-empty list is not empty. */
  lemma KeyClassOfHead(sortBy: string, s: seq<Candidate>)
    ensures s != [] ==> KeyClass(sortBy, s, s[0]) != []
  {
  }

  /** Two sorted lists with the same key classes are equal: the stable sorted
      permutation of a list is unique. */
  lemma {:induction false} SortedStableUnique(sortBy: string, r1: seq<Candidate>, r2: seq<Candidate>)
    requires Sorted(sortBy, r1) && Sorted(sortBy, r2) && Stable(sortBy, r1, r2)
    ensures r1 == r2
    decreases |r1|
  {
    // The head of a non-empty list lies in its own key class, so neither
    // list can be empty while the other is not.
    KeyClassOfHead(sortBy, r1);
    KeyClassOfHead(sortBy, r2);
    if r1 != [] && r2 != [] {
      var a, b := r1[0], r2[0];
      KeyClassMember(sortBy, r1, a, a);
      KeyClassMember(sortBy, r2, a, a);
      KeyClassMember(sortBy, r1, b, b);
      KeyClassMember(sortBy, r2, b, b);
      assert KeyClass(sortBy, r1, a) == KeyClass(sortBy, r2, a);
      assert KeyClass(sortBy, r1, b) == KeyClass(sortBy, r2, b);
      assert a in r2 && b in r1;
      assert InOrder(sortBy, b, a) by {
        var j :| 0 <= j < |r2| && r2[j] == a;
        if j == 0 { CompareZeroIffSameKey(sortBy, a, a); }
      }
      assert InOrder(sortBy, a, b) by {
        var j :| 0 <= j < |r1| && r1[j] == b;
        if j == 0 { CompareZeroIffSameKey(sortBy, b, b); }
      }
      InOrderBothWays(sortBy, a, b);
      assert KeyClass(sortBy, r1, a)[0] == a;
      assert KeyClass(sortBy, r2, a)[0] == b;
      assert a == b;
      forall k ensures KeyClass(sortBy, r1[1..], k) == KeyClass(sortBy, r2[1..], k) {
        var c1, c2 := KeyClass(sortBy, r1, k), KeyClass(sortBy, r2, k);
        assert c1 == c2;
        if SameKey(sortBy, a, k) {
          assert c1[1..] == KeyClass(sortBy, r1[1..], k);
          assert c2[1..] == KeyClass(sortBy, r2[1..], k);
        } else {
          assert c1 == KeyClass(sortBy, r1[1..], k);
          assert c2 == KeyClass(sortBy, r2[1..], k);
        }
      }
      assert Sorted(sortBy, r1[1..]) && Sorted(sortBy, r2[1..]) by {
        forall i, j | 0 <= i < j < |r1| - 1 ensures InOrder(sortBy, r1[1..][i], r1[1..][j]) {
          assert r1[1..][i] == r1[i + 1] && r1[1..][j] == r1[j + 1];
        }
        forall i, j | 0 <= i < j < |r2| - 1 ensures InOrder(sortBy, r2[1..][i], r2[1..][j]) {
          assert r2[1..][i] == r2[i + 1] && r2[1..][j] == r2[j + 1];
        }
      }
      SortedStableUnique(sortBy, r1[1..], r2[1..]);
      assert r1 == [a] + r1[1..] && r2 == [b] + r2[1..];
    }
  }

  /** Any sorted, stable rearrangement of `s` is exactly what `SortCandidates`
      returns, whichever stable sorting algorithm produced it. */
  lemma SortIsUnique(candidates: seq<Candidate>, sortBy: string, r: seq<Candidate>)
    requires Sorted(sortBy, r) && Stable(sortBy, r, candidates)
    ensures r == SortCandidates(candidates, sortBy)
  {
    var q := SortCandidates(candidates, sortBy);
    SortedStableUnique(sortBy, r, q);
  }

  /** Sorting an already sorted list returns it unchanged. */
  lemma SortOfSorted(candidates: seq<Candidate>, sortBy: string)
    requires Sorted(sortBy, candidates)
    ensures SortCandidates(candidates, sortBy) == candidates
  {
    SortIsUnique(candidates, sortBy, candidates);
  }

  /** Sorting twice by the same option is the same as sorting once. */
  lemma SortIdempotent(candidates: seq<Candidate>, sortBy: string)
    ensures SortCandidates(SortCandidates(candidates, sortBy), sortBy) == SortCandidates(candidates, sortBy)
  {
    SortOfSorted(SortCandidates(candidates, sortBy), sortBy);
  }

  /** The empty list and a single record come back unchanged. */
  lemma SortSmall(c: Candidate, sortBy: string)
    ensures SortCandidates([], sortBy) == []
    ensures SortCandidates([c], sortBy) == [c]
  {
  }

  /** Every selector other than "name-asc" sorts exactly as
      "experience-desc" does. */
  lemma UnrecognisedSelectorSortsByExperience(candidates: seq<Candidate>, sortBy: string)
    requires !ByName(sortBy)
    ensures SortCandidates(candidates, sortBy) == SortCandidates(candidates, ExperienceDesc.Label())
  {
    var r := SortCandidates(candidates, sortBy);
    var e := ExperienceDesc.Label();
    assert forall a, b :: Compare(sortBy, a, b) == Compare(e, a, b);
    assert forall s, k :: KeyClass(sortBy, s, k) == KeyClass(e, s, k) by {
      forall s, k ensures KeyClass(sortBy, s, k) == KeyClass(e, s, k) {
        KeyClassSelector(sortBy, e, s, k);
      }
    }
    SortIsUnique(candidates, e, r);
  }

  /** Key classes depend only on which order the selector picks. */
  lemma {:induction false} KeyClassSelector(p: string, q: string, s: seq<Candidate>, k: Candidate)
    requires ByName(p) == ByName(q)
    ensures KeyClass(p, s, k) == KeyClass(q, s, k)
  {
    if s != [] {
      KeyClassSelector(p, q, s[1..], k);
    }
  }
}
