/**
 * The parts of Kotlin's collection library the game code relies on, on sequences.
 * A Kotlin `Set` built with `setOf`/`toSet`/`+` is a LinkedHashSet: it keeps
 * insertion order, so it is modelled as a sequence without duplicates.
 */
module Lists {

  /** No element occurs twice. */
  predicate Distinct<T(==)>(s: seq<T>) {
    forall i, j :: 0 <= i < j < |s| ==> s[i] != s[j]
  }

  /** `list.filterNot { it in other }`: the elements of `s` that are not in `other`, in order
      (`List - Iterable` and `Set - element`). */
  function Without<T(==,!new)>(s: seq<T>, other: seq<T>): (r: seq<T>)
    ensures |r| <= |s|
    ensures forall x :: x in r <==> x in s && x !in other
    ensures Distinct(s) ==> Distinct(r)
  {
    if s == [] then []
    else if s[0] in other then Without(s[1..], other)
    else [s[0]] + Without(s[1..], other)
  }

  /** The filter works element by element, so it keeps the order: filtering a concatenation
      concatenates the filtered parts. */
  lemma {:induction false} WithoutAppend<T(!new)>(a: seq<T>, b: seq<T>, other: seq<T>)
    ensures Without(a + b, other) == Without(a, other) + Without(b, other)
  {
    if a == [] {
      assert a + b == b;
    } else {
      var ab := a + b;
      assert ab != [] && ab[0] == a[0] && ab[1..] == a[1..] + b;
      WithoutAppend(a[1..], b, other);
      if a[0] in other {
        assert Without(ab, other) == Without(a[1..] + b, other);
      } else {
        assert Without(ab, other) == [a[0]] + Without(a[1..] + b, other);
      }
    }
  }

  /** A single element stays exactly when it is not in `other`. */
  lemma WithoutSingleton<T(!new)>(x: T, other: seq<T>)
    ensures Without([x], other) == if x in other then [] else [x]
  {
    assert [x][1..] == [];
  }

  /** `Set + element` on a LinkedHashSet: appended unless already present. */
  function AddIfAbsent<T(==,!new)>(s: seq<T>, x: T): (r: seq<T>)
    ensures forall y :: y in r <==> y in s || y == x
    ensures Distinct(s) ==> Distinct(r)
    ensures x !in s ==> |r| == |s| + 1 && r[|s|] == x && r[..|s|] == s
  {
    if x in s then s else s + [x]
  }

  /** `MutableList.remove(element)` / `List - element`: drops the first occurrence only. */
  function RemoveFirst<T(==,!new)>(s: seq<T>, x: T): (r: seq<T>)
    ensures x in s ==> |r| == |s| - 1 && multiset(r) == multiset(s) - multiset{x}
    ensures x !in s ==> r == s
  {
    if s == [] then []
    else if s[0] == x then assert s == [s[0]] + s[1..]; s[1..]
    else assert s == [s[0]] + s[1..]; [s[0]] + RemoveFirst(s[1..], x)
  }

  /** The copy `RemoveFirst` drops is the first occurrence: the result is `s` with the
      position cut out before which `x` does not occur. */
  lemma {:induction false} RemoveFirstOccurrence<T(!new)>(s: seq<T>, x: T)
    requires x in s
    ensures exists i :: 0 <= i < |s| && s[i] == x && x !in s[..i] && RemoveFirst(s, x) == s[..i] + s[i + 1..]
  {
    if s[0] == x {
      assert s[..0] == [] && s == [s[0]] + s[1..];
    } else {
      assert s == [s[0]] + s[1..];
      RemoveFirstOccurrence(s[1..], x);
      RemoveFirstCons(s, x, RemoveFirst(s[1..], x));
    }
  }

  /** When the head is not `x`, cutting out the first occurrence of `x` from the tail cuts
      it out of the whole sequence. */
  lemma RemoveFirstCons<T>(s: seq<T>, x: T, rest: seq<T>)
    requires s != [] && s[0] != x
    requires exists i :: 0 <= i < |s[1..]| && s[1..][i] == x && x !in s[1..][..i] &&
                         rest == s[1..][..i] + s[1..][i + 1..]
    ensures exists i :: 0 <= i < |s| && s[i] == x && x !in s[..i] && [s[0]] + rest == s[..i] + s[i + 1..]
  {
    var i :| 0 <= i < |s[1..]| && s[1..][i] == x && x !in s[1..][..i] && rest == s[1..][..i] + s[1..][i + 1..];
    assert s[..i + 1] == [s[0]] + s[1..][..i];
    assert s[i + 2..] == s[1..][i + 1..];
    assert s[i + 1] == x && x !in s[..i + 1];
  }

  /** `Iterable.toSet()`: the first occurrence of every element, in order. */
  function Dedup<T(==,!new)>(s: seq<T>): (r: seq<T>)
    ensures Distinct(r)
    ensures forall x :: x in r <==> x in s
    ensures |r| <= |s|
    ensures Distinct(s) ==> r == s
  {
    if s == [] then [] else AddIfAbsent(Dedup(s[..|s| - 1]), s[|s| - 1])
  }

  /** `toSet()` keeps first occurrences in order: of two elements of the result, the earlier
      one already occurs in some prefix of the list in which the later one does not yet. */
  lemma {:induction false} DedupFirstOccurrences<T(!new)>(s: seq<T>)
    ensures forall i, j :: 0 <= i < j < |Dedup(s)| ==>
      exists k :: 0 <= k <= |s| && Dedup(s)[i] in s[..k] && Dedup(s)[j] !in s[..k]
  {
    if s == [] {
      assert |Dedup(s)| == 0;
    } else {
      var p, r := s[..|s| - 1], Dedup(s);
      DedupFirstOccurrences(p);
      forall i, j | 0 <= i < j < |r|
        ensures exists k :: 0 <= k <= |s| && r[i] in s[..k] && r[j] !in s[..k]
      {
        if j < |Dedup(p)| {
          var k :| 0 <= k <= |p| && Dedup(p)[i] in p[..k] && Dedup(p)[j] !in p[..k];
          DedupOrderKept(s, i, j, k);
        } else {
          DedupOrderNew(s, i, j);
          assert s[..|s| - 1] == p;
        }
      }
      assert r == Dedup(s);
    }
  }

  /** A pair already in order in the list without its last element stays in order. */
  lemma DedupOrderKept<T(!new)>(s: seq<T>, i: nat, j: nat, k: nat)
    requires s != [] && i < j < |Dedup(s[..|s| - 1])| && k <= |s| - 1
    requires Dedup(s[..|s| - 1])[i] in s[..|s| - 1][..k] && Dedup(s[..|s| - 1])[j] !in s[..|s| - 1][..k]
    ensures j < |Dedup(s)| && Dedup(s)[i] in s[..k] && Dedup(s)[j] !in s[..k]
  {
    var p := s[..|s| - 1];
    assert Dedup(s) == AddIfAbsent(Dedup(p), s[|s| - 1]);
    assert s[..k] == p[..k];
  }

  /** The last element, when new, comes after every earlier element of `Dedup`. */
  lemma DedupOrderNew<T(!new)>(s: seq<T>, i: nat, j: nat)
    requires s != [] && i < j < |Dedup(s)| && j >= |Dedup(s[..|s| - 1])|
    ensures Dedup(s)[i] in s[..|s| - 1] && Dedup(s)[j] !in s[..|s| - 1]
  {
    var p := s[..|s| - 1];
    assert Dedup(s) == AddIfAbsent(Dedup(p), s[|s| - 1]);
    assert Dedup(s)[i] == Dedup(p)[i];
  }

  /** Disjointness of two collections. */
  predicate Disjoint<T(==)>(a: seq<T>, b: seq<T>) {
    forall x :: x in a ==> x !in b
  }

  /** The set of elements of a sequence (`toSet()` when only membership matters). */
  function Elems<T>(s: seq<T>): set<T> {
    set x | x in s
  }

  /** A sequence has no duplicates exactly when it has as many elements as its set
      (`size == toSet().size`). */
  lemma {:induction false} DistinctIffAllCounted<T>(s: seq<T>)
    ensures |Elems(s)| <= |s|
    ensures Distinct(s) <==> |Elems(s)| == |s|
  {
    if s != [] {
      var x, rest := s[0], s[1..];
      DistinctIffAllCounted(rest);
      assert Elems(s) == {x} + Elems(rest);
      if x in rest {
        assert Elems(s) == Elems(rest);
        var j :| 0 <= j < |rest| && rest[j] == x;
        assert s[0] == s[j + 1];
      } else {
        assert Distinct(s) <==> Distinct(rest);
      }
    }
  }

  /** A concatenation has no duplicates exactly when neither part has and they share nothing. */
  lemma DistinctConcat<T>(a: seq<T>, b: seq<T>)
    ensures Distinct(a + b) <==> Distinct(a) && Distinct(b) && Disjoint(a, b)
  {
    var ab := a + b;
    if Distinct(ab) {
      forall i, j | 0 <= i < j < |a| ensures a[i] != a[j] {
        assert a[i] == ab[i] && a[j] == ab[j];
      }
      forall i, j | 0 <= i < j < |b| ensures b[i] != b[j] {
        assert b[i] == ab[|a| + i] && b[j] == ab[|a| + j];
      }
      forall i, j | 0 <= i < |a| && 0 <= j < |b| ensures a[i] != b[j] {
        assert a[i] == ab[i] && b[j] == ab[|a| + j];
      }
    }
    if Distinct(a) && Distinct(b) && Disjoint(a, b) {
      forall i, j | 0 <= i < j < |ab| ensures ab[i] != ab[j] {
        if j < |a| {
        } else if i >= |a| {
          assert ab[i] == b[i - |a|] && ab[j] == b[j - |a|];
        } else {
          assert ab[i] in a && ab[j] == b[j - |a|];
        }
      }
    }
  }

  /** The elements of a concatenation; it has no duplicates when its parts have none and
      share no element. */
  lemma ConcatElems<T>(a: seq<T>, b: seq<T>)
    ensures Elems(a + b) == Elems(a) + Elems(b)
    ensures Distinct(a) && Distinct(b) && Elems(a) !! Elems(b) ==> Distinct(a + b)
  {
    if Elems(a) !! Elems(b) {
      forall x | x in a ensures x !in b {
        assert x in Elems(a);
      }
    }
    DistinctConcat(a, b);
  }

  /** Removing an element that occurs once shortens the sequence by one. */
  lemma {:induction false} WithoutOne<T(!new)>(s: seq<T>, x: T)
    requires Distinct(s) && x in s
    ensures |Without(s, [x])| == |s| - 1
  {
    if s[0] == x {
      assert x !in s[1..];
      WithoutNothing(s[1..], [x]);
    } else {
      WithoutOne(s[1..], x);
    }
  }

  /** Removing elements that do not occur changes nothing. */
  lemma {:induction false} WithoutNothing<T(!new)>(s: seq<T>, other: seq<T>)
    requires Disjoint(s, other)
    ensures Without(s, other) == s
  {
    if s != [] {
      WithoutNothing(s[1..], other);
      assert s == [s[0]] + s[1..];
    }
  }

  /** `toSet()` keeps as many elements as there are different ones, so it loses one exactly
      when something repeats. */
  lemma DedupSize<T(!new)>(s: seq<T>)
    ensures |Dedup(s)| == |Elems(s)|
    ensures |Dedup(s)| == |s| <==> Distinct(s)
  {
    DistinctIffAllCounted(Dedup(s));
    DistinctIffAllCounted(s);
    assert Elems(Dedup(s)) == Elems(s);
  }

  /** `removeAll` looks only at which elements are listed: `others` and `others.toSet()`
      remove the same elements. */
  lemma {:induction false} WithoutSameMembers<T(!new)>(s: seq<T>, a: seq<T>, b: seq<T>)
    requires forall x :: x in a <==> x in b
    ensures Without(s, a) == Without(s, b)
  {
    if s != [] {
      WithoutSameMembers(s[1..], a, b);
    }
  }

  /** Removing the first occurrence of a card just put at the front gives the old list back. */
  lemma RemoveFirstOfPrepended<T(!new)>(s: seq<T>, x: T)
    ensures RemoveFirst([x] + s, x) == s
  {
    assert ([x] + s)[1..] == s;
  }
}
