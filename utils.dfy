/**
 * Combinatorics helpers (Utils.kt): `nestedLoop`, an odometer over a counter array that
 * yields the cartesian product of several lists; `repeatedArray`; `toMap`; `foldToList`.
 */
module Utils {

  // ---------------------------------------------------------------------------
  // The cartesian product and its counters
  // ---------------------------------------------------------------------------

  /** Product of the list sizes: the number of counter vectors. */
  function Size<T>(es: seq<seq<T>>): (n: nat)
    ensures n == 0 <==> exists i :: 0 <= i < |es| && es[i] == []
  {
    if es == [] then 1
    else
      var rest := Size(es[1..]);
      assert forall i :: 1 <= i < |es| ==> es[i] == es[1..][i - 1];
      assert rest == 0 ==> exists i :: 1 <= i < |es| && es[i] == [];
      assert (exists i :: 0 <= i < |es| && es[i] == []) ==> es[0] == [] || rest == 0;
      |es[0]| * rest
  }

  /** A counter vector in range: `0 <= counts[i] <= maxima[i]` with `maxima[i] = |es[i]| - 1`. */
  predicate ValidCounter<T>(es: seq<seq<T>>, c: seq<int>) {
    |c| == |es| && forall i :: 0 <= i < |c| ==> 0 <= c[i] < |es[i]|
  }

  /** The tuple a counter vector selects: `counts.mapIndexed { i, n -> elements[i].elementAt(n) }`. */
  function Tuple<T>(es: seq<seq<T>>, c: seq<int>): (t: seq<T>)
    requires ValidCounter(es, c)
    ensures |t| == |es| && forall i :: 0 <= i < |t| ==> t[i] == es[i][c[i]]
  {
    seq(|es|, i requires 0 <= i < |es| => es[i][c[i]])
  }

  /** Mixed-radix value of a counter vector, the first position most significant: the
      position in the product of the tuple it selects. */
  function Rank<T>(es: seq<seq<T>>, c: seq<int>): (r: int)
    requires ValidCounter(es, c)
    ensures 0 <= r < Size(es)
  {
    if es == [] then 0
    else
      var s := Size(es[1..]);
      var rest := Rank(es[1..], c[1..]);
      MulBound(c[0], rest, |es[0]|, s);
      c[0] * s + rest
  }

  lemma MulLe(x: int, y: int, s: int)
    requires x <= y && 0 <= s
    ensures x * s <= y * s
  {
    assert y * s - x * s == (y - x) * s;
  }

  /** `a * n + b` lies below `m * n` for digits `a < m`, `b < n`. */
  lemma MulBound(a: int, b: int, m: int, n: int)
    requires 0 <= a < m && 0 <= b < n
    ensures 0 <= a * n + b < m * n
  {
    MulLe(0, a, n);
    MulLe(a + 1, m, n);
    assert (a + 1) * n == a * n + n;
  }

  /** Inverse of `Rank`: the counter vector of position `k`. */
  function Digits<T>(es: seq<seq<T>>, k: int): (c: seq<int>)
    requires 0 <= k < Size(es)
    ensures ValidCounter(es, c)
  {
    if es == [] then []
    else
      var s := Size(es[1..]);
      assert k < |es[0]| * s;
      assert 0 < s;
      DivBelow(k, |es[0]|, s);
      [k / s] + Digits(es[1..], k % s)
  }

  lemma DivBelow(k: int, a: int, s: int)
    requires 0 <= k < a * s && 0 < s
    ensures 0 <= k / s < a
  {
    var q := k / s;
    assert q * s <= k;
    assert (a - q) * s == a * s - q * s;
    assert (a - q) * s > 0;
  }

  lemma {:induction false} RankOfDigits<T>(es: seq<seq<T>>, k: int)
    requires 0 <= k < Size(es)
    ensures Rank(es, Digits(es, k)) == k
  {
    if es != [] {
      var s := Size(es[1..]);
      assert k < |es[0]| * s;
      var d := Digits(es, k);
      assert d[0] == k / s && d[1..] == Digits(es[1..], k % s);
      RankOfDigits(es[1..], k % s);
      assert Rank(es, d) == (k / s) * s + k % s;
    }
  }

  /** Cartesian product with the first list varying slowest. */
  function Product<T>(es: seq<seq<T>>): (r: seq<seq<T>>)
    ensures |r| == Size(es)
  {
    if es == [] then [[]]
    else
      var rest := Product(es[1..]);
      PrependLength(es[0], rest);
      Prepend(es[0], rest)
  }

  /** Each element of `xs` in turn, followed by each tuple of `ts`. */
  function Prepend<T>(xs: seq<T>, ts: seq<seq<T>>): seq<seq<T>> {
    if xs == [] then []
    else seq(|ts|, k requires 0 <= k < |ts| => [xs[0]] + ts[k]) + Prepend(xs[1..], ts)
  }

  lemma {:induction false} PrependAt<T>(xs: seq<T>, ts: seq<seq<T>>, a: int, b: int)
    requires 0 <= a < |xs| && 0 <= b < |ts|
    ensures |Prepend(xs, ts)| == |xs| * |ts|
    ensures a * |ts| + b < |Prepend(xs, ts)|
    ensures Prepend(xs, ts)[a * |ts| + b] == [xs[a]] + ts[b]
  {
    PrependLength(xs, ts);
    MulBound(a, b, |xs|, |ts|);
    var n := |ts|;
    var block := seq(n, k requires 0 <= k < n => [xs[0]] + ts[k]);
    var rest := Prepend(xs[1..], ts);
    assert Prepend(xs, ts) == block + rest;
    if a == 0 {
      assert a * n + b == b;
    } else {
      PrependAt(xs[1..], ts, a - 1, b);
      var j := (a - 1) * n + b;
      assert a * n + b == n + j;
      assert (block + rest)[n + j] == rest[j];
    }
  }

  lemma {:induction false} PrependLength<T>(xs: seq<T>, ts: seq<seq<T>>)
    ensures |Prepend(xs, ts)| == |xs| * |ts|
  {
    if xs != [] {
      PrependLength(xs[1..], ts);
      assert |xs| * |ts| == |ts| + (|xs| - 1) * |ts|;
    }
  }

  /** The counter vector `c` selects the tuple at position `Rank(c)`. */
  lemma {:induction false} ProductAt<T>(es: seq<seq<T>>, c: seq<int>)
    requires ValidCounter(es, c)
    ensures Product(es)[Rank(es, c)] == Tuple(es, c)
  {
    if es != [] {
      ProductAt(es[1..], c[1..]);
      PrependAt(es[0], Product(es[1..]), c[0], Rank(es[1..], c[1..]));
      assert Tuple(es, c) == [es[0][c[0]]] + Tuple(es[1..], c[1..]);
    }
  }

  /** Every tuple of the product draws position i from `es[i]` ... */
  lemma ProductMembersOnly<T>(es: seq<seq<T>>, t: seq<T>)
    requires t in Product(es)
    ensures |t| == |es| && forall i :: 0 <= i < |t| ==> t[i] in es[i]
  {
    var k :| 0 <= k < |Product(es)| && Product(es)[k] == t;
    var c := Digits(es, k);
    RankOfDigits(es, k);
    ProductAt(es, c);
    assert t == Tuple(es, c);
  }

  /** ... and every such tuple is in the product. */
  lemma ProductMembersAll<T>(es: seq<seq<T>>, t: seq<T>)
    requires |t| == |es| && forall i :: 0 <= i < |t| ==> t[i] in es[i]
    ensures t in Product(es)
  {
    var c := seq(|t|, i requires 0 <= i < |t| => IndexIn(es[i], t[i]));
    assert ValidCounter(es, c);
    ProductAt(es, c);
    assert Tuple(es, c) == t;
  }

  /** Some position of `x` in `s`. */
  function IndexIn<T(==)>(s: seq<T>, x: T): (k: int)
    requires x in s
    ensures 0 <= k < |s| && s[k] == x
  {
    if s[0] == x then 0 else 1 + IndexIn(s[1..], x)
  }

  /** `c` comes strictly before `d` in lexicographic order. */
  predicate LexLess(c: seq<int>, d: seq<int>) {
    exists p :: 0 <= p < |c| && p < |d| && c[..p] == d[..p] && c[p] < d[p]
  }

  /** Odometer order: a lexicographically smaller counter vector is yielded earlier. */
  lemma {:induction false} RankIsLexicographic<T>(es: seq<seq<T>>, c: seq<int>, d: seq<int>, p: int)
    requires ValidCounter(es, c) && ValidCounter(es, d)
    requires 0 <= p < |es| && c[..p] == d[..p] && c[p] < d[p]
    ensures Rank(es, c) < Rank(es, d)
  {
    var s := Size(es[1..]);
    if p == 0 {
      var rc, rd := Rank(es[1..], c[1..]), Rank(es[1..], d[1..]);
      MulLe(c[0] + 1, d[0], s);
      assert (c[0] + 1) * s == c[0] * s + s;
      assert Rank(es, c) == c[0] * s + rc < (c[0] + 1) * s <= d[0] * s <= Rank(es, d);
    } else {
      assert c[0] == d[0] by { assert c[..p][0] == d[..p][0]; }
      assert c[1..][..p - 1] == d[1..][..p - 1];
      RankIsLexicographic(es[1..], c[1..], d[1..], p - 1);
    }
  }

  /** Counter vectors with all positions at their maximum / all zero: the last and first. */
  lemma {:induction false} RankOfMaxima<T>(es: seq<seq<T>>, c: seq<int>)
    requires ValidCounter(es, c)
    requires forall i :: 0 <= i < |c| ==> c[i] == |es[i]| - 1
    ensures Rank(es, c) == Size(es) - 1
  {
    if es != [] {
      RankOfMaxima(es[1..], c[1..]);
      var s := Size(es[1..]);
      assert (|es[0]| - 1) * s + s - 1 == |es[0]| * s - 1;
    }
  }

  lemma {:induction false} RankOfZeros<T>(es: seq<seq<T>>, c: seq<int>)
    requires ValidCounter(es, c)
    requires forall i :: 0 <= i < |c| ==> c[i] == 0
    ensures Rank(es, c) == 0
  {
    if es != [] {
      RankOfZeros(es[1..], c[1..]);
    }
  }

  /** One odometer step: position p goes up by one, the positions after it wrap from their
      maxima to zero, the positions before it stay. The rank goes up by exactly one. */
  lemma {:induction false} OdometerStep<T>(es: seq<seq<T>>, c: seq<int>, c': seq<int>, p: int)
    requires ValidCounter(es, c) && ValidCounter(es, c')
    requires 0 <= p < |es| && c'[..p] == c[..p] && c'[p] == c[p] + 1
    requires forall j :: p < j < |es| ==> c[j] == |es[j]| - 1 && c'[j] == 0
    ensures Rank(es, c') == Rank(es, c) + 1
  {
    if p == 0 {
      CarryIntoHead(es, c, c');
    } else {
      assert c[0] == c'[0] by { assert c[..p][0] == c'[..p][0]; }
      assert c'[1..][..p - 1] == c[1..][..p - 1];
      OdometerStep(es[1..], c[1..], c'[1..], p - 1);
    }
  }

  /** What `nestedLoop` yields: nothing for no lists (the `isEmpty` guard), otherwise the product. */
  function Tuples<T>(es: seq<seq<T>>): seq<seq<T>> {
    if es == [] then [] else Product(es)
  }

  /** The loop guard `maxima.zip(counts, Int::minus).none { it < 0 }`. */
  predicate NoneNegative(maxima: seq<int>, counts: seq<int>) {
    forall i :: 0 <= i < |maxima| && i < |counts| ==> maxima[i] - counts[i] >= 0
  }

  /** `nestedLoop`: the counter array is advanced odometer-style, last position fastest;
      the loop stops when the first position overflows. */
  method NestedLoop<T>(elements: seq<seq<T>>) returns (yielded: seq<seq<T>>)
    ensures yielded == Tuples(elements)
    ensures |yielded| == if elements == [] then 0 else Size(elements)
  {
    yielded := [];
    if |elements| == 0 {
      return;
    }
    var n := |elements|;
    var counts := new int[n](_ => 0);
    var maxima := seq(n, i requires 0 <= i < n => |elements[i]| - 1);
    if Size(elements) > 0 {
      RankOfZeros(elements, counts[..]);
    }
    while NoneNegative(maxima, counts[..])
      invariant counts.Length == n
      invariant forall i :: 0 <= i < n ==> 0 <= counts[i]
      invariant Size(elements) == 0 ==> yielded == []
      invariant Size(elements) > 0 ==> ValidCounter(elements, counts[..])
      invariant Size(elements) > 0 ==> yielded == Product(elements)[..Rank(elements, counts[..])]
      decreases Size(elements) - |yielded|
    {
      NoEmptyList(elements, maxima, counts[..]);
      YieldNext(elements, counts[..], yielded);
      yielded := yielded + [Tuple(elements, counts[..])];
      var overflow := Increment(elements, maxima, counts);
      if overflow {
        break;
      }
    }
  }

  /** While the guard holds, no list is empty, so the counter selects a tuple. */
  lemma NoEmptyList<T>(elements: seq<seq<T>>, maxima: seq<int>, counts: seq<int>)
    requires |counts| == |elements| == |maxima|
    requires forall i :: 0 <= i < |maxima| ==> maxima[i] == |elements[i]| - 1
    requires forall i :: 0 <= i < |counts| ==> 0 <= counts[i]
    requires NoneNegative(maxima, counts)
    ensures ValidCounter(elements, counts) && Size(elements) > 0
  {
    forall i | 0 <= i < |elements| ensures elements[i] != [] {
      assert maxima[i] - counts[i] >= 0;
    }
  }

  /** Yielding the selected tuple extends the yielded prefix of the product by one. */
  lemma YieldNext<T>(elements: seq<seq<T>>, counts: seq<int>, yielded: seq<seq<T>>)
    requires ValidCounter(elements, counts)
    requires yielded == Product(elements)[..Rank(elements, counts)]
    ensures yielded + [Tuple(elements, counts)] == Product(elements)[..Rank(elements, counts) + 1]
  {
    ProductAt(elements, counts);
  }

  /** The `// Increment counter` loop: the last position goes up by one, and every position
      that passes its maximum wraps to zero and carries into the one before; a carry out of
      the first position ends the iteration (`break@outer`). Otherwise the counter moves to
      the next tuple of the product. */
  method Increment<T>(elements: seq<seq<T>>, maxima: seq<int>, counts: array<int>)
    returns (overflow: bool)
    requires |elements| > 0 && counts.Length == |elements| == |maxima|
    requires forall i :: 0 <= i < |maxima| ==> maxima[i] == |elements[i]| - 1
    requires ValidCounter(elements, counts[..])
    modifies counts
    ensures overflow ==> Rank(elements, old(counts[..])) == Size(elements) - 1
    ensures !overflow ==> ValidCounter(elements, counts[..])
    ensures !overflow ==> Rank(elements, counts[..]) == Rank(elements, old(counts[..])) + 1
  {
    ghost var before := counts[..];
    var n := counts.Length;
    overflow := false;
    for i := n downto 0
      invariant 0 < i
      invariant forall j :: 0 <= j < i ==> counts[j] == before[j]
      invariant forall j :: i <= j < n ==> before[j] == maxima[j] && counts[j] == 0
    {
      counts[i] := counts[i] + 1;
      if counts[i] > maxima[i] {
        if i == 0 {
          RankOfMaxima(elements, before);
          overflow := true;
          return;
        }
        counts[i] := 0;
      } else {
        ghost var after := counts[..];
        assert ValidCounter(elements, after);
        assert after[..i] == before[..i];
        OdometerStep(elements, before, after, i);
        return;
      }
    }
  }

  /** The step at the first position: it goes up by one and all the others wrap. */
  lemma CarryIntoHead<T>(es: seq<seq<T>>, c: seq<int>, c': seq<int>)
    requires ValidCounter(es, c) && ValidCounter(es, c') && |es| > 0 && c'[0] == c[0] + 1
    requires forall j :: 0 < j < |es| ==> c[j] == |es[j]| - 1 && c'[j] == 0
    ensures Rank(es, c') == Rank(es, c) + 1
  {
    var s := Size(es[1..]);
    RankOfMaxima(es[1..], c[1..]);
    RankOfZeros(es[1..], c'[1..]);
    assert Rank(es, c) == c[0] * s + (s - 1);
    assert Rank(es, c') == (c[0] + 1) * s;
    assert (c[0] + 1) * s == c[0] * s + s;
  }

  // ---------------------------------------------------------------------------
  // repeatedArray, toMap, foldToList
  // ---------------------------------------------------------------------------

  /** `max(length, 0)` copies of `element`. */
  function Repeated<T>(element: T, length: int): (r: seq<T>)
    ensures |r| == if length > 0 then length else 0
    ensures forall x :: x in r ==> x == element
  {
    if length <= 0 then [] else Repeated(element, length - 1) + [element]
  }

  /** `repeatedArray`: yields the element once for each `i in 1..length`. */
  method RepeatedArray<T>(element: T, length: int) returns (r: seq<T>)
    ensures r == Repeated(element, length)
  {
    r := [];
    var i := 1;
    while i <= length
      invariant 1 <= i <= (if length >= 1 then length + 1 else 1)
      invariant r == Repeated(element, i - 1)
    {
      r := r + [element];
      i := i + 1;
    }
  }

  /** The value that the last pair with key `k` carries. */
  function LastValue<K(==), V>(pairs: seq<(K, V)>, k: K): (v: V)
    requires exists i :: 0 <= i < |pairs| && pairs[i].0 == k
  {
    var last := pairs[|pairs| - 1];
    if last.0 == k then last.1 else LastValue(pairs[..|pairs| - 1], k)
  }

  /** `toMap`: folds the pairs into a mutable map, so a later pair overwrites an earlier one. */
  method ToMap<K(==), V>(pairs: seq<(K, V)>) returns (m: map<K, V>)
    ensures m.Keys == set i | 0 <= i < |pairs| :: pairs[i].0
    ensures forall i :: 0 <= i < |pairs| ==> m[pairs[i].0] == LastValue(pairs, pairs[i].0)
  {
    m := map[];
    for n := 0 to |pairs|
      invariant m.Keys == set i | 0 <= i < n :: pairs[i].0
      invariant forall i :: 0 <= i < n ==> m[pairs[i].0] == LastValue(pairs[..n], pairs[i].0)
    {
      m := m[pairs[n].0 := pairs[n].1];
      assert pairs[..n + 1][..n] == pairs[..n];
    }
    assert pairs[..|pairs|] == pairs;
  }

  /** The last pair with a key decides its value. */
  lemma {:induction false} LastPairWins<K, V>(pairs: seq<(K, V)>, i: int)
    requires 0 <= i < |pairs|
    requires forall j :: i < j < |pairs| ==> pairs[j].0 != pairs[i].0
    ensures LastValue(pairs, pairs[i].0) == pairs[i].1
  {
    if i < |pairs| - 1 {
      LastPairWins(pairs[..|pairs| - 1], i);
    }
  }

  /** In-order concatenation. */
  function Flatten<T>(parts: seq<seq<T>>): seq<T> {
    if parts == [] then [] else Flatten(parts[..|parts| - 1]) + parts[|parts| - 1]
  }

  function SumOfLengths<T>(parts: seq<seq<T>>): nat {
    if parts == [] then 0 else SumOfLengths(parts[..|parts| - 1]) + |parts[|parts| - 1]|
  }

  /** `foldToList`: appends every part, in order, to one mutable list. */
  method FoldToList<T>(parts: seq<seq<T>>) returns (list: seq<T>)
    ensures list == Flatten(parts)
  {
    list := [];
    for i := 0 to |parts|
      invariant list == Flatten(parts[..i])
    {
      assert parts[..i + 1][..i] == parts[..i];
      list := list + parts[i];
    }
    assert parts[..|parts|] == parts;
  }

  /** The concatenation is as long as all the parts together. */
  lemma {:induction false} FlattenLength<T>(parts: seq<seq<T>>)
    ensures |Flatten(parts)| == SumOfLengths(parts)
  {
    if parts != [] {
      FlattenLength(parts[..|parts| - 1]);
    }
  }

  /** An element of the concatenation comes from one of the parts, and every element of
      every part is in it. */
  lemma {:induction false} FlattenMembers<T>(parts: seq<seq<T>>, x: T)
    ensures x in Flatten(parts) <==> exists i :: 0 <= i < |parts| && x in parts[i]
  {
    if parts != [] {
      var init := parts[..|parts| - 1];
      FlattenMembers(init, x);
      assert forall i :: 0 <= i < |init| ==> init[i] == parts[i];
    }
  }

  /** Concatenating two lists of parts concatenates the results. */
  lemma {:induction false} FlattenAppend<T>(a: seq<seq<T>>, b: seq<seq<T>>)
    ensures Flatten(a + b) == Flatten(a) + Flatten(b)
  {
    if b == [] {
      assert a + b == a;
    } else {
      var init, last := b[..|b| - 1], b[|b| - 1];
      assert (a + b)[..|a + b| - 1] == a + init;
      assert (a + b)[|a + b| - 1] == last;
      assert Flatten(a + b) == Flatten(a + init) + last;
      FlattenAppend(a, init);
      assert Flatten(b) == Flatten(init) + last;
    }
  }
}
