/**
 * The `Array` extension methods and the generic `+=`. A Swift array is a
 * value, so an array is a `seq`; an array stored in a `var` and mutated in
 * place is an object whose `elements` field the mutating methods reassign.
 */
module ArrayExtensions {
  import opened Wrappers

  /** `get(index)`: the element at `index` when it is in bounds, `nil` otherwise. */
  function Get<T>(a: seq<T>, index: int): (r: Option<T>)
    ensures r.Some? <==> 0 <= index < |a|
    ensures r.Some? ==> r.value == a[index]
  {
    if index >= 0 && index < |a| then Some(a[index]) else None
  }

  // ---------------------------------------------------------------------------
  // filterByType: the dynamic cast `element as? Result` is the parameter `cast`.

  /** The successful casts of the elements of `a`, in order. */
  function Casts<T, R>(a: seq<T>, cast: T -> Option<R>): seq<R>
    decreases |a|
  {
    if a == [] then []
    else
      var last := cast(a[|a| - 1]);
      Casts(a[..|a| - 1], cast) + (if last.Some? then [last.value] else [])
  }

  /** `filterByType`: collects, in order, every element whose cast succeeds. */
  method FilterByType<T, R>(a: seq<T>, cast: T -> Option<R>) returns (result: seq<R>)
    ensures result == Casts(a, cast)
  {
    result := [];
    for k := 0 to |a|
      invariant result == Casts(a[..k], cast)
    {
      assert a[..k + 1][..k] == a[..k];
      var casted := cast(a[k]);
      if casted.Some? {
        result := result + [casted.value];
      }
    }
    assert a[..|a|] == a;
  }

  /** Filtering a concatenation filters each part. */
  lemma {:induction false} CastsAppend<T, R>(a: seq<T>, b: seq<T>, cast: T -> Option<R>)
    ensures Casts(a + b, cast) == Casts(a, cast) + Casts(b, cast)
    decreases |b|
  {
    if b == [] {
      assert a + b == a;
    } else {
      var b' := b[..|b| - 1];
      assert (a + b)[..|a + b| - 1] == a + b';
      CastsAppend(a, b', cast);
    }
  }

  /** A value is in the result of `filterByType` iff some element casts to it; the result is never longer. */
  lemma {:induction false} CastsMembers<T, R>(a: seq<T>, cast: T -> Option<R>, x: R)
    ensures |Casts(a, cast)| <= |a|
    ensures x in Casts(a, cast) <==> exists k :: 0 <= k < |a| && cast(a[k]) == Some(x)
    decreases |a|
  {
    if a != [] {
      var a' := a[..|a| - 1];
      CastsMembers(a', cast, x);
      if x in Casts(a, cast) && x !in Casts(a', cast) {
        assert cast(a[|a| - 1]) == Some(x);
      }
      if exists k :: 0 <= k < |a| && cast(a[k]) == Some(x) {
        var k :| 0 <= k < |a| && cast(a[k]) == Some(x);
        if k < |a| - 1 {
          assert cast(a'[k]) == Some(x);
        }
      }
    }
  }

  // ---------------------------------------------------------------------------
  // setOrAppend and +=

  /** The array after `setOrAppend(index, value)`. */
  function SetOrAppended<T>(a: seq<T>, index: int, value: T): (r: seq<T>)
    requires 0 <= index <= |a|
    ensures |r| == if index == |a| then |a| + 1 else |a|
    ensures r[index] == value
    ensures forall j :: 0 <= j < |a| && j != index ==> r[j] == a[j]
  {
    if index == |a| then a + [value] else a[index := value]
  }

  /** After `setOrAppend(index, value)`, `get` finds `value` at `index` and what it found elsewhere. */
  lemma GetAfterSetOrAppend<T>(a: seq<T>, index: int, value: T, j: int)
    requires 0 <= index <= |a|
    ensures Get(SetOrAppended(a, index, value), index) == Some(value)
    ensures j != index ==> Get(SetOrAppended(a, index, value), j) == Get(a, j)
  {
  }

  /** After `a += x`, `get` finds `x` at the old count and what it found elsewhere. */
  lemma GetAfterAppend<T>(a: seq<T>, x: T, j: int)
    ensures Get(a + [x], |a|) == Some(x)
    ensures j != |a| ==> Get(a + [x], j) == Get(a, j)
  {
  }

  /** A Swift array held in a `var`, mutated in place. */
  class MutableArray<T> {
    var elements: seq<T>

    constructor (initial: seq<T>)
      ensures elements == initial
    {
      elements := initial;
    }

    /**
     * `setOrAppend(index, value)`: appends when `index` is the count, and
     * otherwise stores into `index`; any other index traps in Swift.
     */
    method SetOrAppend(index: int, value: T)
      requires 0 <= index <= |elements|
      modifies this
      ensures elements == SetOrAppended(old(elements), index, value)
    {
      if index == |elements| {
        elements := elements + [value];
      } else {
        elements := elements[index := value];
      }
    }

    /** `lhs += newElement`: appends exactly one element at the end. */
    method Append(newElement: T)
      modifies this
      ensures elements == old(elements) + [newElement]
    {
      elements := elements + [newElement];
    }
  }

  // ---------------------------------------------------------------------------
  // attemptMap

  /**
   * `attemptMap(f)`: maps every element through `f` in order, and gives up
   * with `nil` at the first element that `f` maps to `nil`.
   */
  method AttemptMap<T, U>(a: seq<T>, f: T -> Option<U>) returns (r: Option<seq<U>>)
    ensures r.None? <==> exists k :: 0 <= k < |a| && f(a[k]).None?
    ensures r.Some? ==> |r.value| == |a| && forall k :: 0 <= k < |a| ==> f(a[k]) == Some(r.value[k])
  {
    var result: seq<U> := [];
    var k := 0;
    while k < |a|
      invariant 0 <= k <= |a|
      invariant |result| == k
      invariant forall j :: 0 <= j < k ==> f(a[j]) == Some(result[j])
    {
      var mapped := f(a[k]);
      if mapped.None? {
        return None;
      }
      result := result + [mapped.value];
      k := k + 1;
    }
    return Some(result);
  }

  // ---------------------------------------------------------------------------
  // unique

  /**
   * The elements of `a` that `unique(f)` keeps when the keys in `seen` have
   * already been met: an element is kept iff its key has not been met before.
   */
  function KeepFirst<T, V(==)>(a: seq<T>, f: T -> V, seen: set<V>): seq<T>
    decreases |a|
  {
    if a == [] then []
    else if f(a[0]) in seen then KeepFirst(a[1..], f, seen)
    else [a[0]] + KeepFirst(a[1..], f, seen + {f(a[0])})
  }

  /** `unique(f)`: filters the array, keeping an element only if its key `f(element)` was not seen yet. */
  method Unique<T, V(==)>(a: seq<T>, f: T -> V) returns (r: seq<T>)
    ensures r == KeepFirst(a, f, {})
  {
    var seen: set<V> := {};
    r := [];
    for k := 0 to |a|
      invariant r + KeepFirst(a[k..], f, seen) == KeepFirst(a, f, {})
    {
      assert a[k..][1..] == a[k + 1..];
      var val := f(a[k]);
      if val !in seen {
        seen := seen + {val};
        r := r + [a[k]];
      }
    }
  }

  /** The keys of the elements of `s`. */
  ghost function Keys<T, V>(s: seq<T>, f: T -> V): set<V>
  {
    set x | x in s :: f(x)
  }

  /** No two elements of `s` share a key. */
  ghost predicate DistinctKeys<T, V>(s: seq<T>, f: T -> V)
  {
    forall i, j :: 0 <= i < j < |s| ==> f(s[i]) != f(s[j])
  }

  /** `r` is `a` with some elements left out and the rest kept in order. */
  ghost predicate IsSubsequence<T>(r: seq<T>, a: seq<T>)
    decreases |a|
  {
    r == [] ||
    (a != [] && ((r[0] == a[0] && IsSubsequence(r[1..], a[1..])) || IsSubsequence(r, a[1..])))
  }

  /** `a[k]` is the first element of `a` with its key. */
  ghost predicate FirstOccurrence<T, V>(a: seq<T>, f: T -> V, k: int)
  {
    0 <= k < |a| && forall j :: 0 <= j < k ==> f(a[j]) != f(a[k])
  }

  lemma {:induction false} KeepFirstSubsequence<T, V>(a: seq<T>, f: T -> V, seen: set<V>)
    ensures IsSubsequence(KeepFirst(a, f, seen), a)
    decreases |a|
  {
    if a != [] {
      if f(a[0]) in seen {
        KeepFirstSubsequence(a[1..], f, seen);
      } else {
        KeepFirstSubsequence(a[1..], f, seen + {f(a[0])});
        assert KeepFirst(a, f, seen)[1..] == KeepFirst(a[1..], f, seen + {f(a[0])});
      }
    }
  }

  /** The keys of `[x] + s` are the key of `x` and the keys of `s`. */
  lemma KeysOfCons<T, V>(x: T, s: seq<T>, f: T -> V)
    ensures Keys([x] + s, f) == {f(x)} + Keys(s, f)
  {
    assert forall y :: y in [x] + s <==> y == x || y in s;
  }

  /** Putting an element with a new key in front keeps the keys distinct. */
  lemma DistinctKeysCons<T, V>(x: T, s: seq<T>, f: T -> V)
    requires DistinctKeys(s, f) && f(x) !in Keys(s, f)
    ensures DistinctKeys([x] + s, f)
  {
    var r := [x] + s;
    forall i, j | 0 <= i < j < |r|
      ensures f(r[i]) != f(r[j])
    {
      if i == 0 {
        assert r[j] in s;
      } else {
        assert r[i] == s[i - 1] && r[j] == s[j - 1];
      }
    }
  }

  lemma {:induction false} KeepFirstKeys<T, V>(a: seq<T>, f: T -> V, seen: set<V>)
    ensures Keys(KeepFirst(a, f, seen), f) == Keys(a, f) - seen
    ensures DistinctKeys(KeepFirst(a, f, seen), f)
    decreases |a|
  {
    if a != [] {
      var v := f(a[0]);
      assert a == [a[0]] + a[1..];
      KeysOfCons(a[0], a[1..], f);
      if v in seen {
        KeepFirstKeys(a[1..], f, seen);
      } else {
        var rest := KeepFirst(a[1..], f, seen + {v});
        KeepFirstKeys(a[1..], f, seen + {v});
        KeysOfCons(a[0], rest, f);
        DistinctKeysCons(a[0], rest, f);
      }
    }
  }

  lemma {:induction false} KeepFirstKeepsFirstOccurrences<T, V>(a: seq<T>, f: T -> V, seen: set<V>, k: int)
    requires FirstOccurrence(a, f, k) && f(a[k]) !in seen
    ensures a[k] in KeepFirst(a, f, seen)
    decreases |a|
  {
    if k > 0 {
      assert f(a[0]) != f(a[k]);
      var seen' := if f(a[0]) in seen then seen else seen + {f(a[0])};
      assert FirstOccurrence(a[1..], f, k - 1) by {
        forall j | 0 <= j < k - 1
          ensures f(a[1..][j]) != f(a[1..][k - 1])
        {
          assert f(a[j + 1]) != f(a[k]);
        }
      }
      KeepFirstKeepsFirstOccurrences(a[1..], f, seen', k - 1);
    }
  }

  lemma {:induction false} KeepFirstOfDistinct<T, V>(s: seq<T>, f: T -> V, seen: set<V>)
    requires DistinctKeys(s, f) && Keys(s, f) !! seen
    ensures KeepFirst(s, f, seen) == s
    decreases |s|
  {
    if s != [] {
      var v := f(s[0]);
      assert s[0] in s;
      var s' := s[1..];
      assert DistinctKeys(s', f) by {
        forall i, j | 0 <= i < j < |s'|
          ensures f(s'[i]) != f(s'[j])
        {
          assert f(s[i + 1]) != f(s[j + 1]);
        }
      }
      assert Keys(s', f) !! seen + {v} by {
        forall x | x in s'
          ensures f(x) !in seen + {v}
        {
          var j :| 0 <= j < |s'| && s'[j] == x;
          assert f(s[0]) != f(s[j + 1]);
          assert x in s;
        }
      }
      KeepFirstOfDistinct(s', f, seen + {v});
    }
  }

  /** The result of `unique(f)` keeps some elements of the input in their order, and no two share a key. */
  lemma UniqueIsDistinctSubsequence<T, V>(a: seq<T>, f: T -> V)
    ensures IsSubsequence(KeepFirst(a, f, {}), a)
    ensures DistinctKeys(KeepFirst(a, f, {}), f)
  {
    KeepFirstSubsequence(a, f, {});
    KeepFirstKeys(a, f, {});
  }

  /**
   * Every key of the input is the key of an element of the result, and that
   * element is the key's first occurrence in the input.
   */
  lemma UniqueKeepsFirstOccurrences<T, V>(a: seq<T>, f: T -> V)
    ensures Keys(KeepFirst(a, f, {}), f) == Keys(a, f)
    ensures forall k :: FirstOccurrence(a, f, k) ==> a[k] in KeepFirst(a, f, {})
  {
    KeepFirstKeys(a, f, {});
    forall k | FirstOccurrence(a, f, k)
      ensures a[k] in KeepFirst(a, f, {})
    {
      KeepFirstKeepsFirstOccurrences(a, f, {}, k);
    }
  }

  /** The first occurrences among `a[..n]`, in the order of their indices. */
  ghost function FirstOccurrences<T, V>(a: seq<T>, f: T -> V, n: nat): seq<T>
    requires n <= |a|
  {
    if n == 0 then []
    else FirstOccurrences(a, f, n - 1) + (if FirstOccurrence(a, f, n - 1) then [a[n - 1]] else [])
  }

  /** The keys met in `a[..n]` are exactly the keys of its elements. */
  lemma KeysOfPrefix<T, V>(a: seq<T>, f: T -> V, n: nat)
    requires n < |a|
    ensures Keys(a[..n + 1], f) == Keys(a[..n], f) + {f(a[n])}
    ensures f(a[n]) in Keys(a[..n], f) <==> !FirstOccurrence(a, f, n)
  {
    assert a[..n + 1] == a[..n] + [a[n]];
    if f(a[n]) in Keys(a[..n], f) {
      var x :| x in a[..n] && f(x) == f(a[n]);
      var j :| 0 <= j < n && a[..n][j] == x;
      assert f(a[j]) == f(a[n]);
    }
    if !FirstOccurrence(a, f, n) {
      var j :| 0 <= j < n && f(a[j]) == f(a[n]);
      assert a[j] == a[..n][j];
    }
  }

  /** `unique` has kept the first occurrences of `a[..n]` and goes on with the keys met there. */
  lemma {:induction false} KeepFirstAfterPrefix<T, V>(a: seq<T>, f: T -> V, n: nat)
    requires n <= |a|
    ensures KeepFirst(a, f, {}) == FirstOccurrences(a, f, n) + KeepFirst(a[n..], f, Keys(a[..n], f))
    decreases n
  {
    if n == 0 {
      assert a[0..] == a;
      assert Keys(a[..0], f) == {};
    } else {
      var m := n - 1;
      KeepFirstAfterPrefix(a, f, m);
      KeysOfPrefix(a, f, m);
      var seen := Keys(a[..m], f);
      assert a[m..][1..] == a[n..];
      assert a[m..][0] == a[m];
      if FirstOccurrence(a, f, m) {
        assert KeepFirst(a[m..], f, seen) == [a[m]] + KeepFirst(a[n..], f, seen + {f(a[m])});
        assert FirstOccurrences(a, f, n) == FirstOccurrences(a, f, m) + [a[m]];
      } else {
        assert seen + {f(a[m])} == seen;
        assert KeepFirst(a[m..], f, seen) == KeepFirst(a[n..], f, seen);
        assert FirstOccurrences(a, f, n) == FirstOccurrences(a, f, m);
      }
    }
  }

  /**
   * The result of `unique(f)` is exactly the elements that are the first of
   * their key in the input, in the order of their positions.
   */
  lemma UniqueIsFirstOccurrencesInOrder<T, V>(a: seq<T>, f: T -> V)
    ensures KeepFirst(a, f, {}) == FirstOccurrences(a, f, |a|)
  {
    KeepFirstAfterPrefix(a, f, |a|);
    assert a[|a|..] == [];
  }

  /** Applying `unique(f)` twice is the same as applying it once. */
  lemma UniqueIdempotent<T, V>(a: seq<T>, f: T -> V)
    ensures KeepFirst(KeepFirst(a, f, {}), f, {}) == KeepFirst(a, f, {})
  {
    KeepFirstKeys(a, f, {});
    KeepFirstOfDistinct(KeepFirst(a, f, {}), f, {});
  }

  // ---------------------------------------------------------------------------
  // nonEmptyArray

  /** `nonEmptyArray`: `nil` for the empty array, the array itself otherwise. */
  function NonEmptyArray<T>(a: seq<T>): (r: Option<seq<T>>)
    ensures r.None? <==> |a| == 0
    ensures r.Some? ==> r.value == a
  {
    if |a| == 0 then None else Some(a)
  }
}
