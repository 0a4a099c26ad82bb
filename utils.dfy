/** Array helpers of the floor-plan library (src/utils/Utils.ts). A JavaScript list is a
    sequence; a helper that splices an list in place returns the new sequence, which the
    caller stores back into the field it was given. */
module Utils {

  /** `x mod n` for `0 <= x <= 2n`, without the modulus operator. */
  function Wrap(x: nat, n: nat): nat {
    if x < n then x else x - n
  }

  /** Left rotation by `j` places. */
  function Rotate<T>(a: seq<T>, j: nat): (r: seq<T>)
    requires j <= |a|
    ensures |r| == |a|
    ensures forall i :: 0 <= i < |a| - j ==> r[i] == a[i + j]
    ensures forall i :: |a| - j <= i < |a| ==> r[i] == a[i + j - |a|]
  {
    a[j..] + a[..j]
  }

  /** The elements of `s` that satisfy `keep`, in their original order. */
  function Keep<T>(s: seq<T>, keep: T -> bool): (r: seq<T>)
    ensures |r| <= |s|
    ensures forall i :: 0 <= i < |r| ==> r[i] in s && keep(r[i])
    ensures forall i :: 0 <= i < |s| && keep(s[i]) ==> s[i] in r
  {
    if s == [] then [] else (if keep(s[0]) then [s[0]] else []) + Keep(s[1..], keep)
  }

  /** One round of `cycle`'s loop: `shift()` the head off and `push` it back when truthy.
      Shifting an empty list yields `undefined`, which is falsy, so nothing is pushed. */
  function ShiftPush<T>(a: seq<T>, truthy: T -> bool): seq<T> {
    if a == [] then [] else if truthy(a[0]) then a[1..] + [a[0]] else a[1..]
  }

  /** What `cycle(arr, shift)` returns: `shift` rounds of ShiftPush on a copy of `arr`. */
  function CycleSpec<T>(a: seq<T>, shift: int, truthy: T -> bool): seq<T>
    decreases shift
  {
    if shift <= 0 then a else ShiftPush(CycleSpec(a, shift - 1, truthy), truthy)
  }

  /** `Utils.cycle`: shifts a copy of `arr` `shift` times; `arr` itself is a value and is
      therefore never changed. */
  method Cycle<T>(arr: seq<T>, shift: int, truthy: T -> bool) returns (r: seq<T>)
    ensures r == CycleSpec(arr, shift, truthy)
  {
    r := arr;
    var i := 0;
    while i < shift
      invariant i <= shift || (i == 0 && shift < 0)
      invariant r == CycleSpec(arr, i, truthy)
    {
      if |r| > 0 {
        var tmp := r[0];
        r := r[1..];
        if truthy(tmp) {
          r := r + [tmp];
        }
      }
      i := i + 1;
    }
  }

  /** For a shift no longer than the list, `cycle` moves the first `j` elements to the end,
      dropping the falsy ones among them. */
  lemma {:induction false} CycleShort<T>(a: seq<T>, j: nat, truthy: T -> bool)
    requires j <= |a|
    ensures CycleSpec(a, j, truthy) == a[j..] + Keep(a[..j], truthy)
  {
    if j > 0 {
      CycleShort(a, j - 1, truthy);
      var rest := Keep(a[..j - 1], truthy);
      ShiftPushFront(a, j, rest, truthy);
      KeepSnoc(a[..j - 1], a[j - 1], truthy);
      assert a[..j] == a[..j - 1] + [a[j - 1]];
    } else {
      assert a[..0] == [] && a[0..] == a;
    }
  }

  /** One round of `cycle` on `a[j - 1..] + rest` moves `a[j - 1]` behind `rest` when truthy
      and drops it otherwise. */
  lemma ShiftPushFront<T>(a: seq<T>, j: nat, rest: seq<T>, truthy: T -> bool)
    requires 0 < j <= |a|
    ensures ShiftPush(a[j - 1..] + rest, truthy) == a[j..] + (rest + if truthy(a[j - 1]) then [a[j - 1]] else [])
  {
    var s := a[j - 1..] + rest;
    assert s[0] == a[j - 1] && s[1..] == a[j..] + rest;
  }

  lemma {:induction false} KeepSnoc<T>(s: seq<T>, x: T, keep: T -> bool)
    ensures Keep(s + [x], keep) == Keep(s, keep) + (if keep(x) then [x] else [])
  {
    if s != [] {
      assert (s + [x])[1..] == s[1..] + [x];
      KeepSnoc(s[1..], x, keep);
    }
  }

  /** Running `cycle` for `i` then `k` rounds is running it for `i + k` rounds. */
  lemma {:induction false} CycleCompose<T>(a: seq<T>, i: nat, k: nat, truthy: T -> bool)
    ensures CycleSpec(CycleSpec(a, i, truthy), k, truthy) == CycleSpec(a, i + k, truthy)
  {
    if k > 0 {
      CycleCompose(a, i, k - 1, truthy);
    }
  }

  /** When every element is truthy, a shift by `j <= n` is the left rotation by `j`, and a
      shift by `n` more gives the same array again: `cycle` rotates by `j mod n` and keeps
      the length. */
  lemma CycleIsRotation<T>(a: seq<T>, j: nat, truthy: T -> bool)
    requires forall i :: 0 <= i < |a| ==> truthy(a[i])
    ensures j <= |a| ==> CycleSpec(a, j, truthy) == Rotate(a, j)
    ensures CycleSpec(a, j + |a|, truthy) == CycleSpec(a, j, truthy)
  {
    AllKept(a, truthy);
    if j <= |a| {
      CycleShort(a, j, truthy);
      AllKept(a[..j], truthy);
    }
    CycleShort(a, |a|, truthy);
    assert a[..|a|] == a && a[|a|..] == [];
    assert CycleSpec(a, |a|, truthy) == a;
    CycleCompose(a, |a|, j, truthy);
  }

  lemma {:induction false} AllKept<T>(s: seq<T>, keep: T -> bool)
    requires forall i :: 0 <= i < |s| ==> keep(s[i])
    ensures Keep(s, keep) == s
  {
    if s != [] {
      AllKept(s[1..], keep);
    }
  }

  /** `v` removed everywhere, every other element kept in its relative order. */
  function Without<T(==)>(s: seq<T>, v: T): (r: seq<T>)
    ensures |r| <= |s|
    ensures v !in r
  {
    if s == [] then [] else (if s[0] == v then [] else [s[0]]) + Without(s[1..], v)
  }

  /** Exactly the elements other than `v` survive. */
  lemma {:induction false} WithoutMembers<T>(s: seq<T>, v: T, x: T)
    ensures x in Without(s, v) <==> x in s && x != v
  {
    if s != [] {
      WithoutMembers(s[1..], v, x);
      assert s == [s[0]] + s[1..];
    }
  }

  /** Removing a value from a concatenation removes it from each part: the survivors keep
      their order. */
  lemma {:induction false} WithoutAppend<T>(s: seq<T>, t: seq<T>, v: T)
    ensures Without(s + t, v) == Without(s, v) + Without(t, v)
  {
    if s == [] {
      assert s + t == t;
    } else {
      var st := s + t;
      assert st[0] == s[0] && st[1..] == s[1..] + t;
      WithoutAppend(s[1..], t, v);
      var h := if s[0] == v then [] else [s[0]];
      assert Without(st, v) == h + Without(s[1..] + t, v);
      assert Without(s, v) == h + Without(s[1..], v);
      assert h + (Without(s[1..], v) + Without(t, v)) == (h + Without(s[1..], v)) + Without(t, v);
    }
  }

  /** A value that does not occur is not removed. */
  lemma {:induction false} WithoutAbsent<T>(s: seq<T>, v: T)
    requires v !in s
    ensures Without(s, v) == s
  {
    if s != [] {
      WithoutAbsent(s[1..], v);
    }
  }

  /** The elements at even positions: what a forward loop reaches when each step splices
      the element it visits out of the list it walks. */
  function EveryOther<T>(s: seq<T>): (r: seq<T>)
    ensures |r| == (|s| + 1) / 2
  {
    seq((|s| + 1) / 2, k requires 0 <= k < (|s| + 1) / 2 => s[2 * k])
  }

  /** The elements at odd positions: the ones such a loop steps over. */
  function Skipped<T>(s: seq<T>): (r: seq<T>)
    ensures |r| == |s| / 2
  {
    seq(|s| / 2, k requires 0 <= k < |s| / 2 => s[2 * k + 1])
  }

  /** Both halves of a list of two or more start with its first two elements. */
  lemma HalvesCons<T>(s: seq<T>)
    requires |s| >= 2
    ensures EveryOther(s) == [s[0]] + EveryOther(s[2..])
    ensures Skipped(s) == [s[1]] + Skipped(s[2..])
  {
    var t := s[2..];
    assert |EveryOther(s)| == |EveryOther(t)| + 1 && |Skipped(s)| == |Skipped(t)| + 1;
    forall k | 1 <= k < |EveryOther(s)| ensures EveryOther(s)[k] == EveryOther(t)[k - 1] {
    }
    forall k | 1 <= k < |Skipped(s)| ensures Skipped(s)[k] == Skipped(t)[k - 1] {
    }
  }

  /** The visited and the skipped elements together are the list. */
  lemma {:induction false} EveryOtherSplit<T>(s: seq<T>)
    ensures multiset(EveryOther(s)) + multiset(Skipped(s)) == multiset(s)
  {
    if |s| >= 2 {
      var t := s[2..];
      EveryOtherSplit(t);
      HalvesCons(s);
      assert s == [s[0], s[1]] + t;
    } else if |s| == 1 {
      assert EveryOther(s) == s;
    }
  }

  /** Two more elements of a prefix add one element to each half. */
  lemma HalvesSnoc<T>(s: seq<T>, i: nat)
    requires 2 * i + 2 <= |s|
    ensures Skipped(s[..2 * i + 2]) == Skipped(s[..2 * i]) + [s[2 * i + 1]]
    ensures EveryOther(s[..2 * i + 2]) == EveryOther(s[..2 * i]) + [s[2 * i]]
  {
    var a, b := s[..2 * i + 2], s[..2 * i];
    assert |Skipped(a)| == i + 1 && |EveryOther(a)| == i + 1;
    assert |Skipped(b)| == i && |EveryOther(b)| == i;
    forall k | 0 <= k < i ensures Skipped(a)[k] == Skipped(b)[k] && EveryOther(a)[k] == EveryOther(b)[k] {
    }
  }

  /** One more element of an even prefix adds one to the visited elements only. */
  lemma HalvesSnocOdd<T>(s: seq<T>, i: nat)
    requires 2 * i + 1 <= |s|
    ensures Skipped(s[..2 * i + 1]) == Skipped(s[..2 * i])
    ensures EveryOther(s[..2 * i + 1]) == EveryOther(s[..2 * i]) + [s[2 * i]]
  {
    var a, b := s[..2 * i + 1], s[..2 * i];
    assert |Skipped(a)| == i && |EveryOther(a)| == i + 1;
    assert |Skipped(b)| == i && |EveryOther(b)| == i;
    forall k | 0 <= k < i ensures Skipped(a)[k] == Skipped(b)[k] && EveryOther(a)[k] == EveryOther(b)[k] {
    }
  }

  /** The list of a loop that splices what it visits, at index `i`: the element there is
      `s[2 * i]`, and splicing it out leaves the skipped elements and the rest after it. */
  lemma SpliceAt<T>(s: seq<T>, list: seq<T>, i: nat)
    requires 2 * i < |s| && list == Skipped(s[..2 * i]) + s[2 * i..] && Distinct(list)
    ensures i < |list| && list[i] == s[2 * i]
    ensures Without(list, s[2 * i]) == Skipped(s[..2 * i]) + s[2 * i + 1..]
  {
    assert |Skipped(s[..2 * i])| == i;
    WithoutAt(list, i);
    assert list[i + 1..] == s[2 * i + 1..];
  }

  /** The same list shape two elements further on, or at the end of the list. */
  lemma SpliceNext<T>(s: seq<T>, i: nat)
    requires 2 * i < |s|
    ensures var j := if 2 * i + 2 <= |s| then 2 * i + 2 else |s|;
      && Skipped(s[..2 * i]) + s[2 * i + 1..] == Skipped(s[..j]) + s[j..]
      && EveryOther(s[..j]) == EveryOther(s[..2 * i]) + [s[2 * i]]
  {
    if 2 * i + 2 <= |s| {
      HalvesSnoc(s, i);
      assert s[2 * i + 1..] == [s[2 * i + 1]] + s[2 * i + 2..];
    } else {
      HalvesSnocOdd(s, i);
    }
  }

  /** The elements of `s` not in `drop`, in their original order. */
  function Except<T>(s: seq<T>, drop: set<T>): (r: seq<T>)
    ensures |r| <= |s|
  {
    if s == [] then [] else (if s[0] in drop then [] else [s[0]]) + Except(s[1..], drop)
  }

  /** Dropping nothing keeps the list. */
  lemma {:induction false} ExceptNothing<T>(s: seq<T>)
    ensures Except(s, {}) == s
  {
    if s != [] {
      ExceptNothing(s[1..]);
    }
  }

  /** Dropping one more value is removing it from what was left. */
  lemma {:induction false} ExceptWithout<T>(s: seq<T>, drop: set<T>, v: T)
    ensures Except(s, drop + {v}) == Without(Except(s, drop), v)
  {
    if s != [] {
      ExceptWithout(s[1..], drop, v);
      var h := if s[0] in drop then [] else [s[0]];
      WithoutAppend(h, Except(s[1..], drop), v);
    }
  }

  /** Exactly the elements outside `drop` survive. */
  lemma {:induction false} ExceptMembers<T>(s: seq<T>, drop: set<T>, x: T)
    ensures x in Except(s, drop) <==> x in s && x !in drop
  {
    if s != [] {
      ExceptMembers(s[1..], drop, x);
      assert s == [s[0]] + s[1..];
    }
  }

  /** Dropping values the list does not hold keeps it. */
  lemma {:induction false} ExceptUntouched<T>(s: seq<T>, drop: set<T>)
    requires forall x :: x in s ==> x !in drop
    ensures Except(s, drop) == s
  {
    if s != [] {
      assert s[0] in s;
      forall x | x in s[1..] ensures x !in drop {
        assert x in s;
      }
      ExceptUntouched(s[1..], drop);
      assert s == [s[0]] + s[1..];
    }
  }

  /** Dropping two sets one after the other is dropping their union. */
  lemma {:induction false} ExceptUnion<T>(s: seq<T>, a: set<T>, b: set<T>)
    ensures Except(Except(s, a), b) == Except(s, a + b)
  {
    if s != [] {
      ExceptUnion(s[1..], a, b);
      var r := Except(s[1..], a);
      if s[0] in a {
        assert Except(s, a) == r;
      } else {
        assert Except(s, a) == [s[0]] + r;
        assert ([s[0]] + r)[1..] == r;
        assert Except([s[0]] + r, b) == (if s[0] in b then [] else [s[0]]) + Except(r, b);
      }
    }
  }

  /** The set of elements of a list. */
  function Elems<T>(s: seq<T>): set<T> {
    set v | v in s
  }

  /** Appending an element adds it to the set of elements. */
  lemma ElemsSnoc<T>(s: seq<T>, a: T)
    ensures Elems(s + [a]) == Elems(s) + {a}
  {
  }

  /** No element occurs twice. */
  predicate Distinct<T(==)>(s: seq<T>) {
    forall i, j :: 0 <= i < j < |s| ==> s[i] != s[j]
  }

  /** Removing a value keeps a list free of duplicates. */
  lemma {:induction false} WithoutDistinct<T>(s: seq<T>, v: T)
    requires Distinct(s)
    ensures Distinct(Without(s, v))
  {
    if s != [] {
      assert Distinct(s[1..]) by {
        forall i, j | 0 <= i < j < |s| - 1 ensures s[1..][i] != s[1..][j] {
          assert s[1..][i] == s[i + 1] && s[1..][j] == s[j + 1];
        }
      }
      WithoutDistinct(s[1..], v);
      WithoutMembers(s[1..], v, s[0]);
    }
  }

  /** Appending an element that is not there yet keeps a list free of duplicates. */
  lemma DistinctSnoc<T>(s: seq<T>, x: T)
    requires Distinct(s) && x !in s
    ensures Distinct(s + [x])
  {
  }

  /** In a list without duplicates, removing the element at index `k` splices out just it. */
  lemma {:induction false} WithoutAt<T>(s: seq<T>, k: nat)
    requires k < |s|
    requires Distinct(s)
    ensures Without(s, s[k]) == s[..k] + s[k + 1..]
  {
    if k == 0 {
      WithoutAbsent(s[1..], s[0]);
    } else {
      assert s[1..][k - 1] == s[k];
      assert Distinct(s[1..]) by {
        forall i, j | 0 <= i < j < |s| - 1 ensures s[1..][i] != s[1..][j] {
          assert s[1..][i] == s[i + 1] && s[1..][j] == s[j + 1];
        }
      }
      WithoutAt(s[1..], k - 1);
      assert s[..k] == [s[0]] + s[1..][..k - 1];
      assert s[k + 1..] == s[1..][k..];
    }
  }

  /** In a list without duplicates, an element does not occur before its position. */
  lemma DistinctBefore<T>(s: seq<T>, k: nat)
    requires k < |s| && Distinct(s)
    ensures s[k] !in s[..k]
  {
    forall i | 0 <= i < k ensures s[..k][i] != s[k] {
      assert s[..k][i] == s[i];
    }
  }

  /** In a list without duplicates, an element does not occur after its position. */
  lemma DistinctAfter<T>(s: seq<T>, k: nat)
    requires k < |s| && Distinct(s)
    ensures s[k] !in s[k + 1..]
  {
    var rest := s[k + 1..];
    forall i | 0 <= i < |rest| ensures rest[i] != s[k] {
      assert rest[i] == s[k + 1 + i];
    }
  }

  /** Splicing out the last element of a prefix, when it occurs neither earlier nor in the
      tail that follows, leaves the shorter prefix and the tail. */
  lemma WithoutLast<T>(s: seq<T>, k: nat, tail: seq<T>)
    requires 0 < k <= |s| && s[k - 1] !in s[..k - 1] && s[k - 1] !in tail
    ensures Without(s[..k] + tail, s[k - 1]) == s[..k - 1] + tail
  {
    var w := s[k - 1];
    var front, rest := s[..k - 1], [w] + tail;
    assert s[..k] + tail == front + rest;
    WithoutAppend(front, rest, w);
    WithoutAbsent(front, w);
    assert rest[1..] == tail;
    WithoutAbsent(tail, w);
  }

  /** The element at `k - 1` of a prefix followed by a tail, and the list seen as the
      shorter prefix, that element and the tail. */
  lemma PrefixCons<T>(s: seq<T>, k: nat, tail: seq<T>)
    requires 0 < k <= |s|
    ensures (s[..k] + tail)[k - 1] == s[k - 1]
    ensures s[..k] + tail == s[..k - 1] + ([s[k - 1]] + tail)
  {
  }

  /** In a list without duplicates made of a prefix and a tail, removing the last element
      of the prefix leaves the shorter prefix and the tail. */
  lemma WithoutSpliced<T>(s: seq<T>, k: nat, tail: seq<T>)
    requires 0 < k <= |s| && Distinct(s[..k] + tail)
    ensures Without(s[..k] + tail, s[k - 1]) == s[..k - 1] + tail
  {
    var list := s[..k] + tail;
    assert list[k - 1] == s[k - 1] && list[..k - 1] == s[..k - 1] && list[k..] == tail;
    DistinctBefore(list, k - 1);
    DistinctAfter(list, k - 1);
    WithoutLast(s, k, tail);
  }

  /** `Utils.removeValue`: a backward loop that splices every element equal to `value`. */
  method RemoveValue<T(==)>(list: seq<T>, value: T) returns (r: seq<T>)
    ensures r == Without(list, value)
  {
    r := list;
    var i := |list| - 1;
    assert list[|list|..] == [];
    assert list[..|list|] == list;
    while i >= 0
      invariant -1 <= i < |list|
      invariant r == list[..i + 1] + Without(list[i + 1..], value)
    {
      ghost var rest := Without(list[i + 1..], value);
      RemoveStep(list, i, value, r);
      if r[i] == value {
        r := r[..i] + r[i + 1..];
      }
      i := i - 1;
    }
    assert list[..0] == [] && list[0..] == list;
  }

  /** One step of the backward scan of `removeValue`, at index `i`. */
  lemma RemoveStep<T>(list: seq<T>, i: nat, value: T, r: seq<T>)
    requires i < |list| && r == list[..i + 1] + Without(list[i + 1..], value)
    ensures r[i] == list[i]
    ensures r[i] == value ==> r[..i] + r[i + 1..] == list[..i] + Without(list[i..], value)
    ensures r[i] != value ==> r == list[..i] + Without(list[i..], value)
  {
    var rest := Without(list[i + 1..], value);
    assert list[i..][0] == list[i] && list[i..][1..] == list[i + 1..];
    assert Without(list[i..], value) == (if list[i] == value then [] else [list[i]]) + rest;
    assert list[..i + 1] == list[..i] + [list[i]];
    assert r == list[..i] + [list[i]] + rest;
  }

  /** `Utils.hasValue`: a forward scan that stops at the first element equal to `value`. */
  method HasValue<T(==)>(list: seq<T>, value: T) returns (b: bool)
    ensures b <==> value in list
  {
    var i := 0;
    while i < |list|
      invariant 0 <= i <= |list|
      invariant value !in list[..i]
    {
      if list[i] == value {
        return true;
      }
      i := i + 1;
    }
    return false;
  }

  /** `Utils.hasProperty`: own-key test on a dictionary object. */
  function HasProperty<K, V>(obj: map<K, V>, prop: K): (b: bool)
    ensures b <==> prop in obj.Keys
  {
    prop in obj
  }
}
