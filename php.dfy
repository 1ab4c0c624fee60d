/**
 * PHP's ordered array: a sequence of key/value entries kept in insertion order, whose keys
 * are pairwise distinct. Keys are integers or strings, already normalised the way PHP
 * stores them (a numeric string key such as "3" is stored as the integer 3).
 */
module Php {
  import opened Wrappers

  datatype Key = IntKey(i: int) | StrKey(s: string)

  datatype Entry<V> = Entry(key: Key, value: V)

  predicate UniqueKeys<V>(s: seq<Entry<V>>) {
    forall i, j | 0 <= i < j < |s| :: s[i].key != s[j].key
  }

  type PhpArray<V> = s: seq<Entry<V>> | UniqueKeys(s) witness []

  /** The PHP values the containers hold (floats, objects and resources are not modelled). */
  datatype Value = Null | Bool(b: bool) | Int(n: int) | String(s: string) | Array(entries: PhpArray<Value>)

  predicate TruthyString(s: string) {
    s != "" && s != "0"
  }

  /** PHP's conversion to bool: null, false, 0, '', '0' and the empty array are falsy. */
  predicate Truthy(v: Value) {
    match v
    case Null => false
    case Bool(b) => b
    case Int(n) => n != 0
    case String(s) => TruthyString(s)
    case Array(entries) => entries != []
  }

  function Keys<V>(a: seq<Entry<V>>): (ks: seq<Key>)
    ensures |ks| == |a| && forall i | 0 <= i < |a| :: ks[i] == a[i].key
  {
    seq(|a|, i requires 0 <= i < |a| => a[i].key)
  }

  function Values<V>(a: seq<Entry<V>>): (vs: seq<V>)
    ensures |vs| == |a| && forall i | 0 <= i < |a| :: vs[i] == a[i].value
  {
    seq(|a|, i requires 0 <= i < |a| => a[i].value)
  }

  predicate OnlyIntKeys<V>(a: seq<Entry<V>>) {
    forall i | 0 <= i < |a| :: a[i].key.IntKey?
  }

  predicate OnlyStrKeys<V>(a: seq<Entry<V>>) {
    forall i | 0 <= i < |a| :: a[i].key.StrKey?
  }

  predicate HasKey<V>(a: seq<Entry<V>>, k: Key) {
    exists i | 0 <= i < |a| :: a[i].key == k
  }

  /** PHP's Error when unpacking an array into a call (`f(...$a)`) would pass a positional argument after a named one. */
  datatype UnpackError = PositionalAfterNamed

  /**
   * Unpacking passes the string keys of an array as named arguments and the integer keys as positional
   * ones, so it fails exactly when some string key comes before an integer key.
   */
  predicate NamedBeforePositional<V>(a: seq<Entry<V>>) {
    exists i, j | 0 <= i < j < |a| :: a[i].key.StrKey? && a[j].key.IntKey?
  }

  /** Position of the first string key of `a`, or |a| when there is none. */
  function FirstStrKey<V>(a: seq<Entry<V>>): (p: nat)
    ensures p <= |a| && OnlyIntKeys(a[..p]) && (p < |a| ==> a[p].key.StrKey?)
  {
    if a == [] || a[0].key.StrKey? then 0
    else
      var p := 1 + FirstStrKey(a[1..]);
      assert forall i | 1 <= i < p :: a[..p][i] == a[1..][..p - 1][i - 1];
      p
  }

  /** Unpacking succeeds exactly when the integer keys all come before the string keys. */
  lemma UnpackOrder<V>(a: seq<Entry<V>>)
    ensures !NamedBeforePositional(a) <==> exists p | 0 <= p <= |a| :: OnlyIntKeys(a[..p]) && OnlyStrKeys(a[p..])
  {
    if !NamedBeforePositional(a) {
      var p := FirstStrKey(a);
      forall k | 0 <= k < |a[p..]|
        ensures a[p..][k].key.StrKey?
      {
        assert a[p..][k] == a[p + k];
      }
      assert OnlyStrKeys(a[p..]);
    }
    if p :| 0 <= p <= |a| && OnlyIntKeys(a[..p]) && OnlyStrKeys(a[p..]) {
      assert forall i | 0 <= i < p :: a[i].key.IntKey? by {
        assert forall i | 0 <= i < p :: a[..p][i] == a[i];
      }
      forall i, j | 0 <= i < j < |a| && a[i].key.StrKey?
        ensures !a[j].key.IntKey?
      {
        assert a[p..][j - p] == a[j];
      }
    }
  }

  /** Position of key `k` in `a`, or |a| when `k` is absent. */
  function Find<V>(a: seq<Entry<V>>, k: Key): (p: nat)
    ensures p <= |a|
    ensures p < |a| ==> a[p].key == k
    ensures forall i | 0 <= i < p :: a[i].key != k
    ensures p == |a| <==> !HasKey(a, k)
  {
    if a == [] then 0
    else if a[0].key == k then 0
    else 1 + Find(a[1..], k)
  }

  lemma FindAt<V>(a: PhpArray<V>, i: nat)
    requires i < |a|
    ensures Find(a, a[i].key) == i
  {
  }

  /** `$a[$k]` for a key that is present. */
  function Get<V>(a: PhpArray<V>, k: Key): V
    requires HasKey(a, k)
  {
    a[Find(a, k)].value
  }

  /** `$a[$k] = $v`: overwrites the value in place when `k` is present, appends otherwise. */
  function Assign<V>(a: PhpArray<V>, k: Key, v: V): (r: PhpArray<V>)
    ensures HasKey(a, k) ==> r == a[Find(a, k) := Entry(k, v)]
    ensures !HasKey(a, k) ==> r == a + [Entry(k, v)]
  {
    var p := Find(a, k);
    if p < |a| then
      var r := a[p := Entry(k, v)];
      assert forall i | 0 <= i < |a| :: r[i].key == a[i].key;
      r
    else
      a + [Entry(k, v)]
  }

  /** Assignment stores `v` under `k`, keeps every other key with its value, and never reorders keys. */
  lemma {:induction false} AssignSemantics<V>(a: PhpArray<V>, k: Key, v: V)
    ensures HasKey(Assign(a, k, v), k) && Get(Assign(a, k, v), k) == v
    ensures forall k' | k' != k :: HasKey(Assign(a, k, v), k') == HasKey(a, k')
    ensures forall k' | k' != k && HasKey(a, k') :: Get(Assign(a, k, v), k') == Get(a, k')
    ensures HasKey(a, k) ==> Keys(Assign(a, k, v)) == Keys(a)
    ensures !HasKey(a, k) ==> Keys(Assign(a, k, v)) == Keys(a) + [k]
  {
    var r := Assign(a, k, v);
    var p := Find(a, k);
    assert forall i | 0 <= i < |a| :: r[i].key == a[i].key;
    if p < |a| {
      FindAt(r, p);
    } else {
      FindAt(r, |a|);
    }
    forall k' | k' != k
      ensures HasKey(r, k') == HasKey(a, k')
    {
      if HasKey(r, k') {
        var q := Find(r, k');
        assert a[q].key == k';
      }
    }
    forall k' | k' != k && HasKey(a, k')
      ensures Get(r, k') == Get(a, k')
    {
      var q := Find(a, k');
      assert r[q].key == k';
      FindAt(r, q);
    }
  }

  /** The largest integer key of `a`, if it has one. */
  function MaxIntKey<V>(a: seq<Entry<V>>): (m: Option<int>)
    ensures m.None? <==> OnlyStrKeys(a)
    ensures m.Some? ==> HasKey(a, IntKey(m.value))
    ensures m.Some? ==> forall i | 0 <= i < |a| && a[i].key.IntKey? :: a[i].key.i <= m.value
  {
    if a == [] then None
    else
      var rest := MaxIntKey(a[1..]);
      assert forall i | 1 <= i < |a| :: a[i] == a[1..][i - 1];
      match a[0].key
      case StrKey(_) => rest
      case IntKey(n) => if rest.Some? && rest.value > n then rest else Some(n)
  }

  /** The key `$a[] = $v` uses: one more than the largest integer key, or 0 when there is none. */
  function NextIndex<V>(a: seq<Entry<V>>): (n: int)
    ensures forall i | 0 <= i < |a| && a[i].key.IntKey? :: a[i].key.i < n
  {
    match MaxIntKey(a)
    case None => 0
    case Some(m) => m + 1
  }

  /** `$a[] = $v`: appends under the next index, which is never already in use. */
  function Push<V>(a: PhpArray<V>, v: V): (r: PhpArray<V>)
    ensures !HasKey(a, IntKey(NextIndex(a)))
    ensures r == a + [Entry(IntKey(NextIndex(a)), v)]
  {
    Assign(a, IntKey(NextIndex(a)), v)
  }

  function RemoveAt<V>(a: PhpArray<V>, p: nat): (r: PhpArray<V>)
    requires p < |a|
    ensures |r| == |a| - 1
    ensures forall i | 0 <= i < |r| :: r[i] == a[if i < p then i else i + 1]
  {
    var r := a[..p] + a[p + 1..];
    assert forall i | 0 <= i < |r| :: r[i] == a[if i < p then i else i + 1];
    r
  }

  /** `unset($a[$k])`: removes the entry of `k`, keeping all other entries in order. */
  function Unset<V>(a: PhpArray<V>, k: Key): (r: PhpArray<V>)
    ensures !HasKey(r, k)
    ensures forall k' | k' != k :: HasKey(r, k') == HasKey(a, k')
    ensures HasKey(a, k) ==> r == RemoveAt(a, Find(a, k))
    ensures !HasKey(a, k) ==> r == a
  {
    var p := Find(a, k);
    if p < |a| then
      var r := RemoveAt(a, p);
      forall k' | HasKey(a, k') && k' != k
        ensures HasKey(r, k')
      {
        var q := Find(a, k');
        assert r[if q < p then q else q - 1].key == k';
      }
      r
    else
      a
  }

  /** A PHP list: the values in order under the keys 0 .. n-1 (what array_values returns). */
  function List<V>(vs: seq<V>): (r: PhpArray<V>)
    ensures |r| == |vs|
    ensures forall i | 0 <= i < |vs| :: r[i] == Entry(IntKey(i), vs[i])
  {
    seq(|vs|, i requires 0 <= i < |vs| => Entry(IntKey(i), vs[i]))
  }

  lemma ValuesOfList<V>(vs: seq<V>)
    ensures Values(List(vs)) == vs
  {
  }

  function Not<V>(p: (V, Key) -> bool): (V, Key) -> bool {
    (v, k) => !p(v, k)
  }

  /** The entries of `a` that satisfy `keep`, under their own keys (array_filter). */
  function Select<V>(a: PhpArray<V>, keep: (V, Key) -> bool): (r: PhpArray<V>)
    ensures |r| <= |a|
    ensures forall e | e in r :: e in a && keep(e.value, e.key)
    ensures forall i | 0 <= i < |a| && keep(a[i].value, a[i].key) :: a[i] in r
    decreases |a|
  {
    if a == [] then []
    else
      var init: PhpArray<V> := a[..|a| - 1];
      var last := a[|a| - 1];
      var rest := Select(init, keep);
      assert forall i | 0 <= i < |a| - 1 :: a[i] == init[i];
      if keep(last.value, last.key) then
        assert forall e | e in rest :: e.key != last.key;
        rest + [last]
      else
        rest
  }

  /** `r` is `a` with some elements left out and the others kept in their order. */
  ghost predicate Subsequence<T>(r: seq<T>, a: seq<T>)
    decreases |a|
  {
    r == [] ||
    (a != [] &&
     ((r[|r| - 1] == a[|a| - 1] && Subsequence(r[..|r| - 1], a[..|a| - 1])) || Subsequence(r, a[..|a| - 1])))
  }

  /** array_filter keeps the relative order of the entries it keeps. */
  lemma {:induction false} SelectKeepsOrder<V>(a: PhpArray<V>, keep: (V, Key) -> bool)
    ensures Subsequence(Select(a, keep), a)
    decreases |a|
  {
    if a != [] {
      var init: PhpArray<V> := a[..|a| - 1];
      SelectKeepsOrder(init, keep);
      var r := Select(a, keep);
      if r != [] && r[|r| - 1] == a[|a| - 1] {
        assert r[..|r| - 1] == Select(init, keep);
      }
    }
  }

  /** Nothing is dropped exactly when every entry passes, and then the array comes back unchanged. */
  lemma SelectKeepsAll<V>(a: PhpArray<V>, keep: (V, Key) -> bool)
    ensures |Select(a, keep)| == |a| <==> forall i | 0 <= i < |a| :: keep(a[i].value, a[i].key)
    ensures (forall i | 0 <= i < |a| :: keep(a[i].value, a[i].key)) ==> Select(a, keep) == a
  {
    if forall i | 0 <= i < |a| :: keep(a[i].value, a[i].key) {
      SelectAllKept(a, keep);
    }
    if |Select(a, keep)| == |a| {
      SelectFullLength(a, keep);
    }
  }

  lemma {:induction false} SelectAllKept<V>(a: PhpArray<V>, keep: (V, Key) -> bool)
    requires forall i | 0 <= i < |a| :: keep(a[i].value, a[i].key)
    ensures Select(a, keep) == a
    decreases |a|
  {
    if a != [] {
      var init: PhpArray<V> := a[..|a| - 1];
      assert forall i | 0 <= i < |init| :: init[i] == a[i];
      SelectAllKept(init, keep);
      SelectSnoc(a, keep);
      assert a == init + [a[|a| - 1]];
    }
  }

  lemma {:induction false} SelectFullLength<V>(a: PhpArray<V>, keep: (V, Key) -> bool)
    requires |Select(a, keep)| == |a|
    ensures forall i | 0 <= i < |a| :: keep(a[i].value, a[i].key)
    decreases |a|
  {
    if a != [] {
      var init: PhpArray<V> := a[..|a| - 1];
      SelectSnoc(a, keep);
      assert keep(a[|a| - 1].value, a[|a| - 1].key);
      SelectFullLength(init, keep);
      forall i | 0 <= i < |a|
        ensures keep(a[i].value, a[i].key)
      {
        if i < |init| {
          assert a[i] == init[i];
        }
      }
    }
  }

  lemma SelectSnoc<V>(a: PhpArray<V>, keep: (V, Key) -> bool)
    requires a != []
    ensures Select(a, keep) ==
      if keep(a[|a| - 1].value, a[|a| - 1].key) then Select(a[..|a| - 1], keep) + [a[|a| - 1]]
      else Select(a[..|a| - 1], keep)
  {
  }

  /**
   * Appends the entries of `src` to `acc` the way array_merge does: an integer-keyed entry is
   * pushed under the next index, a string-keyed one is assigned, overwriting an equal key in place.
   */
  function MergeInto<V>(acc: PhpArray<V>, src: seq<Entry<V>>): PhpArray<V>
    decreases |src|
  {
    if src == [] then acc else MergeInto(MergeStep(acc, src[0]), src[1..])
  }

  /** One entry of array_merge: pushed under the next index when its key is an integer, assigned otherwise. */
  function MergeStep<V>(acc: PhpArray<V>, e: Entry<V>): PhpArray<V> {
    if e.key.IntKey? then Push(acc, e.value) else Assign(acc, e.key, e.value)
  }

  /** array_merge(a1, ..., an). */
  function ArrayMerge<V>(arrays: seq<PhpArray<V>>): PhpArray<V>
  {
    if arrays == [] then [] else MergeInto(ArrayMerge(arrays[..|arrays| - 1]), arrays[|arrays| - 1])
  }

  /** array_slice(a, from, to - from): the entries in between, integer keys renumbered from 0. */
  function Slice<V>(a: PhpArray<V>, from: nat, to: nat): PhpArray<V>
    requires from <= to <= |a|
  {
    MergeInto([], a[from..to])
  }

  /** The values of all arrays, one array after the other. */
  function AllValues<V>(arrays: seq<PhpArray<V>>): seq<V> {
    if arrays == [] then [] else AllValues(arrays[..|arrays| - 1]) + Values(arrays[|arrays| - 1])
  }

  /** The entries of all arrays, one array after the other. */
  function Flatten<V>(arrays: seq<PhpArray<V>>): seq<Entry<V>> {
    if arrays == [] then [] else Flatten(arrays[..|arrays| - 1]) + arrays[|arrays| - 1]
  }

  /** array_merge of one, two and three arrays, unfolded. */
  lemma ArrayMergeShort<V>(x: PhpArray<V>, y: PhpArray<V>, z: PhpArray<V>)
    ensures ArrayMerge([x]) == MergeInto([], x)
    ensures ArrayMerge([x, y]) == MergeInto(MergeInto([], x), y)
    ensures ArrayMerge([x, y, z]) == MergeInto(MergeInto(MergeInto([], x), y), z)
  {
    var one, two, three := [x], [x, y], [x, y, z];
    assert one[..0] == [] && two[..1] == one && three[..2] == two;
    assert ArrayMerge(one) == MergeInto(ArrayMerge([]), x);
    assert ArrayMerge(two) == MergeInto(ArrayMerge(one), y);
    assert ArrayMerge(three) == MergeInto(ArrayMerge(two), z);
  }

  /** The values and entries of two and three arrays, unfolded. */
  lemma FlattenShort<V>(x: PhpArray<V>, y: PhpArray<V>, z: PhpArray<V>)
    ensures AllValues([x, y]) == Values(x) + Values(y)
    ensures AllValues([x, y, z]) == Values(x) + Values(y) + Values(z)
    ensures Flatten([x, y, z]) == x + y + z
  {
    var one, two, three := [x], [x, y], [x, y, z];
    assert one[..0] == [] && two[..1] == one && three[..2] == two;
    assert AllValues(one) == Values(x);
    assert AllValues(two) == AllValues(one) + Values(y);
    assert AllValues(three) == AllValues(two) + Values(z);
    assert Flatten(one) == x;
    assert Flatten(two) == Flatten(one) + y;
    assert Flatten(three) == Flatten(two) + z;
  }

  lemma NextIndexOfList<V>(vs: seq<V>)
    ensures NextIndex(List(vs)) == |vs|
  {
    var a := List(vs);
    if vs != [] {
      assert a[|vs| - 1].key == IntKey(|vs| - 1);
      var m := MaxIntKey(a).value;
      var q := Find(a, IntKey(m));
      assert a[q].key == IntKey(q);
    }
  }

  lemma PushOntoList<V>(vs: seq<V>, v: V)
    ensures Push(List(vs), v) == List(vs + [v])
  {
    NextIndexOfList(vs);
  }

  lemma ValuesCons<V>(xs: seq<V>, src: seq<Entry<V>>)
    requires src != []
    ensures xs + [src[0].value] + Values(src[1..]) == xs + Values(src)
  {
    assert Values(src) == [src[0].value] + Values(src[1..]);
  }

  lemma MergeIntoListStep<V>(xs: seq<V>, src: seq<Entry<V>>)
    requires src != [] && src[0].key.IntKey?
    ensures MergeInto(List(xs), src) == MergeInto(List(xs + [src[0].value]), src[1..])
  {
    var v := src[0].value;
    assert MergeStep(List(xs), src[0]) == List(xs + [v]) by {
      PushOntoList(xs, v);
    }
  }

  lemma {:induction false} MergeIntoList<V>(xs: seq<V>, src: seq<Entry<V>>)
    requires OnlyIntKeys(src)
    ensures MergeInto(List(xs), src) == List(xs + Values(src))
    decreases |src|
  {
    if src == [] {
      assert xs + Values(src) == xs;
    } else {
      MergeIntoListStep(xs, src);
      ValuesCons(xs, src);
      MergeIntoList(xs + [src[0].value], src[1..]);
    }
  }

  /** Merging arrays with integer keys only concatenates their values and renumbers the keys from 0. */
  lemma {:induction false} ArrayMergeLists<V>(arrays: seq<PhpArray<V>>)
    requires forall i | 0 <= i < |arrays| :: OnlyIntKeys(arrays[i])
    ensures ArrayMerge(arrays) == List(AllValues(arrays))
    decreases |arrays|
  {
    if arrays == [] {
      assert List<V>([]) == [];
    } else {
      var n := |arrays| - 1;
      ArrayMergeLists(arrays[..n]);
      MergeIntoList(AllValues(arrays[..n]), arrays[n]);
    }
  }

  lemma {:induction false} MergeIntoStrings<V>(acc: PhpArray<V>, src: PhpArray<V>)
    requires OnlyStrKeys(src)
    requires forall i | 0 <= i < |src| :: !HasKey(acc, src[i].key)
    ensures MergeInto(acc, src) == acc + src
    decreases |src|
  {
    if src != [] {
      MergeFreshString(acc, src);
      var next: PhpArray<V> := acc + [src[0]];
      var tail: PhpArray<V> := src[1..];
      MergeIntoStrings(next, tail);
      ConsAssoc(acc, src[0], tail);
      assert src == [src[0]] + tail;
    }
  }

  /** One step of merging string-keyed entries with fresh keys: the first entry is appended as it is. */
  lemma MergeFreshString<V>(acc: PhpArray<V>, src: PhpArray<V>)
    requires src != [] && OnlyStrKeys(src)
    requires forall i | 0 <= i < |src| :: !HasKey(acc, src[i].key)
    ensures UniqueKeys(acc + [src[0]])
    ensures MergeInto(acc, src) == MergeInto(acc + [src[0]], src[1..])
    ensures OnlyStrKeys(src[1..])
    ensures forall i | 0 <= i < |src[1..]| :: !HasKey(acc + [src[0]], src[1..][i].key)
  {
    var e := src[0];
    assert !HasKey(acc, e.key) && e.key.StrKey?;
    var next := MergeStep(acc, e);
    assert next == acc + [e] by {
      assert next == Assign(acc, e.key, e.value);
      assert Entry(e.key, e.value) == e;
    }
    var tail := src[1..];
    forall i | 0 <= i < |tail|
      ensures tail[i].key.StrKey? && !HasKey(next, tail[i].key)
    {
      assert tail[i] == src[i + 1];
      FreshAfterAppend(acc, src, i + 1);
    }
  }

  lemma ConsAssoc<T>(a: seq<T>, x: T, b: seq<T>)
    ensures (a + [x]) + b == a + ([x] + b)
  {
  }

  lemma FreshAfterAppend<V>(acc: PhpArray<V>, src: PhpArray<V>, j: nat)
    requires 0 < j < |src|
    requires forall i | 0 <= i < |src| :: !HasKey(acc, src[i].key)
    ensures !HasKey(acc + [src[0]], src[j].key)
  {
    var next := acc + [src[0]];
    assert !HasKey(acc, src[j].key);
    assert src[j].key != src[0].key;
    forall q | 0 <= q < |next|
      ensures next[q].key != src[j].key
    {
      if q < |acc| {
        assert next[q] == acc[q];
      }
    }
  }

  /** Merging string-keyed arrays that share no key concatenates them unchanged. */
  lemma {:induction false} ArrayMergeDisjointStrings<V>(arrays: seq<PhpArray<V>>)
    requires forall i | 0 <= i < |arrays| :: OnlyStrKeys(arrays[i])
    requires UniqueKeys(Flatten(arrays))
    ensures ArrayMerge(arrays) == Flatten(arrays)
    decreases |arrays|
  {
    if arrays != [] {
      var n := |arrays| - 1;
      var p := Flatten(arrays[..n]);
      var all := Flatten(arrays);
      assert all == p + arrays[n];
      assert UniqueKeys(p) by {
        forall i, j | 0 <= i < j < |p|
          ensures p[i].key != p[j].key
        {
          assert all[i] == p[i] && all[j] == p[j];
        }
      }
      ArrayMergeDisjointStrings(arrays[..n]);
      forall i | 0 <= i < |arrays[n]|
        ensures !HasKey(ArrayMerge(arrays[..n]), arrays[n][i].key)
      {
        forall q | 0 <= q < |p|
          ensures p[q].key != arrays[n][i].key
        {
          assert all[q] == p[q];
          assert all[|p| + i] == arrays[n][i];
        }
      }
      MergeIntoStrings(ArrayMerge(arrays[..n]), arrays[n]);
    }
  }

  /**
   * A string key ends up with the value of the merged array that holds it, and stays with the
   * value it already had when the merged array does not hold it.
   */
  lemma {:induction false} MergeIntoStringKey<V>(acc: PhpArray<V>, src: PhpArray<V>, k: Key)
    requires k.StrKey?
    ensures HasKey(MergeInto(acc, src), k) <==> HasKey(acc, k) || HasKey(src, k)
    ensures HasKey(src, k) ==> Get(MergeInto(acc, src), k) == Get(src, k)
    ensures !HasKey(src, k) && HasKey(acc, k) ==> Get(MergeInto(acc, src), k) == Get(acc, k)
    decreases |src|
  {
    if src != [] {
      var e := src[0];
      var key := if e.key.IntKey? then IntKey(NextIndex(acc)) else e.key;
      var next := Assign(acc, key, e.value);
      assert MergeStep(acc, e) == next;
      var tail: PhpArray<V> := src[1..];
      assert MergeInto(acc, src) == MergeInto(next, tail);
      AssignSemantics(acc, key, e.value);
      MergeIntoStringKey(next, tail, k);
      LookupCons(src, k);
    }
  }

  /** Looking a key up in an array is looking at its first entry, then at the rest. */
  lemma LookupCons<V>(src: PhpArray<V>, k: Key)
    requires src != []
    ensures src[0].key == k ==> HasKey(src, k) && Get(src, k) == src[0].value && !HasKey(src[1..], k)
    ensures src[0].key != k ==> (HasKey(src, k) <==> HasKey(src[1..], k))
    ensures src[0].key != k && HasKey(src, k) ==> Get(src, k) == Get(src[1..], k)
  {
    var tail: PhpArray<V> := src[1..];
    assert forall i | 1 <= i < |src| :: src[i] == tail[i - 1];
    if src[0].key == k {
      FindAt(src, 0);
    } else {
      assert Find(src, k) == 1 + Find(tail, k);
    }
  }

  /** Merging never moves or drops a key that is already present. */
  lemma {:induction false} MergeIntoKeepsPositions<V>(acc: PhpArray<V>, src: seq<Entry<V>>)
    ensures Keys(acc) <= Keys(MergeInto(acc, src))
    decreases |src|
  {
    if src != [] {
      var e := src[0];
      var key := if e.key.IntKey? then IntKey(NextIndex(acc)) else e.key;
      var next := Assign(acc, key, e.value);
      assert MergeStep(acc, e) == next;
      AssignSemantics(acc, key, e.value);
      MergeIntoKeepsPositions(next, src[1..]);
    }
  }

  /** A slice of an array with integer keys only is the list of the values in between. */
  lemma SliceOfList<V>(a: PhpArray<V>, from: nat, to: nat)
    requires from <= to <= |a|
    requires OnlyIntKeys(a)
    ensures Slice(a, from, to) == List(Values(a)[from..to])
  {
    var part := a[from..to];
    assert OnlyIntKeys(part) by {
      forall i | 0 <= i < |part|
        ensures part[i].key.IntKey?
      {
        assert part[i] == a[from + i];
      }
    }
    calc {
      Slice(a, from, to);
      MergeInto([], part);
      { assert List<V>([]) == []; }
      MergeInto(List([]), part);
      { MergeIntoList([], part); }
      List([] + Values(part));
      { assert [] + Values(part) == Values(part); }
      List(Values(part));
      { ValuesOfSlice(a, from, to); }
      List(Values(a)[from..to]);
    }
  }

  lemma ValuesOfSlice<V>(a: seq<Entry<V>>, from: nat, to: nat)
    requires from <= to <= |a|
    ensures Values(a[from..to]) == Values(a)[from..to]
  {
    var part := a[from..to];
    forall k | 0 <= k < |part|
      ensures Values(part)[k] == Values(a)[from..to][k]
    {
      assert part[k] == a[from + k];
    }
  }

  /** A slice of an array with string keys only keeps the entries in between unchanged. */
  lemma SliceOfStrings<V>(a: PhpArray<V>, from: nat, to: nat)
    requires from <= to <= |a|
    requires OnlyStrKeys(a)
    ensures Slice(a, from, to) == a[from..to]
  {
    MergeIntoStrings([], a[from..to]);
  }
}
