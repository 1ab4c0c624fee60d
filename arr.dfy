/**
 * The free functions of Source/Arr.php over the PHP array model. Callbacks are total
 * functions of (value, key); what they return is read as a boolean where the source tests it.
 */
module Arr {
  import opened Wrappers
  import opened Php

  /** The test array_filter applies when it is given no callback. */
  function WhenTruthy(): (Value, Key) -> bool {
    (v, k) => Truthy(v)
  }

  /** all: every entry satisfies the condition, or with no condition every value is truthy. */
  method All(a: PhpArray<Value>, condition: Option<(Value, Key) -> bool>) returns (r: bool)
    ensures condition.Some? ==> (r <==> forall i | 0 <= i < |a| :: condition.value(a[i].value, a[i].key))
    ensures condition.None? ==> (r <==> forall i | 0 <= i < |a| :: Truthy(a[i].value))
  {
    if condition.Some? {
      var c := condition.value;
      var i := 0;
      while i < |a|
        invariant 0 <= i <= |a|
        invariant forall j | 0 <= j < i :: c(a[j].value, a[j].key)
      {
        if !c(a[i].value, a[i].key) {
          return false;
        }
        i := i + 1;
      }
      return true;
    }
    SelectKeepsAll(a, WhenTruthy());
    r := |Filter(a, None)| == |a|;
  }

  /** any: some entry satisfies the condition, or with no condition the array is not empty. */
  method Any<V>(a: PhpArray<V>, condition: Option<(V, Key) -> bool>) returns (r: bool)
    ensures condition.Some? ==> (r <==> exists i | 0 <= i < |a| :: condition.value(a[i].value, a[i].key))
    ensures condition.None? ==> (r <==> a != [])
  {
    if condition.Some? {
      var c := condition.value;
      var i := 0;
      while i < |a|
        invariant 0 <= i <= |a|
        invariant forall j | 0 <= j < i :: !c(a[j].value, a[j].key)
      {
        if c(a[i].value, a[i].key) {
          return true;
        }
        i := i + 1;
      }
      return false;
    }
    r := a != [];
  }

  /** has: `any` with a mandatory condition. */
  method Has<V>(a: PhpArray<V>, condition: (V, Key) -> bool) returns (r: bool)
    ensures r <==> exists i | 0 <= i < |a| :: condition(a[i].value, a[i].key)
  {
    r := Any(a, Some(condition));
  }

  /** contains: some value of `a` equals `value` (in_array, with `eq` for PHP's loose ==). */
  function Contains<V>(a: seq<Entry<V>>, value: V, eq: (V, V) -> bool): (r: bool)
    ensures r <==> exists i | 0 <= i < |a| :: eq(value, a[i].value)
  {
    if a == [] then false
    else if eq(value, a[0].value) then true
    else
      var r := Contains(a[1..], value, eq);
      assert forall i | 1 <= i < |a| :: a[i] == a[1..][i - 1];
      r
  }

  /** Position of the earliest entry satisfying `p`. */
  function FirstMatch<V>(a: seq<Entry<V>>, p: (V, Key) -> bool): (r: Option<nat>)
    ensures r.Some? ==> r.value < |a| && p(a[r.value].value, a[r.value].key)
    ensures r.Some? ==> forall j | 0 <= j < r.value :: !p(a[j].value, a[j].key)
    ensures r.None? ==> forall j | 0 <= j < |a| :: !p(a[j].value, a[j].key)
  {
    if a == [] then None
    else if p(a[0].value, a[0].key) then Some(0)
    else
      var rest := FirstMatch(a[1..], p);
      assert forall j | 1 <= j < |a| :: a[j] == a[1..][j - 1];
      if rest.Some? then Some(rest.value + 1) else None
  }

  /** Position of the latest entry satisfying `p`. */
  function LastMatch<V>(a: seq<Entry<V>>, p: (V, Key) -> bool): (r: Option<nat>)
    ensures r.Some? ==> r.value < |a| && p(a[r.value].value, a[r.value].key)
    ensures r.Some? ==> forall j | r.value < j < |a| :: !p(a[j].value, a[j].key)
    ensures r.None? ==> forall j | 0 <= j < |a| :: !p(a[j].value, a[j].key)
  {
    if a == [] then None
    else if p(a[|a| - 1].value, a[|a| - 1].key) then Some(|a| - 1)
    else
      var rest := LastMatch(a[..|a| - 1], p);
      assert forall j | 0 <= j < |a| - 1 :: a[j] == a[..|a| - 1][j];
      rest
  }

  /** FirstMatch depends only on where the test holds. */
  lemma {:induction false} FirstMatchAgree<V, W>(a: seq<Entry<V>>, b: seq<Entry<W>>, p: (V, Key) -> bool, q: (W, Key) -> bool)
    requires |a| == |b|
    requires forall i | 0 <= i < |a| :: p(a[i].value, a[i].key) == q(b[i].value, b[i].key)
    ensures FirstMatch(a, p) == FirstMatch(b, q)
    decreases |a|
  {
    if a != [] {
      assert forall i | 1 <= i < |a| :: a[1..][i - 1] == a[i] && b[1..][i - 1] == b[i];
      FirstMatchAgree(a[1..], b[1..], p, q);
    }
  }

  /** An entry appended at the end is found only when no earlier entry matches. */
  lemma {:induction false} FirstMatchAppend<V>(a: seq<Entry<V>>, e: Entry<V>, p: (V, Key) -> bool)
    ensures FirstMatch(a + [e], p) ==
      if FirstMatch(a, p).Some? then FirstMatch(a, p) else if p(e.value, e.key) then Some(|a|) else None
    decreases |a|
  {
    if a != [] {
      assert (a + [e])[1..] == a[1..] + [e];
      FirstMatchAppend(a[1..], e, p);
    }
  }

  function KeyAt<V>(a: seq<Entry<V>>, p: Option<nat>): Option<Key>
    requires p.Some? ==> p.value < |a|
  {
    if p.Some? then Some(a[p.value].key) else None
  }

  function ValueAt<V>(a: seq<Entry<V>>, p: Option<nat>): Option<V>
    requires p.Some? ==> p.value < |a|
  {
    if p.Some? then Some(a[p.value].value) else None
  }

  /** first_key: the key of the earliest match, or of the first entry when there is no condition. */
  method FirstKey<V>(a: PhpArray<V>, condition: Option<(V, Key) -> bool>) returns (r: Option<Key>)
    ensures condition.None? ==> r == (if a == [] then None else Some(a[0].key))
    ensures condition.Some? ==> r == KeyAt(a, FirstMatch(a, condition.value))
  {
    if condition.None? {
      return if a == [] then None else Some(a[0].key);
    }
    var c := condition.value;
    var i := 0;
    while i < |a|
      invariant 0 <= i <= |a|
      invariant forall j | 0 <= j < i :: !c(a[j].value, a[j].key)
    {
      if c(a[i].value, a[i].key) {
        return Some(a[i].key);
      }
      i := i + 1;
    }
    return None;
  }

  /** first: the value of the earliest match, or of the first entry when there is no condition. */
  method First<V>(a: PhpArray<V>, condition: Option<(V, Key) -> bool>) returns (r: Option<V>)
    ensures condition.None? ==> r == (if a == [] then None else Some(a[0].value))
    ensures condition.Some? ==> r == ValueAt(a, FirstMatch(a, condition.value))
  {
    if condition.None? {
      return if a == [] then None else Some(a[0].value);
    }
    var c := condition.value;
    var i := 0;
    while i < |a|
      invariant 0 <= i <= |a|
      invariant forall j | 0 <= j < i :: !c(a[j].value, a[j].key)
    {
      if c(a[i].value, a[i].key) {
        return Some(a[i].value);
      }
      i := i + 1;
    }
    return None;
  }

  /** last_key: the key of the latest match, or of the last entry when there is no condition. */
  method LastKey<V>(a: PhpArray<V>, condition: Option<(V, Key) -> bool>) returns (r: Option<Key>)
    ensures condition.None? ==> r == (if a == [] then None else Some(a[|a| - 1].key))
    ensures condition.Some? ==> r == KeyAt(a, LastMatch(a, condition.value))
  {
    if condition.None? {
      return if a == [] then None else Some(a[|a| - 1].key);
    }
    var c := condition.value;
    r := None;
    var i := 0;
    while i < |a|
      invariant 0 <= i <= |a|
      invariant r == KeyAt(a[..i], LastMatch(a[..i], c))
    {
      assert a[..i + 1][..i] == a[..i];
      r := if c(a[i].value, a[i].key) then Some(a[i].key) else r;
      i := i + 1;
    }
    assert a[..|a|] == a;
  }

  /** last: the value of the latest match, or of the last entry when there is no condition. */
  method Last<V>(a: PhpArray<V>, condition: Option<(V, Key) -> bool>) returns (r: Option<V>)
    ensures condition.None? ==> r == (if a == [] then None else Some(a[|a| - 1].value))
    ensures condition.Some? ==> r == ValueAt(a, LastMatch(a, condition.value))
  {
    if condition.None? {
      return if a == [] then None else Some(a[|a| - 1].value);
    }
    var c := condition.value;
    r := None;
    var i := 0;
    while i < |a|
      invariant 0 <= i <= |a|
      invariant r == ValueAt(a[..i], LastMatch(a[..i], c))
    {
      assert a[..i + 1][..i] == a[..i];
      r := if c(a[i].value, a[i].key) then Some(a[i].value) else r;
      i := i + 1;
    }
    assert a[..|a|] == a;
  }

  /** filter: the entries passing `callback` (the truthy ones when there is none), keys kept. */
  function Filter(a: PhpArray<Value>, callback: Option<(Value, Key) -> bool>): (r: PhpArray<Value>)
    ensures forall e | e in r :: e in a
    ensures callback.Some? ==> forall e | e in a :: (e in r <==> callback.value(e.value, e.key))
    ensures callback.None? ==> forall e | e in a :: (e in r <==> Truthy(e.value))
  {
    Select(a, if callback.Some? then callback.value else WhenTruthy())
  }

  lemma UnsetAfterPrefix<V>(s: seq<Entry<V>>, t: seq<Entry<V>>)
    requires UniqueKeys(s + t) && t != []
    ensures Unset(s + t, t[0].key) == s + t[1..]
  {
    var a: PhpArray<V> := s + t;
    FindAt(a, |s|);
    assert RemoveAt(a, |s|) == s + t[1..];
  }

  /** One step of forget: the next entry is dropped by unsetting its key, or kept. */
  lemma ForgetStep<V>(a: PhpArray<V>, condition: (V, Key) -> bool, i: nat)
    requires i < |a|
    ensures UniqueKeys(Select(a[..i], Not(condition)) + a[i..])
    ensures Select(a[..i + 1], Not(condition)) + a[i + 1..] ==
      if condition(a[i].value, a[i].key) then Unset(Select(a[..i], Not(condition)) + a[i..], a[i].key)
      else Select(a[..i], Not(condition)) + a[i..]
  {
    KeptThenRestUnique(a, condition, i);
    if condition(a[i].value, a[i].key) {
      ForgetDrops(a, condition, i);
    } else {
      ForgetKeeps(a, condition, i);
    }
  }

  lemma ForgetDrops<V>(a: PhpArray<V>, condition: (V, Key) -> bool, i: nat)
    requires i < |a| && condition(a[i].value, a[i].key)
    requires UniqueKeys(Select(a[..i], Not(condition)) + a[i..])
    ensures Select(a[..i + 1], Not(condition)) + a[i + 1..] == Unset(Select(a[..i], Not(condition)) + a[i..], a[i].key)
  {
    SelectPrefixStep(a, Not(condition), i);
    assert !Not(condition)(a[i].value, a[i].key);
    UnsetAfterPrefix(Select(a[..i], Not(condition)), a[i..]);
    assert a[i..][0] == a[i] && a[i..][1..] == a[i + 1..];
  }

  lemma ForgetKeeps<V>(a: PhpArray<V>, condition: (V, Key) -> bool, i: nat)
    requires i < |a| && !condition(a[i].value, a[i].key)
    ensures Select(a[..i + 1], Not(condition)) + a[i + 1..] == Select(a[..i], Not(condition)) + a[i..]
  {
    var kept := Select(a[..i], Not(condition));
    calc {
      Select(a[..i + 1], Not(condition)) + a[i + 1..];
      { SelectPrefixStep(a, Not(condition), i);
        assert Not(condition)(a[i].value, a[i].key); }
      (kept + [a[i]]) + a[i + 1..];
      kept + ([a[i]] + a[i + 1..]);
      { assert [a[i]] + a[i + 1..] == a[i..]; }
      kept + a[i..];
    }
  }

  /** The selection of one more entry of `a`: it is appended exactly when it passes. */
  lemma SelectPrefixStep<V>(a: PhpArray<V>, keep: (V, Key) -> bool, i: nat)
    requires i < |a|
    ensures Select(a[..i + 1], keep) ==
      if keep(a[i].value, a[i].key) then Select(a[..i], keep) + [a[i]] else Select(a[..i], keep)
  {
    var prefix: PhpArray<V> := a[..i + 1];
    assert prefix[..|prefix| - 1] == a[..i] && prefix[|prefix| - 1] == a[i];
    SelectSnoc(prefix, keep);
  }

  /** The entries kept from before `i`, followed by the rest, have distinct keys. */
  lemma KeptThenRestUnique<V>(a: PhpArray<V>, condition: (V, Key) -> bool, i: nat)
    requires i <= |a|
    ensures UniqueKeys(Select(a[..i], Not(condition)) + a[i..])
  {
    var kept := Select(a[..i], Not(condition));
    var s := kept + a[i..];
    forall p, q | 0 <= p < q < |s|
      ensures s[p].key != s[q].key
    {
      if q < |kept| {
      } else if p < |kept| {
        assert s[p] in a[..i];
        assert s[q] == a[i + (q - |kept|)];
      } else {
        assert s[p] == a[i + (p - |kept|)] && s[q] == a[i + (q - |kept|)];
      }
    }
  }

  /** forget: removes, from a copy, every entry satisfying the condition; the others keep their keys. */
  method Forget<V>(a: PhpArray<V>, condition: (V, Key) -> bool) returns (r: PhpArray<V>)
    ensures r == Select(a, Not(condition))
  {
    r := a;
    var i := 0;
    while i < |a|
      invariant 0 <= i <= |a|
      invariant r == Select(a[..i], Not(condition)) + a[i..]
    {
      ForgetStep(a, condition, i);
      if condition(a[i].value, a[i].key) {
        r := Unset(r, a[i].key);
      }
      i := i + 1;
    }
    assert a[..|a|] == a;
  }

  /**
   * Building a filtered array entry by entry (`$results[$key] = $value` for each kept entry) gives
   * the selection: the kept key is never already in the result.
   */
  lemma SelectStep<V>(a: PhpArray<V>, keep: (V, Key) -> bool, i: nat)
    requires i < |a|
    ensures Select(a[..i + 1], keep) ==
      if keep(a[i].value, a[i].key) then Assign(Select(a[..i], keep), a[i].key, a[i].value) else Select(a[..i], keep)
  {
    var prefix: PhpArray<V> := a[..i + 1];
    assert prefix[..i] == a[..i];
    var kept := Select(a[..i], keep);
    forall j | 0 <= j < |kept|
      ensures kept[j].key != a[i].key
    {
      assert kept[j] in a[..i];
    }
  }

  /** filter and forget split an array: every entry lands in exactly one of the two results. */
  lemma {:induction false} FilterForgetPartition<V>(a: PhpArray<V>, p: (V, Key) -> bool)
    ensures |Select(a, p)| + |Select(a, Not(p))| == |a|
    ensures forall e | e in a :: (e in Select(a, p)) != (e in Select(a, Not(p)))
    decreases |a|
  {
    if a != [] {
      var init: PhpArray<V> := a[..|a| - 1];
      FilterForgetPartition(init, p);
    }
  }

  /**
   * take_first: the value of the first match, removed from the array given by reference (here
   * returned as `rest`); nothing changes when no entry matches.
   */
  method TakeFirst<V>(a: PhpArray<V>, condition: (V, Key) -> bool) returns (taken: Option<V>, rest: PhpArray<V>)
    ensures FirstMatch(a, condition).None? ==> taken == None && rest == a
    ensures FirstMatch(a, condition).Some? ==>
      taken == Some(a[FirstMatch(a, condition).value].value) &&
      rest == RemoveAt(a, FirstMatch(a, condition).value)
  {
    var key := FirstKey(a, Some(condition));
    if key.None? {
      return None, a;
    }
    FindAt(a, FirstMatch(a, condition).value);
    taken := Some(Get(a, key.value));
    rest := Unset(a, key.value);
  }

  /** Taking the first match twice takes the next match the second time. */
  lemma TakeFirstTwice<V>(a: PhpArray<V>, condition: (V, Key) -> bool, i: nat)
    requires FirstMatch(a, condition) == Some(i)
    ensures FirstMatch(a[i + 1..], condition).None? ==> FirstMatch(RemoveAt(a, i), condition) == None
    ensures FirstMatch(a[i + 1..], condition).Some? ==>
      FirstMatch(RemoveAt(a, i), condition) == Some(i + FirstMatch(a[i + 1..], condition).value)
  {
    FirstMatchAfterRemoval(a, condition, i);
  }

  /** Removing the entry at `i`, when no entry before it matches, shifts the later first match down by one. */
  lemma FirstMatchAfterRemoval<V>(a: PhpArray<V>, condition: (V, Key) -> bool, i: nat)
    requires i < |a| && forall j | 0 <= j < i :: !condition(a[j].value, a[j].key)
    ensures FirstMatch(a[i + 1..], condition).None? ==> FirstMatch(RemoveAt(a, i), condition) == None
    ensures FirstMatch(a[i + 1..], condition).Some? ==>
      FirstMatch(RemoveAt(a, i), condition) == Some(i + FirstMatch(a[i + 1..], condition).value)
  {
    var b := RemoveAt(a, i);
    var after := a[i + 1..];
    var next := FirstMatch(after, condition);
    var bound := if next.Some? then i + next.value else |b|;
    forall j | 0 <= j < bound
      ensures !condition(b[j].value, b[j].key)
    {
      if j < i {
        assert b[j] == a[j];
      } else {
        assert b[j] == after[j - i];
      }
    }
    if next.Some? {
      assert b[bound] == after[next.value];
    }
    FirstMatchIs(b, condition, if next.Some? then Some(i + next.value) else None);
  }

  /** Whatever position is the first match by the ensures of FirstMatch is the one it returns. */
  lemma FirstMatchIs<V>(a: seq<Entry<V>>, p: (V, Key) -> bool, r: Option<nat>)
    requires r.Some? ==> r.value < |a| && p(a[r.value].value, a[r.value].key)
    requires r.Some? ==> forall j | 0 <= j < r.value :: !p(a[j].value, a[j].key)
    requires r.None? ==> forall j | 0 <= j < |a| :: !p(a[j].value, a[j].key)
    ensures FirstMatch(a, p) == r
  {
    var f := FirstMatch(a, p);
    if f.Some? && r.Some? {
      assert !(f.value < r.value) && !(r.value < f.value);
    }
  }

  /** Where insert_after puts the additional entries: just after `key`, or at the end when it is absent. */
  function InsertPosition<V>(a: PhpArray<V>, key: Key): (pos: nat)
    ensures pos <= |a|
  {
    if HasKey(a, key) then Find(a, key) + 1 else |a|
  }

  /** insert_after: the entries up to `key`, then `additional`, then the rest, through array_merge. */
  function InsertAfter<V>(a: PhpArray<V>, key: Key, additional: PhpArray<V>): PhpArray<V>
  {
    var pos := InsertPosition(a, key);
    ArrayMerge([Slice(a, 0, pos), additional, Slice(a, pos, |a|)])
  }

  /** On arrays with integer keys only, insert_after splices the values and renumbers from 0. */
  lemma InsertAfterList<V>(a: PhpArray<V>, key: Key, additional: PhpArray<V>)
    requires OnlyIntKeys(a) && OnlyIntKeys(additional)
    ensures InsertAfter(a, key, additional) ==
      List(Values(a)[..InsertPosition(a, key)] + Values(additional) + Values(a)[InsertPosition(a, key)..])
  {
    var pos := InsertPosition(a, key);
    ListPrefix(a, pos);
    ListSuffix(a, pos);
    MergeThreeLists(Values(a)[..pos], additional, Values(a)[pos..]);
  }

  lemma ListPrefix<V>(a: PhpArray<V>, pos: nat)
    requires OnlyIntKeys(a) && pos <= |a|
    ensures Slice(a, 0, pos) == List(Values(a)[..pos])
  {
    SliceOfList(a, 0, pos);
    assert Values(a)[0..pos] == Values(a)[..pos];
  }

  lemma ListSuffix<V>(a: PhpArray<V>, pos: nat)
    requires OnlyIntKeys(a) && pos <= |a|
    ensures Slice(a, pos, |a|) == List(Values(a)[pos..])
  {
    SliceOfList(a, pos, |a|);
    assert Values(a)[pos..|a|] == Values(a)[pos..];
  }

  lemma MergeThreeLists<V>(xs: seq<V>, b: PhpArray<V>, zs: seq<V>)
    requires OnlyIntKeys(b)
    ensures ArrayMerge([List(xs), b, List(zs)]) == List(xs + Values(b) + zs)
  {
    var arrays := [List(xs), b, List(zs)];
    assert forall i | 0 <= i < 3 :: OnlyIntKeys(arrays[i]);
    ArrayMergeLists(arrays);
    FlattenShort(List(xs), b, List(zs));
    ValuesOfList(xs);
    ValuesOfList(zs);
  }

  /** On string-keyed arrays sharing no key, insert_after splices the entries unchanged. */
  lemma InsertAfterStrings<V>(a: PhpArray<V>, key: Key, additional: PhpArray<V>)
    requires OnlyStrKeys(a) && OnlyStrKeys(additional)
    requires forall i | 0 <= i < |additional| :: !HasKey(a, additional[i].key)
    ensures InsertAfter(a, key, additional) ==
      a[..InsertPosition(a, key)] + additional + a[InsertPosition(a, key)..]
  {
    var pos := InsertPosition(a, key);
    StrPrefix(a, pos);
    StrSuffix(a, pos);
    MergeSplice(a, pos, additional);
  }

  lemma StrPrefix<V>(a: PhpArray<V>, pos: nat)
    requires OnlyStrKeys(a) && pos <= |a|
    ensures Slice(a, 0, pos) == a[..pos]
  {
    SliceOfStrings(a, 0, pos);
    assert a[0..pos] == a[..pos];
  }

  lemma StrSuffix<V>(a: PhpArray<V>, pos: nat)
    requires OnlyStrKeys(a) && pos <= |a|
    ensures Slice(a, pos, |a|) == a[pos..]
  {
    SliceOfStrings(a, pos, |a|);
    assert a[pos..|a|] == a[pos..];
  }

  lemma MergeSplice<V>(a: PhpArray<V>, pos: nat, additional: PhpArray<V>)
    requires OnlyStrKeys(a) && OnlyStrKeys(additional) && pos <= |a|
    requires forall i | 0 <= i < |additional| :: !HasKey(a, additional[i].key)
    ensures ArrayMerge([a[..pos], additional, a[pos..]]) == a[..pos] + additional + a[pos..]
  {
    var x: PhpArray<V> := a[..pos];
    var z: PhpArray<V> := a[pos..];
    var arrays := [x, additional, z];
    FlattenShort(x, additional, z);
    SpliceUnique(a, pos, additional);
    assert forall i | 0 <= i < 3 :: OnlyStrKeys(arrays[i]);
    ArrayMergeDisjointStrings(arrays);
  }

  /** Entries spliced into an array at `pos` keep the keys unique when they share no key with it. */
  lemma SpliceUnique<V>(a: PhpArray<V>, pos: nat, additional: PhpArray<V>)
    requires pos <= |a|
    requires forall i | 0 <= i < |additional| :: !HasKey(a, additional[i].key)
    ensures UniqueKeys(a[..pos] + additional + a[pos..])
  {
    var x, z := a[..pos], a[pos..];
    var all := x + additional + z;
    forall i, j | 0 <= i < j < |all|
      ensures all[i].key != all[j].key
    {
      if |x| <= i < |x| + |additional| && !(|x| <= j < |x| + |additional|) {
        assert all[j] == a[j - |additional|];
        assert additional[i - |x|] == all[i];
      } else if |x| <= j < |x| + |additional| && !(|x| <= i < |x| + |additional|) {
        assert all[i] == a[i];
        assert additional[j - |x|] == all[j];
      } else if |x| <= i < |x| + |additional| {
        assert all[i] == additional[i - |x|] && all[j] == additional[j - |x|];
      } else {
        var ai := if i < |x| then i else i - |additional|;
        var aj := if j < |x| then j else j - |additional|;
        assert all[i] == a[ai] && all[j] == a[aj];
      }
    }
  }

  /** map: the list of `callback(value, key)` for every entry, reindexed from 0. */
  function Map<V, W>(a: seq<Entry<V>>, callback: (V, Key) -> W): (r: seq<W>)
    ensures |r| == |a|
    ensures forall i | 0 <= i < |a| :: r[i] == callback(a[i].value, a[i].key)
  {
    if a == [] then []
    else
      var rest := Map(a[1..], callback);
      assert forall i | 1 <= i < |a| :: a[i] == a[1..][i - 1];
      [callback(a[0].value, a[0].key)] + rest
  }

  /** Number of decimal digits of `n`. */
  function DigitCount(n: nat): (d: nat)
    ensures d >= 1
  {
    if n < 10 then 1 else 1 + DigitCount(n / 10)
  }

  function Pow10(d: nat): nat {
    if d == 0 then 1 else 10 * Pow10(d - 1)
  }

  /** DigitCount is the length of the decimal representation: 10^(d-1) <= n < 10^d for n >= 1. */
  lemma {:induction false} DigitCountBounds(n: nat)
    ensures n < Pow10(DigitCount(n))
    ensures n >= 1 ==> Pow10(DigitCount(n) - 1) <= n
  {
    if n >= 10 {
      DigitCountBounds(n / 10);
    }
  }

  /** mb_strlen of a key: a string key's length, or the length of an integer key's decimal form. */
  function KeyLength(k: Key): nat {
    match k
    case StrKey(s) => |s|
    case IntKey(n) => if n < 0 then 1 + DigitCount(-n) else DigitCount(n)
  }

  /** max_key_length: the longest key, or 0 for an empty array. */
  function MaxKeyLength<V>(a: seq<Entry<V>>): (m: nat)
    ensures forall i | 0 <= i < |a| :: KeyLength(a[i].key) <= m
    ensures a == [] ==> m == 0
    ensures a != [] ==> exists i | 0 <= i < |a| :: KeyLength(a[i].key) == m
  {
    if a == [] then 0
    else
      var rest := MaxKeyLength(a[1..]);
      assert forall i | 1 <= i < |a| :: a[i] == a[1..][i - 1];
      var l := KeyLength(a[0].key);
      if l >= rest then l else rest
  }

  /** merge: array_merge applied to the running result and each array in turn. */
  function Merge<V>(arrays: seq<PhpArray<V>>): PhpArray<V>
  {
    if arrays == [] then [] else ArrayMerge([Merge(arrays[..|arrays| - 1]), arrays[|arrays| - 1]])
  }

  /** Merging arrays with integer keys only concatenates their values and renumbers the keys from 0. */
  lemma {:induction false} MergeLists<V>(arrays: seq<PhpArray<V>>)
    requires forall i | 0 <= i < |arrays| :: OnlyIntKeys(arrays[i])
    ensures Merge(arrays) == List(AllValues(arrays))
    decreases |arrays|
  {
    if arrays == [] {
      assert List<V>([]) == [];
    } else {
      var n := |arrays| - 1;
      MergeLists(arrays[..n]);
      var prev := Merge(arrays[..n]);
      assert forall i | 0 <= i < 2 :: OnlyIntKeys([prev, arrays[n]][i]);
      ArrayMergeLists([prev, arrays[n]]);
      FlattenShort(prev, arrays[n], []);
      ValuesOfList(AllValues(arrays[..n]));
    }
  }

  /** merge([1, 2], [2, 3]) == [1, 2, 2, 3]. */
  lemma MergeExample()
    ensures Merge([List([1, 2]), List([2, 3])]) == List([1, 2, 2, 3])
  {
    var a, b := List([1, 2]), List([2, 3]);
    assert Merge([a, b]) == List(AllValues([a, b])) by {
      assert forall i | 0 <= i < 2 :: OnlyIntKeys([a, b][i]);
      MergeLists([a, b]);
    }
    assert AllValues([a, b]) == [1, 2, 2, 3] by {
      FlattenShort(a, b, []);
      ValuesOfList([1, 2]);
      ValuesOfList([2, 3]);
    }
  }

  /** With two arrays, a string key takes its value from the second one when it holds it. */
  lemma MergeStringKey<V>(a: PhpArray<V>, b: PhpArray<V>, k: Key)
    requires k.StrKey?
    ensures HasKey(Merge([a, b]), k) <==> HasKey(a, k) || HasKey(b, k)
    ensures HasKey(b, k) ==> Get(Merge([a, b]), k) == Get(b, k)
    ensures !HasKey(b, k) && HasKey(a, k) ==> Get(Merge([a, b]), k) == Get(a, k)
  {
    var empty: PhpArray<V> := [];
    assert [a, b][..1] == [a] && [a][..0] == [];
    var first := Merge([a]);
    assert [a][..0] == [] && Merge([a][..0]) == empty;
    assert first == ArrayMerge([empty, a]);
    ArrayMergeShort(empty, a, b);
    ArrayMergeShort(first, b, b);
    MergeIntoStringKey([], a, k);
    MergeIntoStringKey([], first, k);
    MergeIntoStringKey(MergeInto([], first), b, k);
  }

  /** array_merge never moves a key of the merged first array: a repeated string key keeps its first position. */
  lemma ArrayMergeKeepsPositions<V>(a: PhpArray<V>, b: PhpArray<V>)
    ensures Keys(ArrayMerge([a])) <= Keys(ArrayMerge([a, b]))
  {
    ArrayMergeShort(a, b, b);
    MergeIntoKeepsPositions(ArrayMerge([a]), b);
  }

  /** reduce: folds `callback(carry, value, key)` over the entries from first to last. */
  function Reduce<V, A>(a: seq<Entry<V>>, callback: (A, V, Key) -> A, carry: A): A
    decreases |a|
  {
    if a == [] then carry else Reduce(a[1..], callback, callback(carry, a[0].value, a[0].key))
  }

  /** The fold runs left to right: reducing a + b continues from the result of reducing a. */
  lemma {:induction false} ReduceAppend<V, A>(a: seq<Entry<V>>, b: seq<Entry<V>>, callback: (A, V, Key) -> A, carry: A)
    ensures Reduce(a + b, callback, carry) == Reduce(b, callback, Reduce(a, callback, carry))
    decreases |a|
  {
    if a != [] {
      assert (a + b)[1..] == a[1..] + b;
      ReduceAppend(a[1..], b, callback, callback(carry, a[0].value, a[0].key));
    } else {
      assert a + b == b;
    }
  }

  /** The product of the lengths of the lists. */
  function Product<V>(lists: seq<seq<V>>): nat {
    if lists == [] then 1 else |lists[0]| * Product(lists[1..])
  }

  /** Every item of `items` put in front of every product, the first item's block first. */
  function Prepend<V>(items: seq<V>, products: seq<seq<V>>): (r: seq<seq<V>>)
    ensures |r| == |items| * |products|
    ensures forall t | t in r :: |t| >= 1 && t[0] in items && t[1..] in products
  {
    if items == [] then []
    else
      var block := seq(|products|, k requires 0 <= k < |products| => [items[0]] + products[k]);
      assert forall k | 0 <= k < |products| :: block[k][1..] == products[k];
      var rest := Prepend(items[1..], products);
      assert |block + rest| == |items| * |products| by {
        MulSucc(|items| - 1, |products|);
      }
      assert forall t | t in rest :: t[0] in items by {
        forall t | t in rest
          ensures t[0] in items
        {
          assert t[0] in items[1..];
        }
      }
      block + rest
  }

  lemma MulSucc(a: nat, b: nat)
    ensures (a + 1) * b == b + a * b
  {
  }

  lemma {:induction false} PrependComplete<V>(items: seq<V>, products: seq<seq<V>>, x: V, p: seq<V>)
    requires x in items && p in products
    ensures [x] + p in Prepend(items, products)
  {
    var k :| 0 <= k < |products| && products[k] == p;
    var block := seq(|products|, k requires 0 <= k < |products| => [items[0]] + products[k]);
    assert Prepend(items, products) == block + Prepend(items[1..], products);
    if x == items[0] {
      assert block[k] == [x] + p;
    } else {
      PrependComplete(items[1..], products, x, p);
    }
  }

  /** Where block i starts when every block has m entries: i * m, counted block by block. */
  function BlockStart(i: nat, m: nat): nat {
    if i == 0 then 0 else m + BlockStart(i - 1, m)
  }

  lemma {:induction false} BlockStartIsProduct(i: nat, m: nat)
    ensures BlockStart(i, m) == i * m
  {
    if i > 0 {
      BlockStartIsProduct(i - 1, m);
      MulSucc(i - 1, m);
    }
  }

  /** Block i of the prepended product holds `items[i]` before each product in turn. */
  lemma {:induction false} PrependAt<V>(items: seq<V>, products: seq<seq<V>>, i: nat, j: nat)
    requires i < |items| && j < |products|
    ensures BlockStart(i, |products|) + j < |Prepend(items, products)|
    ensures Prepend(items, products)[BlockStart(i, |products|) + j] == [items[i]] + products[j]
    decreases |items|, 1
  {
    if i == 0 {
      PrependFirst(items, products, j);
    } else {
      PrependAtLater(items, products, i, j);
    }
  }

  /** A later block: it is block i - 1 of the remaining items, shifted by one block. */
  lemma {:induction false} PrependAtLater<V>(items: seq<V>, products: seq<seq<V>>, i: nat, j: nat)
    requires 0 < i < |items| && j < |products|
    ensures BlockStart(i, |products|) + j < |Prepend(items, products)|
    ensures Prepend(items, products)[BlockStart(i, |products|) + j] == [items[i]] + products[j]
    decreases |items|, 0
  {
    assert items[1..][i - 1] == items[i];
    PrependAt(items[1..], products, i - 1, j);
    PrependRest(items, products, BlockStart(i - 1, |products|) + j);
  }

  /** The first block of the loop's result puts the first item before each sub-product. */
  lemma PrependFirst<V>(items: seq<V>, products: seq<seq<V>>, j: nat)
    requires items != [] && j < |products|
    ensures j < |Prepend(items, products)| && Prepend(items, products)[j] == [items[0]] + products[j]
  {
    var block := seq(|products|, k requires 0 <= k < |products| => [items[0]] + products[k]);
    assert Prepend(items, products) == block + Prepend(items[1..], products);
    assert block[j] == [items[0]] + products[j];
  }

  /** After the first block come the blocks of the remaining items. */
  lemma PrependRest<V>(items: seq<V>, products: seq<seq<V>>, k: nat)
    requires items != [] && k < |Prepend(items[1..], products)|
    ensures |products| + k < |Prepend(items, products)|
    ensures Prepend(items, products)[|products| + k] == Prepend(items[1..], products)[k]
  {
    var block := seq(|products|, k requires 0 <= k < |products| => [items[0]] + products[k]);
    assert Prepend(items, products) == block + Prepend(items[1..], products);
  }

  /** cartesian_product: every tuple taking one element from each list, in list order. */
  function CartesianProduct<V>(lists: seq<seq<V>>): (r: seq<seq<V>>)
    ensures |r| == Product(lists)
    ensures forall t | t in r :: |t| == |lists| && forall j | 0 <= j < |lists| :: t[j] in lists[j]
  {
    if lists == [] then [[]]
    else
      var sub := CartesianProduct(lists[1..]);
      PrependTuples(lists, sub);
      Prepend(lists[0], sub)
  }

  /** Putting an element of the first list before tuples of the other lists gives tuples of all of them. */
  lemma PrependTuples<V>(lists: seq<seq<V>>, sub: seq<seq<V>>)
    requires lists != []
    requires forall t | t in sub :: |t| == |lists[1..]| && forall j | 0 <= j < |lists[1..]| :: t[j] in lists[1..][j]
    ensures forall t | t in Prepend(lists[0], sub) :: |t| == |lists| && forall j | 0 <= j < |lists| :: t[j] in lists[j]
  {
    forall t | t in Prepend(lists[0], sub)
      ensures |t| == |lists| && forall j | 0 <= j < |lists| :: t[j] in lists[j]
    {
      assert t[1..] in sub;
      forall j | 1 <= j < |lists|
        ensures t[j] in lists[j]
      {
        assert t[j] == t[1..][j - 1] && lists[j] == lists[1..][j - 1];
      }
    }
  }

  /** Every tuple with one element from each list, in list order, is in the product. */
  lemma {:induction false} CartesianProductComplete<V>(lists: seq<seq<V>>, t: seq<V>)
    requires |t| == |lists|
    requires forall j | 0 <= j < |lists| :: t[j] in lists[j]
    ensures t in CartesianProduct(lists)
  {
    if lists != [] {
      TailChoices(lists, t);
      CartesianProductComplete(lists[1..], t[1..]);
      assert t[0] in lists[0];
      CartesianProductStep(lists, t);
    }
  }

  lemma TailChoices<V>(lists: seq<seq<V>>, t: seq<V>)
    requires lists != [] && |t| == |lists|
    requires forall j | 0 <= j < |lists| :: t[j] in lists[j]
    ensures |t[1..]| == |lists[1..]| && forall j | 0 <= j < |lists[1..]| :: t[1..][j] in lists[1..][j]
  {
    forall j | 0 <= j < |lists[1..]|
      ensures t[1..][j] in lists[1..][j]
    {
      assert t[1..][j] == t[j + 1] && lists[1..][j] == lists[j + 1];
    }
  }

  lemma CartesianProductStep<V>(lists: seq<seq<V>>, t: seq<V>)
    requires lists != [] && t != [] && t[0] in lists[0] && t[1..] in CartesianProduct(lists[1..])
    ensures t in CartesianProduct(lists)
  {
    assert CartesianProduct(lists) == Prepend(lists[0], CartesianProduct(lists[1..]));
    PrependComplete(lists[0], CartesianProduct(lists[1..]), t[0], t[1..]);
    assert t == [t[0]] + t[1..];
  }

  /**
   * The product is ordered with the first list varying slowest: tuple `i * m + j`, with `m` the
   * size of the product of the other lists, is `lists[0][i]` before their tuple `j`.
   */
  lemma CartesianProductOrder<V>(lists: seq<seq<V>>, i: nat, j: nat)
    requires lists != [] && i < |lists[0]| && j < |CartesianProduct(lists[1..])|
    ensures 0 <= i * |CartesianProduct(lists[1..])| + j < |CartesianProduct(lists)|
    ensures CartesianProduct(lists)[i * |CartesianProduct(lists[1..])| + j] == [lists[0][i]] + CartesianProduct(lists[1..])[j]
  {
    CartesianProductUnfold(lists);
    PrependAt(lists[0], CartesianProduct(lists[1..]), i, j);
    BlockStartIsProduct(i, |CartesianProduct(lists[1..])|);
  }

  lemma CartesianProductUnfold<V>(lists: seq<seq<V>>)
    requires lists != []
    ensures CartesianProduct(lists) == Prepend(lists[0], CartesianProduct(lists[1..]))
    ensures |CartesianProduct(lists[1..])| == Product(lists[1..])
  {
  }

  /** The documented example: the product of [1, 2] and ['a', 'b']. */
  lemma CartesianProductExample()
    ensures CartesianProduct([[Int(1), Int(2)], [String("a"), String("b")]]) ==
      [[Int(1), String("a")], [Int(1), String("b")], [Int(2), String("a")], [Int(2), String("b")]]
  {
    var lists := [[Int(1), Int(2)], [String("a"), String("b")]];
    assert CartesianProduct(lists) == Prepend([Int(1), Int(2)], [[String("a")], [String("b")]]) by {
      assert lists[0] == [Int(1), Int(2)] && lists[1..] == [[String("a"), String("b")]];
      LetterProduct();
      CartesianProductUnfold(lists);
    }
    PrependPairs(Int(1), Int(2), String("a"), String("b"));
  }

  /** Two items before two one-element products: the first item's pairs come first. */
  lemma PrependPairs<V>(x: V, y: V, p: V, q: V)
    ensures Prepend([x, y], [[p], [q]]) == [[x, p], [x, q], [y, p], [y, q]]
  {
    PrependBlocks(x, y, [p], [q]);
    assert [x] + [p] == [x, p] && [x] + [q] == [x, q];
    assert [y] + [p] == [y, p] && [y] + [q] == [y, q];
  }

  lemma PrependBlocks<V>(x: V, y: V, p: seq<V>, q: seq<V>)
    ensures Prepend([x, y], [p, q]) == [[x] + p, [x] + q, [y] + p, [y] + q]
  {
    assert BlockStart(0, 2) == 0 && BlockStart(1, 2) == 2;
    PrependAt([x, y], [p, q], 0, 0);
    PrependAt([x, y], [p, q], 0, 1);
    PrependAt([x, y], [p, q], 1, 0);
    PrependAt([x, y], [p, q], 1, 1);
  }

  /** The product of the single list ['a', 'b'] is ['a'] and then ['b']. */
  lemma LetterProduct()
    ensures CartesianProduct([[String("a"), String("b")]]) == [[String("a")], [String("b")]]
  {
    var tail := [[String("a"), String("b")]];
    assert tail[1..] == [];
    assert CartesianProduct(tail[1..]) == [[]];
    var last := CartesianProduct(tail);
    assert |last| == 2;
    CartesianProductOrder(tail, 0, 0);
    CartesianProductOrder(tail, 1, 0);
    assert last[0] == [String("a")] && last[1] == [String("b")];
  }

  /** One empty list empties the whole product. */
  lemma {:induction false} CartesianProductOfEmpty<V>(lists: seq<seq<V>>, j: nat)
    requires j < |lists| && lists[j] == []
    ensures CartesianProduct(lists) == []
  {
    ProductOfEmpty(lists, j);
  }

  lemma {:induction false} ProductOfEmpty<V>(lists: seq<seq<V>>, j: nat)
    requires j < |lists| && lists[j] == []
    ensures Product(lists) == 0
  {
    if j > 0 {
      ProductOfEmpty(lists[1..], j - 1);
    }
  }
}
