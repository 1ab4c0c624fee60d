/**
 * Source/Set.php: a list of values in a PHP array, kept free of values equal under the overridable
 * `eq` by every insertion path (map being the one documented exception).
 */
module Sets {
  import opened Wrappers
  import opened Php
  import opened Equality
  import Arr

  /** PHP's ValueError from range() on integers. */
  datatype RangeError = ZeroStep | NegativeStepForIncreasingRange

  function Abs(n: int): nat {
    if n < 0 then -n else n
  }

  /** From `start` towards `end` by `step`, as far as `end` allows. */
  function Steps(start: int, end: int, step: nat): (r: seq<int>)
    requires step > 0
    ensures |r| >= 1 && r[0] == start
    ensures forall i | 0 <= i < |r| - 1 :: r[i + 1] == if start <= end then r[i] + step else r[i] - step
    ensures forall i | 0 <= i < |r| :: if start <= end then start <= r[i] <= end else end <= r[i] <= start
    ensures Abs(end - r[|r| - 1]) < step
    decreases Abs(end - start)
  {
    if Abs(end - start) < step then [start]
    else
      var next := if start <= end then start + step else start - step;
      [start] + Steps(next, end, step)
  }

  /** range(start, end, step) on integers (PHP 8.3): the sign of the step only matters for the errors. */
  function IntRange(start: int, end: int, step: int): (r: Result<seq<int>, RangeError>)
    ensures step == 0 ==> r == Failure(ZeroStep)
    ensures step < 0 && start < end ==> r == Failure(NegativeStepForIncreasingRange)
    ensures step != 0 && !(step < 0 && start < end) ==> r == Success(Steps(start, end, Abs(step)))
  {
    if step == 0 then Failure(ZeroStep)
    else if step < 0 && start < end then Failure(NegativeStepForIncreasingRange)
    else Success(Steps(start, end, Abs(step)))
  }

  /** range(1, 5) is 1, 2, 3, 4, 5. */
  lemma RangeOneToFive()
    ensures IntRange(1, 5, 1) == Success([1, 2, 3, 4, 5])
  {
    assert Steps(5, 5, 1) == [5];
    assert Steps(4, 5, 1) == [4, 5];
    assert Steps(3, 5, 1) == [3, 4, 5];
    assert Steps(2, 5, 1) == [2, 3, 4, 5];
    assert Steps(1, 5, 1) == [1, 2, 3, 4, 5];
  }

  /** Steps of one from `start` up to `end` are all the integers in between. */
  lemma {:induction false} StepsByOne(start: int, end: int)
    requires start <= end
    ensures |Steps(start, end, 1)| == end - start + 1
    ensures forall i | 0 <= i < |Steps(start, end, 1)| :: Steps(start, end, 1)[i] == start + i
    decreases end - start
  {
    if start < end {
      StepsByOne(start + 1, end);
      var rest := Steps(start + 1, end, 1);
      assert Steps(start, end, 1) == [start] + rest;
      forall i | 0 < i < |Steps(start, end, 1)|
        ensures Steps(start, end, 1)[i] == start + i
      {
        assert Steps(start, end, 1)[i] == rest[i - 1];
      }
    }
  }

  function IntValues(ns: seq<int>): (vs: seq<Value>)
    ensures |vs| == |ns| && forall i | 0 <= i < |ns| :: vs[i] == Int(ns[i])
  {
    seq(|ns|, i requires 0 <= i < |ns| => Int(ns[i]))
  }

  /** The one-letter strings 'a' .. 'z': range('a', 'z') steps through the character codes. */
  function Letters(): (vs: seq<Value>)
    ensures |vs| == 26
    ensures forall i | 0 <= i < 26 :: vs[i] == String([(('a' as int) + i) as char])
  {
    var codes := Steps('a' as int, 'z' as int, 1);
    StepsByOne('a' as int, 'z' as int);
    seq(|codes|, i requires 0 <= i < |codes| => String([codes[i] as char]))
  }

  /** The callback `fn ($item) => $this->are_equal($value, $item)` of add. */
  function ValueIs(eq: (Value, Value) -> bool, value: Value): (Value, Key) -> bool {
    (item: Value, k: Key) => eq(value, item)
  }

  /** The callback `fn ($item) => $this->are_equal($item, $value)` of remove and offsetSet. */
  function ItemIs(eq: (Value, Value) -> bool, value: Value): (Value, Key) -> bool {
    (item: Value, k: Key) => eq(item, value)
  }

  /** Some item equals `value` (the test of offsetSet). */
  predicate HasItem(items: seq<Entry<Value>>, value: Value, eq: (Value, Value) -> bool) {
    exists i | 0 <= i < |items| :: eq(items[i].value, value)
  }

  /** add(v1, ..., vn) keeps the items distinct, keeps every item, and misses no offered value. */
  lemma AddSemantics(items: PhpArray<Value>, values: seq<Value>, eq: (Value, Value) -> bool, x: Value)
    requires Equivalence(eq)
    ensures items <= AddEach(items, values, eq)
    ensures Distinct(Values(items), eq) ==> Distinct(Values(AddEach(items, values, eq)), eq)
    ensures Occurs(Values(AddEach(items, values, eq)), x, eq) <==> Occurs(Values(items) + values, x, eq)
    ensures (forall i | 0 <= i < |values| :: Occurs(Values(items), values[i], eq)) ==> AddEach(items, values, eq) == items
  {
    ValuesOfAddEach(items, values, eq);
    AddAllClasses(Values(items), values, eq, x);
    if Distinct(Values(items), eq) {
      AddAllDistinct(Values(items), values, eq);
    }
    if forall i | 0 <= i < |values| :: Occurs(Values(items), values[i], eq) {
      AddAllPresent(Values(items), values, eq);
      assert Values(AddEach(items, values, eq)) == Values(items);
      assert |AddEach(items, values, eq)| == |items|;
    }
  }

  /** remove(v1, ..., vn): for each value in turn, unsets the first item equal to it, if any. */
  function RemoveEach(items: PhpArray<Value>, values: seq<Value>, eq: (Value, Value) -> bool): (r: PhpArray<Value>)
    ensures |r| <= |items|
    ensures forall e | e in r :: e in items
    decreases |values|
  {
    if values == [] then items
    else
      var prev := RemoveEach(items, values[..|values| - 1], eq);
      var p := Arr.FirstMatch(prev, ItemIs(eq, values[|values| - 1]));
      if p.None? then prev
      else
        var r := RemoveAt(prev, p.value);
        assert forall e | e in r :: e in prev;
        r
  }

  /** remove keeps the items distinct. */
  lemma {:induction false} RemoveKeepsDistinct(items: PhpArray<Value>, values: seq<Value>, eq: (Value, Value) -> bool)
    requires Distinct(Values(items), eq)
    ensures Distinct(Values(RemoveEach(items, values, eq)), eq)
    decreases |values|
  {
    if values != [] {
      var prev := RemoveEach(items, values[..|values| - 1], eq);
      RemoveKeepsDistinct(items, values[..|values| - 1], eq);
      var p := Arr.FirstMatch(prev, ItemIs(eq, values[|values| - 1]));
      if p.Some? {
        RemoveAtDistinct(prev, p.value, eq);
      }
    }
  }

  /** On distinct items, no item equal to a removed value is left. */
  lemma {:induction false} RemoveRemoves(items: PhpArray<Value>, values: seq<Value>, eq: (Value, Value) -> bool, j: nat)
    requires Equivalence(eq) && Distinct(Values(items), eq)
    requires j < |values|
    ensures !HasItem(RemoveEach(items, values, eq), values[j], eq)
    decreases |values|
  {
    var n := |values| - 1;
    if j == n {
      RemoveRemovesLast(items, values, eq);
    } else {
      assert values[..n][j] == values[j];
      RemoveRemoves(items, values[..n], eq, j);
      RemoveStaysOut(items, values, eq, values[j]);
    }
  }

  /** The last value removed leaves no equal item behind, the items being distinct. */
  lemma RemoveRemovesLast(items: PhpArray<Value>, values: seq<Value>, eq: (Value, Value) -> bool)
    requires Equivalence(eq) && Distinct(Values(items), eq) && values != []
    ensures !HasItem(RemoveEach(items, values, eq), values[|values| - 1], eq)
  {
    var n := |values| - 1;
    var prev := RemoveEach(items, values[..n], eq);
    var r := RemoveEach(items, values, eq);
    RemoveKeepsDistinct(items, values[..n], eq);
    var p := Arr.FirstMatch(prev, ItemIs(eq, values[n]));
    if p.Some? {
      forall i | 0 <= i < |r|
        ensures !eq(r[i].value, values[n])
      {
        var q := if i < p.value then i else i + 1;
        assert r[i] == prev[q];
        assert Values(prev)[q] == prev[q].value && Values(prev)[p.value] == prev[p.value].value;
      }
    }
  }

  /** A value with no equal item before the last removal has none after it. */
  lemma RemoveStaysOut(items: PhpArray<Value>, values: seq<Value>, eq: (Value, Value) -> bool, x: Value)
    requires values != [] && !HasItem(RemoveEach(items, values[..|values| - 1], eq), x, eq)
    ensures !HasItem(RemoveEach(items, values, eq), x, eq)
  {
    var prev := RemoveEach(items, values[..|values| - 1], eq);
    var r := RemoveEach(items, values, eq);
    forall i | 0 <= i < |r|
      ensures !eq(r[i].value, x)
    {
      assert r[i] in prev;
    }
  }

  /** An item equal to none of the removed values stays, under its key. */
  lemma {:induction false} RemoveKeepsOthers(items: PhpArray<Value>, values: seq<Value>, eq: (Value, Value) -> bool, e: Entry<Value>)
    requires e in items && forall j | 0 <= j < |values| :: !eq(e.value, values[j])
    ensures e in RemoveEach(items, values, eq)
    decreases |values|
  {
    if values != [] {
      var n := |values| - 1;
      RemoveKeepsOthers(items, values[..n], eq, e);
      var prev := RemoveEach(items, values[..n], eq);
      var p := Arr.FirstMatch(prev, ItemIs(eq, values[n]));
      if p.Some? {
        var t :| 0 <= t < |prev| && prev[t] == e;
        var r := RemoveAt(prev, p.value);
        assert r[if t < p.value then t else t - 1] == e;
      }
    }
  }

  /** Removing values no item equals changes nothing. */
  lemma {:induction false} RemoveAbsent(items: PhpArray<Value>, values: seq<Value>, eq: (Value, Value) -> bool)
    requires forall j | 0 <= j < |values| :: !HasItem(items, values[j], eq)
    ensures RemoveEach(items, values, eq) == items
    decreases |values|
  {
    if values != [] {
      RemoveAbsent(items, values[..|values| - 1], eq);
    }
  }

  /** offsetSet, corrected: a value no item equals is stored at the offset, or appended when there is none. */
  function OffsetSetItems(items: PhpArray<Value>, offset: Option<Key>, value: Value, eq: (Value, Value) -> bool): PhpArray<Value> {
    if HasItem(items, value, eq) then items
    else match offset
      case None => Push(items, value)
      case Some(k) => Assign(items, k, value)
  }

  /** The key offsetSet stores a new value under: the offset, or the next free index for a null one. */
  function TargetKey(items: PhpArray<Value>, offset: Option<Key>): Key {
    if offset.Some? then offset.value else IntKey(NextIndex(items))
  }

  /** offsetSet stores a new value where it was asked to and keeps the items distinct. */
  lemma OffsetSetSemantics(items: PhpArray<Value>, offset: Option<Key>, value: Value, eq: (Value, Value) -> bool)
    requires Equivalence(eq)
    ensures HasItem(items, value, eq) ==> OffsetSetItems(items, offset, value, eq) == items
    ensures !HasItem(items, value, eq) ==>
      HasKey(OffsetSetItems(items, offset, value, eq), TargetKey(items, offset)) &&
      Get(OffsetSetItems(items, offset, value, eq), TargetKey(items, offset)) == value &&
      Keys(items) <= Keys(OffsetSetItems(items, offset, value, eq)) + [TargetKey(items, offset)]
    ensures Distinct(Values(items), eq) ==> Distinct(Values(OffsetSetItems(items, offset, value, eq)), eq)
  {
    if !HasItem(items, value, eq) {
      OffsetSetStores(items, offset, value, eq);
    }
    OffsetSetKeepsDistinct(items, offset, value, eq);
  }

  lemma OffsetSetStores(items: PhpArray<Value>, offset: Option<Key>, value: Value, eq: (Value, Value) -> bool)
    requires !HasItem(items, value, eq)
    ensures OffsetSetItems(items, offset, value, eq) == Assign(items, TargetKey(items, offset), value)
    ensures HasKey(OffsetSetItems(items, offset, value, eq), TargetKey(items, offset)) &&
      Get(OffsetSetItems(items, offset, value, eq), TargetKey(items, offset)) == value &&
      Keys(items) <= Keys(OffsetSetItems(items, offset, value, eq)) + [TargetKey(items, offset)]
  {
    AssignSemantics(items, TargetKey(items, offset), value);
  }

  lemma OffsetSetKeepsDistinct(items: PhpArray<Value>, offset: Option<Key>, value: Value, eq: (Value, Value) -> bool)
    requires Equivalence(eq)
    ensures Distinct(Values(items), eq) ==> Distinct(Values(OffsetSetItems(items, offset, value, eq)), eq)
  {
    if Distinct(Values(items), eq) && !HasItem(items, value, eq) {
      OffsetSetStores(items, offset, value, eq);
      AssignNewDistinct(items, TargetKey(items, offset), value, eq);
    }
  }

  /** Storing a value no item equals keeps the items distinct. */
  lemma AssignNewDistinct(items: PhpArray<Value>, k: Key, value: Value, eq: (Value, Value) -> bool)
    requires Equivalence(eq) && Distinct(Values(items), eq) && !HasItem(items, value, eq)
    ensures Distinct(Values(Assign(items, k, value)), eq)
  {
    var r := Assign(items, k, value);
    forall i, j | 0 <= i < j < |r|
      ensures !eq(Values(r)[j], Values(r)[i])
    {
      assert Values(r)[i] == r[i].value && Values(r)[j] == r[j].value;
      if i < |items| {
        assert Values(items)[i] == items[i].value;
      }
      if j < |items| {
        assert Values(items)[j] == items[j].value;
      }
    }
  }

  /** offsetSet as written: a null offset (`$set[] = $value`) becomes the key "". */
  function OffsetSetAsWritten(items: PhpArray<Value>, offset: Option<Key>, value: Value, eq: (Value, Value) -> bool): PhpArray<Value> {
    if HasItem(items, value, eq) then items
    else Assign(items, if offset.Some? then offset.value else StrKey(""), value)
  }

  /**
   * `$set[] = 1; $set[] = 2;` on an empty set, as written, leaves only 2, under the key "", with
   * any comparison under which 1 and 2 differ.
   */
  lemma AppendAsWrittenOverwrites(eq: (Value, Value) -> bool)
    requires !eq(Int(1), Int(2))
    ensures OffsetSetAsWritten(OffsetSetAsWritten([], None, Int(1), eq), None, Int(2), eq) == [Entry(StrKey(""), Int(2))]
  {
    AppendAsWrittenToEmpty(Int(1), eq);
    AppendAsWrittenToSingle(Int(1), Int(2), eq);
  }

  lemma AppendAsWrittenToEmpty(value: Value, eq: (Value, Value) -> bool)
    ensures OffsetSetAsWritten([], None, value, eq) == [Entry(StrKey(""), value)]
  {
    var empty: PhpArray<Value> := [];
    assert !HasItem(empty, value, eq);
  }

  lemma AppendAsWrittenToSingle(before: Value, after: Value, eq: (Value, Value) -> bool)
    requires !eq(before, after)
    ensures OffsetSetAsWritten([Entry(StrKey(""), before)], None, after, eq) == [Entry(StrKey(""), after)]
  {
    var single: PhpArray<Value> := [Entry(StrKey(""), before)];
    assert !HasItem(single, after, eq) by {
      assert |single| == 1 && single[0].value == before;
    }
    AssignOverSingle(StrKey(""), before, after);
  }

  /** Assigning to the only key of a one-entry array replaces its value. */
  lemma AssignOverSingle(k: Key, before: Value, after: Value)
    ensures Assign([Entry(k, before)], k, after) == [Entry(k, after)]
  {
    var single: PhpArray<Value> := [Entry(k, before)];
    assert Find(single, k) == 0;
  }

  /** The same two appends, corrected, keep both values under the keys 0 and 1. */
  lemma AppendCorrected(eq: (Value, Value) -> bool)
    requires !eq(Int(1), Int(2))
    ensures OffsetSetItems(OffsetSetItems([], None, Int(1), eq), None, Int(2), eq) == List([Int(1), Int(2)])
  {
    AppendToEmpty(Int(1), eq);
    AppendToSingle(Int(1), Int(2), eq);
  }

  lemma AppendToEmpty(value: Value, eq: (Value, Value) -> bool)
    ensures OffsetSetItems([], None, value, eq) == List([value])
  {
    var empty: PhpArray<Value> := [];
    assert !HasItem(empty, value, eq);
    assert List<Value>([]) == empty;
    PushOntoList([], value);
  }

  lemma AppendToSingle(before: Value, after: Value, eq: (Value, Value) -> bool)
    requires !eq(before, after)
    ensures OffsetSetItems(List([before]), None, after, eq) == List([before, after])
  {
    var one := List([before]);
    assert !HasItem(one, after, eq) by {
      assert |one| == 1 && one[0].value == before;
    }
    PushOntoList([before], after);
    assert [before] + [after] == [before, after];
  }

  /** The items of a set after map: the callback of each item in order, reindexed from 0. */
  function MapItems(items: PhpArray<Value>, callback: Value -> Value): (r: PhpArray<Value>)
    ensures |r| == |items|
    ensures forall i | 0 <= i < |r| :: r[i] == Entry(IntKey(i), callback(items[i].value))
  {
    var results := Arr.Map(List(Values(items)), (v: Value, k: Key) => callback(v));
    List(results)
  }

  /** map may leave equal items behind: mapping 1 and 2 to 0 keeps two zeros. */
  lemma MapMayDuplicate()
    ensures var eq := (x: Value, y: Value) => x == y;
      var r := MapItems(List([Int(1), Int(2)]), (v: Value) => Int(0));
      |r| == 2 && !Distinct(Values(r), eq)
  {
    var eq := (x: Value, y: Value) => x == y;
    var r := MapItems(List([Int(1), Int(2)]), (v: Value) => Int(0));
    assert Values(r)[0] == Int(0) && Values(r)[1] == Int(0);
  }

  /** Merging lists never makes the unpacking into add fail. */
  lemma MergeOfListsUnpacks(arrays: seq<PhpArray<Value>>)
    requires forall i | 0 <= i < |arrays| :: OnlyIntKeys(arrays[i])
    ensures !NamedBeforePositional(Arr.Merge(arrays))
  {
    Arr.MergeLists(arrays);
  }

  /** Merging `['a' => 1]` with `[2]` puts a named argument before a positional one: merge fails. */
  lemma MergeNamedFirstFails()
    ensures NamedBeforePositional(Arr.Merge([[Entry(StrKey("a"), Int(1))], [Entry(IntKey(0), Int(2))]]))
  {
    var named: PhpArray<Value> := [Entry(StrKey("a"), Int(1))];
    var positional: PhpArray<Value> := [Entry(IntKey(0), Int(2))];
    var arrays := [named, positional];
    assert arrays[..1] == [named] && [named][..0] == [];
    assert Arr.Merge([named]) == named by {
      assert ArrayMerge<Value>([[]]) == [];
      assert [[], named][..1] == [[]];
      assert MergeStep([], named[0]) == named;
      assert MergeInto([], named) == MergeInto(named, []);
    }
    var merged := Arr.Merge(arrays);
    assert merged == MergeInto(named, positional) by {
      assert merged == ArrayMerge([named, positional]);
      assert [named, positional][..1] == [named] && [named][..0] == [];
      assert ArrayMerge([named]) == MergeInto([], named) == named;
    }
    assert MaxIntKey(named) == None;
    assert MergeStep(named, positional[0]) == named + [Entry(IntKey(0), Int(2))];
    assert merged[0].key.StrKey? && merged[1].key.IntKey?;
  }

  /** A set built from `init` holds the kept values in the order they were given. */
  lemma ConstructionOrder(init: seq<Value>, eq: (Value, Value) -> bool)
    ensures Subsequence(Values(AddEach([], init, eq)), init)
  {
    ValuesOfAddEach([], init, eq);
    AddAllKeepsOrder([], init, eq);
    assert Values<Value>([]) == [];
    assert AddAll([], init, eq)[0..] == AddAll([], init, eq);
  }

  /** `new Set([1, 2, 2, 3])` holds 1, 2 and 3, in that order. */
  lemma ConstructionExample(eq: (Value, Value) -> bool)
    requires Equivalence(eq) && !eq(Int(1), Int(2)) && !eq(Int(1), Int(3)) && !eq(Int(2), Int(3))
    ensures Values(AddEach([], [Int(1), Int(2), Int(2), Int(3)], eq)) == [Int(1), Int(2), Int(3)]
  {
    ValuesOfAddEach([], [Int(1), Int(2), Int(2), Int(3)], eq);
    assert Values<Value>([]) == [];
    ExampleSteps(eq);
  }

  lemma ExampleSteps(eq: (Value, Value) -> bool)
    requires Equivalence(eq) && !eq(Int(1), Int(2)) && !eq(Int(1), Int(3)) && !eq(Int(2), Int(3))
    ensures AddAll([], [Int(1), Int(2), Int(2), Int(3)], eq) == [Int(1), Int(2), Int(3)]
  {
    var empty: seq<Value> := [];
    assert !eq(Int(2), Int(1)) && !eq(Int(3), Int(1)) && !eq(Int(3), Int(2)) && eq(Int(2), Int(2));
    assert AddAll(empty, [Int(1)], eq) == [Int(1)] by {
      AddAllSnoc(empty, empty, Int(1), eq);
      assert empty + [Int(1)] == [Int(1)];
    }
    assert AddAll(empty, [Int(1), Int(2)], eq) == [Int(1), Int(2)] by {
      AddAllSnoc(empty, [Int(1)], Int(2), eq);
      NotOccurs1(Int(1), Int(2), eq);
      assert [Int(1)] + [Int(2)] == [Int(1), Int(2)];
    }
    assert AddAll(empty, [Int(1), Int(2), Int(2)], eq) == [Int(1), Int(2)] by {
      AddAllSnoc(empty, [Int(1), Int(2)], Int(2), eq);
      assert eq(Int(2), [Int(1), Int(2)][1]);
      assert [Int(1), Int(2)] + [Int(2)] == [Int(1), Int(2), Int(2)];
    }
    AddAllSnoc(empty, [Int(1), Int(2), Int(2)], Int(3), eq);
    NotOccurs2(Int(1), Int(2), Int(3), eq);
    assert [Int(1), Int(2), Int(2)] + [Int(3)] == [Int(1), Int(2), Int(2), Int(3)];
    assert [Int(1), Int(2)] + [Int(3)] == [Int(1), Int(2), Int(3)];
  }

  lemma NotOccurs1(a: Value, v: Value, eq: (Value, Value) -> bool)
    requires !eq(v, a)
    ensures !Occurs([a], v, eq)
  {
  }

  lemma NotOccurs2(a: Value, b: Value, v: Value, eq: (Value, Value) -> bool)
    requires !eq(v, a) && !eq(v, b)
    ensures !Occurs([a, b], v, eq)
  {
  }

  class Set {
    var items: PhpArray<Value>
    const eq: (Value, Value) -> bool

    ghost predicate Valid()
      reads this
    {
      Equivalence(eq)
    }

    /** No two items are equal. */
    ghost predicate Unique()
      reads this
    {
      Distinct(Values(items), eq)
    }

    /** Adds each value of `init` in turn. */
    constructor(init: seq<Value>, eq: (Value, Value) -> bool)
      requires Equivalence(eq)
      ensures Valid() && Unique() && this.eq == eq
      ensures items == AddEach([], init, eq)
    {
      this.eq := eq;
      items := [];
      new;
      var i := 0;
      while i < |init|
        invariant 0 <= i <= |init|
        invariant Valid() && this.eq == eq
        invariant items == AddEach([], init[..i], eq)
      {
        AddEachStep([], init, eq, i);
        var _ := Add([init[i]]);
        i := i + 1;
      }
      assert init[..|init|] == init;
      ValuesOfAddEach([], init, eq);
      AddAllDistinct([], init, eq);
    }

    /** from: a new set of the values of `init`. */
    static method From(init: seq<Value>, eq: (Value, Value) -> bool) returns (s: Set)
      requires Equivalence(eq)
      ensures fresh(s) && s.Valid() && s.Unique() && s.eq == eq
      ensures s.items == AddEach([], init, eq)
    {
      s := new Set(init, eq);
    }

    /** range: a new set of the integers range() produces, or range()'s error. */
    static method Range(start: int, end: int, step: int, eq: (Value, Value) -> bool) returns (r: Result<Set, RangeError>)
      requires Equivalence(eq)
      ensures IntRange(start, end, step).Failure? ==> r == Failure(IntRange(start, end, step).error)
      ensures IntRange(start, end, step).Success? ==>
        r.Success? && fresh(r.value) && r.value.Valid() && r.value.Unique() &&
        r.value.items == AddEach([], IntValues(IntRange(start, end, step).value), eq)
    {
      var ns := IntRange(start, end, step);
      if ns.Failure? {
        return Failure(ns.error);
      }
      var s := From(IntValues(ns.value), eq);
      return Success(s);
    }

    /** alphabet: a new set of the letters 'a' to 'z'. */
    static method Alphabet(eq: (Value, Value) -> bool) returns (s: Set)
      requires Equivalence(eq)
      ensures fresh(s) && s.Valid() && s.Unique()
      ensures s.items == AddEach([], Letters(), eq)
    {
      s := From(Letters(), eq);
    }

    /** to_array: the items in order, reindexed from 0. */
    function ToArray(): (r: PhpArray<Value>)
      reads this
      ensures |r| == |items|
      ensures forall i | 0 <= i < |r| :: r[i] == Entry(IntKey(i), items[i].value)
    {
      List(Values(items))
    }

    /** count: the number of items. */
    function Count(): (n: nat)
      reads this
      ensures n == |ToArray()|
    {
      |items|
    }

    /** add: appends each value no item equals, checking against the items added so far. */
    method Add(values: seq<Value>) returns (self: Set)
      requires Valid()
      modifies this
      ensures Valid() && self == this
      ensures items == AddEach(old(items), values, eq)
      ensures old(Unique()) ==> Unique()
    {
      ghost var start := items;
      var i := 0;
      while i < |values|
        invariant 0 <= i <= |values|
        invariant items == AddEach(start, values[..i], eq)
      {
        var v := values[i];
        var present := Arr.Has(items, ValueIs(eq, v));
        assert AddEach(start, values[..i + 1], eq) == if present then items else Push(items, v) by {
          AddEachStep(start, values, eq, i);
          AddEachOne(items, v, eq);
          OccursInValues(items, v, eq);
          assert present <==> Occurs(Values(items), v, eq);
        }
        if !present {
          items := Push(items, v);
        }
        i := i + 1;
      }
      assert values[..|values|] == values;
      AddSemantics(start, values, eq, Null);
      return this;
    }

    /** remove: unsets, for each value in turn, the first item equal to it. */
    method Remove(values: seq<Value>) returns (self: Set)
      requires Valid()
      modifies this
      ensures Valid() && self == this
      ensures items == RemoveEach(old(items), values, eq)
      ensures old(Unique()) ==> Unique()
    {
      ghost var start := items;
      var i := 0;
      while i < |values|
        invariant 0 <= i <= |values|
        invariant items == RemoveEach(start, values[..i], eq)
      {
        assert values[..i + 1][..i] == values[..i];
        var key := Arr.FirstKey(items, Some(ItemIs(eq, values[i])));
        if key.Some? {
          FindAt(items, Arr.FirstMatch(items, ItemIs(eq, values[i])).value);
          items := Unset(items, key.value);
        }
        i := i + 1;
      }
      assert values[..|values|] == values;
      if Distinct(Values(start), eq) {
        RemoveKeepsDistinct(start, values, eq);
      }
      return this;
    }

    /** forget: keeps the items the condition fails for, reindexed from 0. */
    method Forget(condition: (Value, Key) -> bool) returns (self: Set)
      requires Valid()
      modifies this
      ensures Valid() && self == this
      ensures items == List(Values(Select(old(items), Not(condition))))
      ensures old(Unique()) ==> Unique()
    {
      if Distinct(Values(items), eq) {
        SelectDistinct(items, Not(condition), eq);
      }
      var kept := Arr.Forget(items, condition);
      ValuesOfList(Values(kept));
      items := List(Values(kept));
      return this;
    }

    /** clear: no items left. */
    method Clear() returns (self: Set)
      requires Valid()
      modifies this
      ensures Valid() && Unique() && self == this
      ensures items == [] && Count() == 0
    {
      items := [];
      return this;
    }

    /** map: the callback of each item, reindexed from 0; equal results are all kept. */
    method Map(callback: Value -> Value) returns (self: Set)
      requires Valid()
      modifies this
      ensures Valid() && self == this
      ensures items == MapItems(old(items), callback)
    {
      items := MapItems(items, callback);
      return this;
    }

    /**
     * merge: unpacks the merged arrays into add. A string key before an integer key in the merged array
     * makes the unpacking raise an Error and leaves the set as it was; otherwise every merged value is
     * added, in order, named ones included.
     */
    method Merge(arrays: seq<PhpArray<Value>>) returns (r: Result<Set, UnpackError>)
      requires Valid()
      modifies this
      ensures Valid()
      ensures NamedBeforePositional(Arr.Merge(arrays)) ==> r == Failure(PositionalAfterNamed) && items == old(items)
      ensures !NamedBeforePositional(Arr.Merge(arrays)) ==>
        r == Success(this) && items == AddEach(old(items), Values(Arr.Merge(arrays)), eq)
      ensures old(Unique()) ==> Unique()
    {
      var merged := Arr.Merge(arrays);
      if NamedBeforePositional(merged) {
        return Failure(PositionalAfterNamed);
      }
      var self := Add(Values(merged));
      r := Success(self);
    }

    /** offsetExists: isset, so the offset holds a value other than null. */
    method OffsetExists(offset: Key) returns (r: bool)
      ensures r <==> HasKey(items, offset) && Get(items, offset) != Null
    {
      r := HasKey(items, offset) && Get(items, offset) != Null;
    }

    /** offsetGet: the value at the offset, or null when it is missing. */
    method OffsetGet(offset: Key) returns (r: Value)
      ensures HasKey(items, offset) ==> r == Get(items, offset)
      ensures !HasKey(items, offset) ==> r == Null
    {
      r := if HasKey(items, offset) then Get(items, offset) else Null;
    }

    /** offsetSet, corrected: stores a value no item equals at the offset, appending for a null offset. */
    method OffsetSet(offset: Option<Key>, value: Value)
      requires Valid()
      modifies this
      ensures Valid()
      ensures items == OffsetSetItems(old(items), offset, value, eq)
      ensures old(Unique()) ==> Unique()
    {
      OffsetSetKeepsDistinct(items, offset, value, eq);
      var present := Arr.Has(items, ItemIs(eq, value));
      if !present {
        items := if offset.Some? then Assign(items, offset.value, value) else Push(items, value);
      }
    }

    /** offsetUnset: removes the offset only. */
    method OffsetUnset(offset: Key)
      requires Valid()
      modifies this
      ensures Valid()
      ensures items == Unset(old(items), offset)
      ensures old(Unique()) ==> Unique()
    {
      if HasKey(items, offset) {
        RemoveAtDistinctIf(items, Find(items, offset), eq);
      }
      items := Unset(items, offset);
    }
  }

  lemma RemoveAtDistinctIf(items: PhpArray<Value>, p: nat, eq: (Value, Value) -> bool)
    requires p < |items|
    ensures Distinct(Values(items), eq) ==> Distinct(Values(RemoveAt(items, p)), eq)
  {
    if Distinct(Values(items), eq) {
      RemoveAtDistinct(items, p, eq);
    }
  }
}
