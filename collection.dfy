/** Source/Collection.php: a thin mutable wrapper around one PHP array of values. */
module Collections {
  import opened Wrappers
  import opened Php
  import Arr

  /** The default test of except: `(bool) $value`. */
  function Truthiness(): (Value, Key) -> bool {
    (v: Value, k: Key) => Truthy(v)
  }

  /** skip(n): the entries after the first n, through array_slice. */
  function SkipItems(items: PhpArray<Value>, offset: nat): PhpArray<Value> {
    Slice(items, if offset < |items| then offset else |items|, |items|)
  }

  /** On a list, skip(n) is the remaining values reindexed from 0, and nothing once n reaches the count. */
  lemma SkipList(items: PhpArray<Value>, offset: nat)
    requires OnlyIntKeys(items)
    ensures offset < |items| ==> SkipItems(items, offset) == List(Values(items)[offset..])
    ensures offset >= |items| ==> SkipItems(items, offset) == []
  {
    var from := if offset < |items| then offset else |items|;
    SliceOfList(items, from, |items|);
    assert Values(items)[from..|items|] == Values(items)[from..];
  }

  /** skip(1) of ['foo', 'bar', 'baz'] is ['bar', 'baz']. */
  lemma SkipExample()
    ensures SkipItems(List([String("foo"), String("bar"), String("baz")]), 1) == List([String("bar"), String("baz")])
  {
    var vs := [String("foo"), String("bar"), String("baz")];
    SkipList(List(vs), 1);
    ValuesOfList(vs);
    assert vs[1..] == [String("bar"), String("baz")];
  }

  /** Without a condition except keeps exactly the falsy entries, and filter the truthy ones. */
  lemma DefaultExceptFilter(items: PhpArray<Value>)
    ensures forall e | e in items :: e in Select(items, Not(Truthiness())) <==> !Truthy(e.value)
    ensures Select(items, Arr.WhenTruthy()) == Arr.Filter(items, None)
    ensures forall e | e in items :: e in Arr.Filter(items, None) <==> Truthy(e.value)
  {
  }

  class Collection {
    var items: PhpArray<Value>

    constructor(init: PhpArray<Value>)
      ensures items == init
    {
      items := init;
    }

    /** count: the number of entries. */
    function Count(): (n: nat)
      reads this
      ensures n == |Keys()|
    {
      |items|
    }

    /** items: the array itself. */
    function Items(): (r: PhpArray<Value>)
      reads this
      ensures r == items
    {
      items
    }

    /** keys: the keys in order. */
    function Keys(): (r: seq<Key>)
      reads this
      ensures |r| == |items| && forall i | 0 <= i < |r| :: r[i] == items[i].key
    {
      Php.Keys(items)
    }

    /** values: the values in order, reindexed from 0. */
    function Values(): (r: PhpArray<Value>)
      reads this
      ensures |r| == |items| && forall i | 0 <= i < |r| :: r[i] == Entry(IntKey(i), items[i].value)
    {
      List(Php.Values(items))
    }

    /** map: the closure of each (value, key), reindexed from 0. */
    function Map(closure: (Value, Key) -> Value): (r: PhpArray<Value>)
      reads this
      ensures |r| == |items| && forall i | 0 <= i < |r| :: r[i] == Entry(IntKey(i), closure(items[i].value, items[i].key))
    {
      List(Arr.Map(items, closure))
    }

    /** reduce: the closure folded over (carry, value, key) from the first entry to the last. */
    function Reduce(closure: (Value, Value, Key) -> Value, carry: Value): (r: Value)
      reads this
      ensures items == [] ==> r == carry
      ensures r == Arr.Reduce(items, closure, carry)
    {
      Arr.Reduce(items, closure, carry)
    }

    /**
     * each: calls the closure on every entry; the items stay as they are and the instance is returned.
     * A PHP closure may have side effects; a Dafny function value has none, so those effects are not modelled.
     */
    method Each(closure: (Value, Key) -> Value) returns (self: Collection)
      ensures self == this
    {
      var i := 0;
      while i < |items|
        invariant 0 <= i <= |items|
      {
        var _ := closure(items[i].value, items[i].key);
        i := i + 1;
      }
      return this;
    }

    /** every: the condition holds for every entry, or every value is truthy. */
    method Every(check: Option<(Value, Key) -> bool>) returns (r: bool)
      ensures check.Some? ==> (r <==> forall i | 0 <= i < |items| :: check.value(items[i].value, items[i].key))
      ensures check.None? ==> (r <==> forall i | 0 <= i < |items| :: Truthy(items[i].value))
    {
      r := Arr.All(items, check);
    }

    /** except: a new collection of the entries the check fails for (the falsy ones by default), keys kept. */
    method Except(check: Option<(Value, Key) -> bool>) returns (c: Collection)
      ensures fresh(c)
      ensures c.items == Select(items, Not(if check.Some? then check.value else Truthiness()))
    {
      var test: (Value, Key) -> bool := if check.Some? then check.value else Truthiness();
      var keep := Not(test);
      var results: PhpArray<Value> := [];
      var i := 0;
      while i < |items|
        invariant 0 <= i <= |items|
        invariant results == Select(items[..i], keep)
      {
        Arr.SelectStep(items, keep, i);
        if keep(items[i].value, items[i].key) {
          results := Assign(results, items[i].key, items[i].value);
        }
        i := i + 1;
      }
      assert items[..|items|] == items;
      c := new Collection(results);
    }

    /** filter: a new collection of the entries passing the closure (the truthy ones by default), keys kept. */
    method Filter(closure: Option<(Value, Key) -> bool>) returns (c: Collection)
      ensures fresh(c)
      ensures c.items == Arr.Filter(items, closure)
    {
      if closure.Some? {
        var results: PhpArray<Value> := [];
        var i := 0;
        while i < |items|
          invariant 0 <= i <= |items|
          invariant results == Select(items[..i], closure.value)
        {
          Arr.SelectStep(items, closure.value, i);
          if closure.value(items[i].value, items[i].key) {
            results := Assign(results, items[i].key, items[i].value);
          }
          i := i + 1;
        }
        assert items[..|items|] == items;
        c := new Collection(results);
      } else {
        c := new Collection(Arr.Filter(items, None));
      }
    }

    /** first_key: delegates to the array helper. */
    method FirstKey(condition: Option<(Value, Key) -> bool>) returns (r: Option<Key>)
      ensures condition.None? ==> r == (if items == [] then None else Some(items[0].key))
      ensures condition.Some? ==> r == Arr.KeyAt(items, Arr.FirstMatch(items, condition.value))
    {
      r := Arr.FirstKey(items, condition);
    }

    /** first: delegates to the array helper. */
    method First(condition: Option<(Value, Key) -> bool>) returns (r: Option<Value>)
      ensures condition.None? ==> r == (if items == [] then None else Some(items[0].value))
      ensures condition.Some? ==> r == Arr.ValueAt(items, Arr.FirstMatch(items, condition.value))
    {
      r := Arr.First(items, condition);
    }

    /** last_key: delegates to the array helper. */
    method LastKey(condition: Option<(Value, Key) -> bool>) returns (r: Option<Key>)
      ensures condition.None? ==> r == (if items == [] then None else Some(items[|items| - 1].key))
      ensures condition.Some? ==> r == Arr.KeyAt(items, Arr.LastMatch(items, condition.value))
    {
      r := Arr.LastKey(items, condition);
    }

    /** last: delegates to the array helper. */
    method Last(condition: Option<(Value, Key) -> bool>) returns (r: Option<Value>)
      ensures condition.None? ==> r == (if items == [] then None else Some(items[|items| - 1].value))
      ensures condition.Some? ==> r == Arr.ValueAt(items, Arr.LastMatch(items, condition.value))
    {
      r := Arr.Last(items, condition);
    }

    /** has: some entry passes the closure. */
    method Has(closure: (Value, Key) -> bool) returns (r: bool)
      ensures r <==> exists i | 0 <= i < |items| :: closure(items[i].value, items[i].key)
    {
      r := Arr.Has(items, closure);
    }

    /** forget: removes the entries the condition holds for; the others keep their keys and order. */
    method Forget(condition: (Value, Key) -> bool) returns (self: Collection)
      modifies this
      ensures self == this
      ensures items == Select(old(items), Not(condition))
    {
      items := Arr.Forget(items, condition);
      return this;
    }

    /** offsetExists: isset, so the key holds a value other than null. */
    method OffsetExists(offset: Key) returns (r: bool)
      ensures r <==> HasKey(items, offset) && Get(items, offset) != Null
    {
      r := HasKey(items, offset) && Get(items, offset) != Null;
    }

    /** offsetGet: the value under the key, or null when it is missing. */
    method OffsetGet(offset: Key) returns (r: Value)
      ensures HasKey(items, offset) ==> r == Get(items, offset)
      ensures !HasKey(items, offset) ==> r == Null
    {
      r := if HasKey(items, offset) then Get(items, offset) else Null;
    }

    /** put: assigns under the key, or appends at the next index when there is none. */
    method Put(value: Value, key: Option<Key>) returns (self: Collection)
      modifies this
      ensures self == this
      ensures key.Some? ==> items == Assign(old(items), key.value, value)
      ensures key.None? ==> items == Php.Push(old(items), value)
    {
      items := if key.Some? then Assign(items, key.value, value) else Php.Push(items, value);
      return this;
    }

    /** push: put without a key. */
    method Push(value: Value) returns (self: Collection)
      modifies this
      ensures self == this
      ensures items == Php.Push(old(items), value)
    {
      self := Put(value, None);
    }

    /** offsetSet: put with the arguments swapped. */
    method OffsetSet(offset: Option<Key>, value: Value)
      modifies this
      ensures offset.Some? ==> items == Assign(old(items), offset.value, value)
      ensures offset.None? ==> items == Php.Push(old(items), value)
    {
      var _ := Put(value, offset);
    }

    /** offsetUnset: removes the key only. */
    method OffsetUnset(offset: Key)
      modifies this
      ensures items == Unset(old(items), offset)
    {
      items := Unset(items, offset);
    }

    /** skip: a new collection of the entries after the first `offset`. */
    method Skip(offset: nat) returns (c: Collection)
      ensures fresh(c)
      ensures c.items == SkipItems(items, offset)
    {
      c := new Collection(SkipItems(items, offset));
    }

    /** take: removes and returns the value of the first entry the condition holds for. */
    method Take(condition: (Value, Key) -> bool) returns (taken: Option<Value>)
      modifies this
      ensures Arr.FirstMatch(old(items), condition).None? ==> taken == None && items == old(items)
      ensures Arr.FirstMatch(old(items), condition).Some? ==>
        taken == Some(old(items)[Arr.FirstMatch(old(items), condition).value].value) &&
        items == RemoveAt(old(items), Arr.FirstMatch(old(items), condition).value)
    {
      taken, items := Arr.TakeFirst(items, condition);
    }
  }
}
