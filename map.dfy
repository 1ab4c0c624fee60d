/**
 * Source/Map.php: an association list of `['key' => …, 'value' => …]` records kept in a PHP
 * array, looked up linearly with the overridable key equality `eq`.
 */
module Maps {
  import opened Wrappers
  import opened Php
  import opened Equality
  import Arr

  /** A stored `['key' => $key, 'value' => $value]` record. */
  datatype Pair = Pair(key: Value, value: Value)

  /** offsetGet's OutOfBoundsException for a key no stored key equals. */
  datatype MapError = OutOfBounds(key: Value)

  /** Pairs compared by their keys: the test `put` runs before inserting. */
  function KeyEq(eq: (Value, Value) -> bool): (Pair, Pair) -> bool {
    (p: Pair, q: Pair) => eq(p.key, q.key)
  }

  lemma KeyEqEquivalence(eq: (Value, Value) -> bool)
    requires Equivalence(eq)
    ensures Equivalence(KeyEq(eq))
  {
    var e := KeyEq(eq);
    forall x: Pair
      ensures e(x, x)
    {
      assert eq(x.key, x.key);
    }
    forall x: Pair, y: Pair | e(x, y)
      ensures e(y, x)
    {
      assert eq(x.key, y.key);
    }
    forall x: Pair, y: Pair, z: Pair | e(x, y) && e(y, z)
      ensures e(x, z)
    {
      assert eq(x.key, y.key) && eq(y.key, z.key);
    }
  }

  /** The callback `fn ($pair) => $this->are_equal($key, $pair['key'])`. */
  function KeyIs(eq: (Value, Value) -> bool, key: Value): (Pair, Key) -> bool {
    (p: Pair, k: Key) => eq(key, p.key)
  }

  /** Some stored pair has a key equal to `key`. */
  predicate HasKeyEq(items: seq<Entry<Pair>>, key: Value, eq: (Value, Value) -> bool) {
    exists i | 0 <= i < |items| :: eq(key, items[i].value.key)
  }

  /** No two stored pairs have equal keys. */
  predicate UniquePairs(items: seq<Entry<Pair>>, eq: (Value, Value) -> bool) {
    Distinct(Values(items), KeyEq(eq))
  }

  lemma OccursPair(items: seq<Entry<Pair>>, p: Pair, eq: (Value, Value) -> bool)
    ensures Occurs(Values(items), p, KeyEq(eq)) <==> HasKeyEq(items, p.key, eq)
  {
    assert forall i | 0 <= i < |items| :: Values(items)[i] == items[i].value;
  }

  /** The value of the first pair whose key equals `key`: what offsetGet returns. */
  function Lookup(items: PhpArray<Pair>, key: Value, eq: (Value, Value) -> bool): (r: Option<Value>)
    ensures r.None? <==> !HasKeyEq(items, key, eq)
    ensures r.Some? ==> exists i | 0 <= i < |items| :: eq(key, items[i].value.key) && items[i].value.value == r.value
  {
    var p := Arr.FirstMatch(items, KeyIs(eq, key));
    if p.Some? then Some(items[p.value].value.value) else None
  }

  /** With distinct keys, the pair whose key equals `key` is the one looked up, wherever it is. */
  lemma LookupUnique(items: PhpArray<Pair>, key: Value, eq: (Value, Value) -> bool, i: nat)
    requires Equivalence(eq) && UniquePairs(items, eq)
    requires i < |items| && eq(key, items[i].value.key)
    ensures Lookup(items, key, eq) == Some(items[i].value.value)
  {
    var p := Arr.FirstMatch(items, KeyIs(eq, key)).value;
    assert eq(items[i].value.key, items[p].value.key);
    assert Values(items)[i] == items[i].value && Values(items)[p] == items[p].value;
    assert p == i;
  }

  /** Equal keys look up the same pair. */
  lemma LookupEquivalentKeys(items: PhpArray<Pair>, k1: Value, k2: Value, eq: (Value, Value) -> bool)
    requires Equivalence(eq) && eq(k1, k2)
    ensures Arr.FirstMatch(items, KeyIs(eq, k1)) == Arr.FirstMatch(items, KeyIs(eq, k2))
    ensures Lookup(items, k1, eq) == Lookup(items, k2, eq)
  {
    forall i | 0 <= i < |items|
      ensures KeyIs(eq, k1)(items[i].value, items[i].key) == KeyIs(eq, k2)(items[i].value, items[i].key)
    {
      var x := items[i].value.key;
      assert KeyIs(eq, k1)(items[i].value, items[i].key) == eq(k1, x);
      assert KeyIs(eq, k2)(items[i].value, items[i].key) == eq(k2, x);
      assert eq(k2, k1);
      assert eq(k1, x) ==> eq(k2, x);
      assert eq(k2, x) ==> eq(k1, x);
    }
    Arr.FirstMatchAgree(items, items, KeyIs(eq, k1), KeyIs(eq, k2));
  }

  /** `put`: appends the pair unless a stored key equals `key`, the insertion fold for one pair. */
  function PutItems(items: PhpArray<Pair>, key: Value, value: Value, eq: (Value, Value) -> bool): PhpArray<Pair> {
    AddEach(items, [Pair(key, value)], KeyEq(eq))
  }

  /** put keeps every stored pair and only ever adds the new one at the end. */
  lemma PutShape(items: PhpArray<Pair>, key: Value, value: Value, eq: (Value, Value) -> bool)
    ensures HasKeyEq(items, key, eq) ==> PutItems(items, key, value, eq) == items
    ensures !HasKeyEq(items, key, eq) ==> PutItems(items, key, value, eq) == Push(items, Pair(key, value))
  {
    var vs := [Pair(key, value)];
    OccursPair(items, Pair(key, value), eq);
    assert vs[..0] == [];
    assert AddEach(items, vs[..0], KeyEq(eq)) == items;
  }

  /** put keeps the keys distinct. */
  lemma PutKeepsUnique(items: PhpArray<Pair>, key: Value, value: Value, eq: (Value, Value) -> bool)
    requires UniquePairs(items, eq)
    ensures UniquePairs(PutItems(items, key, value, eq), eq)
  {
    ValuesOfAddEach(items, [Pair(key, value)], KeyEq(eq));
    AddAllDistinct(Values(items), [Pair(key, value)], KeyEq(eq));
  }

  /** After put(key, value), `key` maps to value only if it was absent; no other key changes. */
  lemma PutLookup(items: PhpArray<Pair>, key: Value, value: Value, eq: (Value, Value) -> bool, k: Value)
    requires Equivalence(eq)
    ensures Lookup(PutItems(items, key, value, eq), k, eq) ==
      if eq(k, key) && !HasKeyEq(items, key, eq) then Some(value) else Lookup(items, k, eq)
  {
    PutShape(items, key, value, eq);
    if !HasKeyEq(items, key, eq) {
      var e := Entry(IntKey(NextIndex(items)), Pair(key, value));
      Arr.FirstMatchAppend(items, e, KeyIs(eq, k));
      if eq(k, key) {
        assert !HasKeyEq(items, k, eq);
      }
    }
  }

  /** swap: overwrites the value of the first pair whose key equals `key`, if there is one. */
  function SwapItems(items: PhpArray<Pair>, key: Value, value: Value, eq: (Value, Value) -> bool): (r: PhpArray<Pair>)
    ensures |r| == |items|
    ensures forall i | 0 <= i < |items| :: r[i].key == items[i].key && r[i].value.key == items[i].value.key
    ensures forall i | 0 <= i < |items| && Arr.FirstMatch(items, KeyIs(eq, key)) != Some(i) :: r[i] == items[i]
    ensures Arr.FirstMatch(items, KeyIs(eq, key)).Some? ==>
      r[Arr.FirstMatch(items, KeyIs(eq, key)).value].value.value == value
  {
    var p := Arr.FirstMatch(items, KeyIs(eq, key));
    if p.None? then items
    else
      var e := items[p.value];
      FindAt(items, p.value);
      Assign(items, e.key, Pair(e.value.key, value))
  }

  /** After swap(key, value), `key` maps to value if it was present; nothing else changes. */
  lemma SwapLookup(items: PhpArray<Pair>, key: Value, value: Value, eq: (Value, Value) -> bool, k: Value)
    requires Equivalence(eq)
    ensures Lookup(SwapItems(items, key, value, eq), k, eq) ==
      if eq(k, key) && HasKeyEq(items, key, eq) then Some(value) else Lookup(items, k, eq)
  {
    SwapFinds(items, key, value, eq, k);
    if eq(k, key) {
      LookupEquivalentKeys(items, k, key, eq);
    } else {
      SwapLookupOther(items, key, value, eq, k);
    }
  }

  /** swap keeps every key in place, so a key is found at the same position after it. */
  lemma SwapFinds(items: PhpArray<Pair>, key: Value, value: Value, eq: (Value, Value) -> bool, k: Value)
    ensures Arr.FirstMatch(SwapItems(items, key, value, eq), KeyIs(eq, k)) == Arr.FirstMatch(items, KeyIs(eq, k))
  {
    Arr.FirstMatchAgree(SwapItems(items, key, value, eq), items, KeyIs(eq, k), KeyIs(eq, k));
  }

  lemma SwapLookupOther(items: PhpArray<Pair>, key: Value, value: Value, eq: (Value, Value) -> bool, k: Value)
    requires Equivalence(eq) && !eq(k, key)
    requires Arr.FirstMatch(SwapItems(items, key, value, eq), KeyIs(eq, k)) == Arr.FirstMatch(items, KeyIs(eq, k))
    ensures Lookup(SwapItems(items, key, value, eq), k, eq) == Lookup(items, k, eq)
  {
    var p := Arr.FirstMatch(items, KeyIs(eq, k));
    var q := Arr.FirstMatch(items, KeyIs(eq, key));
    if p.Some? && q.Some? {
      assert p.value != q.value;
    }
  }

  /** set: swap when a stored key equals `key`, otherwise append the pair. */
  function SetItems(items: PhpArray<Pair>, key: Value, value: Value, eq: (Value, Value) -> bool): PhpArray<Pair> {
    if HasKeyEq(items, key, eq) then SwapItems(items, key, value, eq) else Push(items, Pair(key, value))
  }

  /** After set(key, value), `key` maps to value whether or not it was present; no other key changes. */
  lemma SetLookup(items: PhpArray<Pair>, key: Value, value: Value, eq: (Value, Value) -> bool, k: Value)
    requires Equivalence(eq)
    ensures Lookup(SetItems(items, key, value, eq), k, eq) ==
      if eq(k, key) then Some(value) else Lookup(items, k, eq)
  {
    if HasKeyEq(items, key, eq) {
      SwapLookup(items, key, value, eq, k);
    } else {
      PutShape(items, key, value, eq);
      PutLookup(items, key, value, eq, k);
    }
  }

  /** swap and set change no key, so the keys stay distinct. */
  lemma SetKeepsUnique(items: PhpArray<Pair>, key: Value, value: Value, eq: (Value, Value) -> bool)
    requires UniquePairs(items, eq)
    ensures UniquePairs(SwapItems(items, key, value, eq), eq)
    ensures UniquePairs(SetItems(items, key, value, eq), eq)
  {
    var r := SwapItems(items, key, value, eq);
    assert forall i | 0 <= i < |items| :: Values(r)[i].key == Values(items)[i].key;
    if !HasKeyEq(items, key, eq) {
      PutShape(items, key, value, eq);
      PutKeepsUnique(items, key, value, eq);
    }
  }

  /** offsetUnset(key) removes `key` and leaves every other key mapped as before. */
  lemma UnsetLookup(items: PhpArray<Pair>, key: Value, eq: (Value, Value) -> bool, k: Value)
    requires Equivalence(eq) && UniquePairs(items, eq)
    ensures Lookup(Select(items, Not(KeyIs(eq, key))), k, eq) ==
      if eq(k, key) then None else Lookup(items, k, eq)
  {
    if eq(k, key) {
      UnsetRemovesKey(items, key, eq, k);
    } else if HasKeyEq(items, k, eq) {
      UnsetKeepsOther(items, key, eq, k);
    } else {
      UnsetAbsent(items, key, eq, k);
    }
  }

  lemma UnsetRemovesKey(items: PhpArray<Pair>, key: Value, eq: (Value, Value) -> bool, k: Value)
    requires Equivalence(eq) && eq(k, key)
    ensures Lookup(Select(items, Not(KeyIs(eq, key))), k, eq) == None
  {
    var r := Select(items, Not(KeyIs(eq, key)));
    forall j | 0 <= j < |r|
      ensures !eq(k, r[j].value.key)
    {
      assert r[j] in r;
    }
  }

  lemma UnsetAbsent(items: PhpArray<Pair>, key: Value, eq: (Value, Value) -> bool, k: Value)
    requires !HasKeyEq(items, k, eq)
    ensures Lookup(Select(items, Not(KeyIs(eq, key))), k, eq) == None
  {
    var r := Select(items, Not(KeyIs(eq, key)));
    forall j | 0 <= j < |r|
      ensures !eq(k, r[j].value.key)
    {
      assert r[j] in r;
    }
  }

  lemma UnsetKeepsOther(items: PhpArray<Pair>, key: Value, eq: (Value, Value) -> bool, k: Value)
    requires Equivalence(eq) && UniquePairs(items, eq) && !eq(k, key) && HasKeyEq(items, k, eq)
    ensures Lookup(Select(items, Not(KeyIs(eq, key))), k, eq) == Lookup(items, k, eq)
  {
    var r := Select(items, Not(KeyIs(eq, key)));
    assert UniquePairs(r, eq) by {
      SelectDistinct(items, Not(KeyIs(eq, key)), KeyEq(eq));
    }
    var i :| 0 <= i < |items| && eq(k, items[i].value.key);
    LookupUnique(items, k, eq, i);
    assert items[i] in r by {
      assert Not(KeyIs(eq, key))(items[i].value, items[i].key);
    }
    var j :| 0 <= j < |r| && r[j] == items[i];
    LookupUnique(r, k, eq, j);
  }

  /** The corrected map: every pair keeps its key and position and gets `callback(value, key)`. */
  function MapValues(items: PhpArray<Pair>, callback: (Value, Value) -> Value): (r: PhpArray<Pair>)
    ensures |r| == |items|
    ensures forall i | 0 <= i < |items| ::
      r[i] == Entry(items[i].key, Pair(items[i].value.key, callback(items[i].value.value, items[i].value.key)))
  {
    var r := seq(|items|, i requires 0 <= i < |items| =>
      Entry(items[i].key, Pair(items[i].value.key, callback(items[i].value.value, items[i].value.key))));
    assert forall i | 0 <= i < |items| :: r[i].key == items[i].key;
    r
  }

  /** After map, the value found for any key is the callback applied to the pair that was found before. */
  lemma MapLookup(items: PhpArray<Pair>, callback: (Value, Value) -> Value, eq: (Value, Value) -> bool, k: Value)
    ensures UniquePairs(items, eq) ==> UniquePairs(MapValues(items, callback), eq)
    ensures var p := Arr.FirstMatch(items, KeyIs(eq, k));
      Lookup(MapValues(items, callback), k, eq) ==
        if p.Some? then Some(callback(items[p.value].value.value, items[p.value].value.key)) else None
  {
    var r := MapValues(items, callback);
    Arr.FirstMatchAgree(r, items, KeyIs(eq, k), KeyIs(eq, k));
    assert forall i | 0 <= i < |items| :: Values(r)[i].key == Values(items)[i].key;
  }

  /**
   * map as written: the callback results form a list indexed 0 .. n-1, and each pair reads its new
   * value from that list at its own internal index; a missing index reads as null.
   */
  function MapAsWritten(items: PhpArray<Pair>, callback: (Value, Value) -> Value): (r: PhpArray<Pair>)
    ensures |r| == |items|
  {
    var results := Arr.Map(List(Values(items)), (p: Pair, k: Key) => callback(p.value, p.key));
    var r := seq(|items|, i requires 0 <= i < |items| =>
      Entry(items[i].key, Pair(items[i].value.key,
        match items[i].key
        case IntKey(n) => if 0 <= n < |results| then results[n] else Null
        case StrKey(_) => Null)));
    assert forall i | 0 <= i < |items| :: r[i].key == items[i].key;
    r
  }

  /** Without gaps in the internal indices, map as written is the corrected map. */
  lemma MapAsWrittenWithoutGaps(items: PhpArray<Pair>, callback: (Value, Value) -> Value)
    requires forall i | 0 <= i < |items| :: items[i].key == IntKey(i)
    ensures MapAsWritten(items, callback) == MapValues(items, callback)
  {
  }

  /** After a forget leaves the internal indices 0 and 2, map as written sets the second value to null. */
  lemma MapAsWrittenAfterGap()
    ensures var items: PhpArray<Pair> := [Entry(IntKey(0), Pair(String("a"), Int(1))), Entry(IntKey(2), Pair(String("c"), Int(3)))];
      var identity := (v: Value, k: Value) => v;
      MapAsWritten(items, identity)[1].value.value == Null &&
      MapValues(items, identity)[1].value.value == Int(3)
  {
    var items: PhpArray<Pair> := [Entry(IntKey(0), Pair(String("a"), Int(1))), Entry(IntKey(2), Pair(String("c"), Int(3)))];
    var identity := (v: Value, k: Value) => v;
    var results := Arr.Map(List(Values(items)), (p: Pair, k: Key) => identity(p.value, p.key));
    assert |results| == 2;
  }

  /**
   * How the constructor reads a record as written: `isset($pair['key'])` is false for a null key,
   * and the fallback `$pair[0]`, `$pair[1]` reads two missing offsets, so both become null.
   */
  function ReadPairAsWritten(p: Pair): (r: Pair)
    ensures p.key != Null ==> r == p
  {
    if p.key == Null then Pair(Null, Null) else p
  }

  /** A record with a null key loses its value when read by the constructor as written. */
  lemma NullKeyLosesValue()
    ensures ReadPairAsWritten(Pair(Null, Int(5))) == Pair(Null, Null)
  {
  }

  /** Construction keeps, for each key, the first pair offered with an equal key, and the keys distinct. */
  lemma {:induction false} ConstructedLookup(pairs: seq<Pair>, eq: (Value, Value) -> bool, j: nat)
    requires Equivalence(eq)
    requires j < |pairs| && forall i | 0 <= i < j :: !eq(pairs[j].key, pairs[i].key)
    ensures UniquePairs(AddEach([], pairs, KeyEq(eq)), eq)
    ensures Lookup(AddEach([], pairs, KeyEq(eq)), pairs[j].key, eq) == Some(pairs[j].value)
  {
    var empty: seq<Pair> := [];
    var stored := AddAll(empty, pairs, KeyEq(eq));
    assert AddEach([], pairs, KeyEq(eq)) == List(stored) by {
      assert List(empty) == [];
      AddEachOntoList(empty, pairs, KeyEq(eq));
    }
    assert UniquePairs(List(stored), eq) by {
      ValuesOfList(stored);
      AddAllDistinct(empty, pairs, KeyEq(eq));
    }
    assert pairs[j] in stored by {
      KeyEqEquivalence(eq);
      assert empty + pairs[..j] == pairs[..j];
      assert !Occurs(pairs[..j], pairs[j], KeyEq(eq)) by {
        forall i | 0 <= i < j
          ensures !KeyEq(eq)(pairs[j], pairs[..j][i])
        {
          assert pairs[..j][i] == pairs[i];
        }
      }
      AddAllFirstWins(empty, pairs, KeyEq(eq), j);
    }
    var t :| 0 <= t < |stored| && stored[t] == pairs[j];
    assert List(stored)[t].value == pairs[j];
    LookupUnique(List(stored), pairs[j].key, eq, t);
  }

  /** A map built from records holds the kept pairs in the order they were given. */
  lemma ConstructionOrder(init: seq<Pair>, eq: (Value, Value) -> bool)
    ensures Subsequence(Values(AddEach([], init, KeyEq(eq))), init)
  {
    ValuesOfAddEach([], init, KeyEq(eq));
    AddAllKeepsOrder([], init, KeyEq(eq));
    assert Values<Pair>([]) == [];
    assert AddAll([], init, KeyEq(eq))[0..] == AddAll([], init, KeyEq(eq));
  }

  class Map {
    var items: PhpArray<Pair>
    const eq: (Value, Value) -> bool

    ghost predicate Valid()
      reads this
    {
      Equivalence(eq) && UniquePairs(items, eq)
    }

    /** Puts every record of `init` in order (with the null-key record read as given). */
    constructor(init: seq<Pair>, eq: (Value, Value) -> bool)
      requires Equivalence(eq)
      ensures Valid() && this.eq == eq
      ensures items == AddEach([], init, KeyEq(eq))
    {
      this.eq := eq;
      items := [];
      new;
      var i := 0;
      while i < |init|
        invariant 0 <= i <= |init|
        invariant Valid() && this.eq == eq
        invariant items == AddEach([], init[..i], KeyEq(eq))
      {
        AddEachStep([], init, KeyEq(eq), i);
        var _ := Put(init[i].key, init[i].value);
        i := i + 1;
      }
      assert init[..|init|] == init;
    }

    /** from: a new map with every record of `pairs` put in order. */
    static method From(pairs: seq<Pair>, eq: (Value, Value) -> bool) returns (m: Map)
      requires Equivalence(eq)
      ensures fresh(m) && m.Valid() && m.eq == eq
      ensures m.items == AddEach([], pairs, KeyEq(eq))
    {
      m := new Map([], eq);
      var i := 0;
      while i < |pairs|
        invariant 0 <= i <= |pairs|
        invariant fresh(m) && m.Valid() && m.eq == eq
        invariant m.items == AddEach([], pairs[..i], KeyEq(eq))
      {
        AddEachStep([], pairs, KeyEq(eq), i);
        var _ := m.Put(pairs[i].key, pairs[i].value);
        i := i + 1;
      }
      assert pairs[..|pairs|] == pairs;
    }

    /** to_array: the pairs in order, reindexed from 0. */
    function ToArray(): (r: PhpArray<Pair>)
      reads this
      ensures |r| == |items|
      ensures forall i | 0 <= i < |r| :: r[i] == Entry(IntKey(i), items[i].value)
    {
      List(Values(items))
    }

    /** count: the number of pairs. */
    function Count(): (n: nat)
      reads this
      ensures n == |ToArray()|
    {
      |items|
    }

    /** offsetExists: some stored key equals `offset`. */
    method OffsetExists(offset: Value) returns (r: bool)
      ensures r <==> HasKeyEq(items, offset, eq)
      ensures r <==> Lookup(items, offset, eq).Some?
    {
      r := Arr.Has(items, KeyIs(eq, offset));
    }

    /** offsetGet: the value of the first pair whose key equals `offset`, or OutOfBounds. */
    method OffsetGet(offset: Value) returns (r: Result<Value, MapError>)
      ensures Lookup(items, offset, eq).Some? ==> r == Success(Lookup(items, offset, eq).value)
      ensures Lookup(items, offset, eq).None? ==> r == Failure(OutOfBounds(offset))
    {
      var pair := Arr.First(items, Some(KeyIs(eq, offset)));
      if pair.None? {
        return Failure(OutOfBounds(offset));
      }
      return Success(pair.value.value);
    }

    /** put: appends the pair unless a stored key equals `key`. */
    method Put(key: Value, value: Value) returns (self: Map)
      requires Valid()
      modifies this
      ensures Valid() && self == this
      ensures items == PutItems(old(items), key, value, eq)
    {
      PutShape(items, key, value, eq);
      PutKeepsUnique(items, key, value, eq);
      var present := OffsetExists(key);
      if !present {
        items := Push(items, Pair(key, value));
      }
      return this;
    }

    /** set: overwrites the value of the first pair with an equal key, or appends the pair. */
    method Set(key: Value, value: Value) returns (self: Map)
      requires Valid()
      modifies this
      ensures Valid() && self == this
      ensures items == SetItems(old(items), key, value, eq)
    {
      SetKeepsUnique(items, key, value, eq);
      var index := Arr.FirstKey(items, Some(KeyIs(eq, key)));
      if index.None? {
        items := Push(items, Pair(key, value));
      } else {
        FindAt(items, Arr.FirstMatch(items, KeyIs(eq, key)).value);
        items := Assign(items, index.value, Pair(Get(items, index.value).key, value));
      }
      return this;
    }

    /** swap: overwrites the value of the first pair with an equal key; never inserts. */
    method Swap(key: Value, value: Value) returns (self: Map)
      requires Valid()
      modifies this
      ensures Valid() && self == this
      ensures items == SwapItems(old(items), key, value, eq)
    {
      SetKeepsUnique(items, key, value, eq);
      var index := Arr.FirstKey(items, Some(KeyIs(eq, key)));
      if index.Some? {
        FindAt(items, Arr.FirstMatch(items, KeyIs(eq, key)).value);
        items := Assign(items, index.value, Pair(Get(items, index.value).key, value));
      }
      return this;
    }

    /** forget: drops every pair the condition holds for; the others keep their internal indices. */
    method Forget(condition: (Pair, Key) -> bool) returns (self: Map)
      requires Valid()
      modifies this
      ensures Valid() && self == this
      ensures items == Select(old(items), Not(condition))
    {
      SelectDistinct(items, Not(condition), KeyEq(eq));
      items := Arr.Forget(items, condition);
      return this;
    }

    /** map, corrected: each pair's value becomes `callback(value, key)`, matched by position. */
    method Map(callback: (Value, Value) -> Value) returns (self: Map)
      requires Valid()
      modifies this
      ensures Valid() && self == this
      ensures items == MapValues(old(items), callback)
    {
      var result := items;
      var i := 0;
      while i < |result|
        invariant 0 <= i <= |result| == |items|
        invariant forall j | 0 <= j < |items| :: result[j].key == items[j].key
        invariant forall j | 0 <= j < i :: result[j] == MapValues(items, callback)[j]
        invariant forall j | i <= j < |items| :: result[j] == items[j]
      {
        var item := result[i];
        var mapped := Pair(item.value.key, callback(item.value.value, item.value.key));
        assert Assign(result, item.key, mapped) == result[i := Entry(item.key, mapped)] by {
          FindAt(result, i);
        }
        result := Assign(result, item.key, mapped);
        i := i + 1;
      }
      MapLookup(items, callback, eq, Null);
      items := result;
      return this;
    }

    /** offsetSet: put. */
    method OffsetSet(offset: Value, value: Value)
      requires Valid()
      modifies this
      ensures Valid()
      ensures items == PutItems(old(items), offset, value, eq)
    {
      var _ := Put(offset, value);
    }

    /** offsetUnset: forgets every pair whose key equals `offset`. */
    method OffsetUnset(offset: Value)
      requires Valid()
      modifies this
      ensures Valid()
      ensures items == Select(old(items), Not(KeyIs(eq, offset)))
    {
      var _ := Forget(KeyIs(eq, offset));
    }
  }
}
