/**
 * The overridable equality of Map and Set (`are_equal`), taken as a parameter `eq` assumed to be
 * an equivalence, and the "append unless an equal element is present" fold both containers use.
 */
module Equality {
  import opened Php

  /** `eq` is reflexive, symmetric and transitive. */
  ghost predicate Equivalence<T(!new)>(eq: (T, T) -> bool) {
    && (forall x :: eq(x, x))
    && (forall x, y :: eq(x, y) ==> eq(y, x))
    && (forall x, y, z :: eq(x, y) && eq(y, z) ==> eq(x, z))
  }

  /** Some element of `s` is equal to `v` (the `has` test run before every insertion). */
  predicate Occurs<T>(s: seq<T>, v: T, eq: (T, T) -> bool) {
    exists i | 0 <= i < |s| :: eq(v, s[i])
  }

  /** No two elements of `s` are equal. */
  predicate Distinct<T>(s: seq<T>, eq: (T, T) -> bool) {
    forall i, j | 0 <= i < j < |s| :: !eq(s[j], s[i])
  }

  /** Appends each of `vs` in turn unless an equal element is already there. */
  function AddAll<T>(s: seq<T>, vs: seq<T>, eq: (T, T) -> bool): (r: seq<T>)
    ensures |s| <= |r| <= |s| + |vs|
    ensures r[..|s|] == s
    ensures forall k | |s| <= k < |r| :: r[k] in vs
    decreases |vs|
  {
    if vs == [] then s
    else
      var prev := AddAll(s, vs[..|vs| - 1], eq);
      var v := vs[|vs| - 1];
      assert forall k | |s| <= k < |prev| :: prev[k] in vs[..|vs| - 1] && prev[k] in vs;
      if Occurs(prev, v, eq) then prev else prev + [v]
  }

  lemma OccursAppend<T>(s: seq<T>, v: T, x: T, eq: (T, T) -> bool)
    ensures Occurs(s + [v], x, eq) <==> Occurs(s, x, eq) || eq(x, v)
  {
    if Occurs(s + [v], x, eq) {
      var i :| 0 <= i < |s| + 1 && eq(x, (s + [v])[i]);
      if i < |s| {
        assert eq(x, s[i]);
      }
    }
    if Occurs(s, x, eq) {
      var i :| 0 <= i < |s| && eq(x, s[i]);
      assert eq(x, (s + [v])[i]);
    }
    if eq(x, v) {
      assert eq(x, (s + [v])[|s|]);
    }
  }

  /** Adding keeps exactly the equivalence classes of everything offered: nothing is lost, nothing new appears. */
  lemma {:induction false} AddAllClasses<T(!new)>(s: seq<T>, vs: seq<T>, eq: (T, T) -> bool, x: T)
    requires Equivalence(eq)
    ensures Occurs(AddAll(s, vs, eq), x, eq) <==> Occurs(s + vs, x, eq)
    decreases |vs|
  {
    if vs == [] {
      assert s + vs == s;
    } else {
      var n := |vs| - 1;
      var prev := AddAll(s, vs[..n], eq);
      var v := vs[n];
      AddAllClasses(s, vs[..n], eq, x);
      assert s + vs == (s + vs[..n]) + [v];
      OccursAppend(s + vs[..n], v, x, eq);
      if Occurs(prev, v, eq) {
        if eq(x, v) {
          var i :| 0 <= i < |prev| && eq(v, prev[i]);
          assert eq(x, prev[i]);
        }
      } else {
        OccursAppend(prev, v, x, eq);
      }
    }
  }

  /** Adding never creates two equal elements. */
  lemma {:induction false} AddAllDistinct<T>(s: seq<T>, vs: seq<T>, eq: (T, T) -> bool)
    requires Distinct(s, eq)
    ensures Distinct(AddAll(s, vs, eq), eq)
    decreases |vs|
  {
    if vs != [] {
      AddAllDistinct(s, vs[..|vs| - 1], eq);
    }
  }

  /** The first of an equivalence class among the offered elements is the one that is kept. */
  lemma {:induction false} AddAllFirstWins<T(!new)>(s: seq<T>, vs: seq<T>, eq: (T, T) -> bool, j: nat)
    requires Equivalence(eq)
    requires j < |vs| && !Occurs(s + vs[..j], vs[j], eq)
    ensures vs[j] in AddAll(s, vs, eq)
    decreases |vs|
  {
    var n := |vs| - 1;
    var prev := AddAll(s, vs[..n], eq);
    if j == n {
      AddAllClasses(s, vs[..n], eq, vs[j]);
      assert AddAll(s, vs, eq) == prev + [vs[j]];
    } else {
      assert vs[..n][..j] == vs[..j];
      AddAllFirstWins(s, vs[..n], eq, j);
      assert vs[j] in prev;
    }
  }

  /** Offering only elements already present changes nothing. */
  lemma {:induction false} AddAllPresent<T>(s: seq<T>, vs: seq<T>, eq: (T, T) -> bool)
    requires forall i | 0 <= i < |vs| :: Occurs(s, vs[i], eq)
    ensures AddAll(s, vs, eq) == s
    decreases |vs|
  {
    if vs != [] {
      AddAllPresent(s, vs[..|vs| - 1], eq);
    }
  }

  /** Offering one more element: it is appended exactly when no equal element is there yet. */
  lemma AddAllSnoc<T>(s: seq<T>, vs: seq<T>, v: T, eq: (T, T) -> bool)
    ensures AddAll(s, vs + [v], eq) ==
      if Occurs(AddAll(s, vs, eq), v, eq) then AddAll(s, vs, eq) else AddAll(s, vs, eq) + [v]
  {
    assert (vs + [v])[..|vs|] == vs;
  }

  /** The appended elements keep the order in which they were offered. */
  lemma {:induction false} AddAllKeepsOrder<T>(s: seq<T>, vs: seq<T>, eq: (T, T) -> bool)
    ensures Subsequence(AddAll(s, vs, eq)[|s|..], vs)
    decreases |vs|
  {
    if vs != [] {
      var n := |vs| - 1;
      var prev := AddAll(s, vs[..n], eq);
      AddAllKeepsOrder(s, vs[..n], eq);
      var added := AddAll(s, vs, eq)[|s|..];
      if Occurs(prev, vs[n], eq) {
        assert added == prev[|s|..];
      } else {
        assert added == prev[|s|..] + [vs[n]];
        assert added[..|added| - 1] == prev[|s|..];
      }
    }
  }

  /** The same fold on a PHP array: each new element is appended with `$items[] = $value`. */
  function AddEach<T>(a: PhpArray<T>, vs: seq<T>, eq: (T, T) -> bool): (r: PhpArray<T>)
    ensures a <= r
    decreases |vs|
  {
    if vs == [] then a
    else
      var prev := AddEach(a, vs[..|vs| - 1], eq);
      var v := vs[|vs| - 1];
      if Occurs(Values(prev), v, eq) then prev else Push(prev, v)
  }

  /** The values of the array fold are the sequence fold of the values. */
  lemma {:induction false} ValuesOfAddEach<T>(a: PhpArray<T>, vs: seq<T>, eq: (T, T) -> bool)
    ensures Values(AddEach(a, vs, eq)) == AddAll(Values(a), vs, eq)
    decreases |vs|
  {
    if vs != [] {
      var n := |vs| - 1;
      ValuesOfAddEach(a, vs[..n], eq);
      ValuesOfAddEachStep(AddEach(a, vs[..n], eq), vs[n], eq);
    }
  }

  /** One step of both folds: the values of the array after offering `v` are the sequence after offering it. */
  lemma ValuesOfAddEachStep<T>(prev: PhpArray<T>, v: T, eq: (T, T) -> bool)
    ensures Values(if Occurs(Values(prev), v, eq) then prev else Push(prev, v)) ==
      if Occurs(Values(prev), v, eq) then Values(prev) else Values(prev) + [v]
  {
    if !Occurs(Values(prev), v, eq) {
      assert Values(Push(prev, v)) == Values(prev) + [v];
    }
  }

  /** Starting from a list, the array fold is a list again: keys keep counting up from 0. */
  lemma {:induction false} AddEachOntoList<T>(xs: seq<T>, vs: seq<T>, eq: (T, T) -> bool)
    ensures AddEach(List(xs), vs, eq) == List(AddAll(xs, vs, eq))
    decreases |vs|
  {
    if vs != [] {
      var n := |vs| - 1;
      AddEachOntoList(xs, vs[..n], eq);
      var prev := AddAll(xs, vs[..n], eq);
      ValuesOfList(prev);
      if !Occurs(prev, vs[n], eq) {
        PushOntoList(prev, vs[n]);
      }
    }
  }

  /** Offering one more element is offering it to the result so far. */
  lemma AddEachStep<T>(a: PhpArray<T>, vs: seq<T>, eq: (T, T) -> bool, i: nat)
    requires i < |vs|
    ensures AddEach(a, vs[..i + 1], eq) == AddEach(AddEach(a, vs[..i], eq), [vs[i]], eq)
  {
    assert vs[..i + 1][..i] == vs[..i];
    assert [vs[i]][..0] == [];
  }

  /** Offering a single element: appended exactly when no equal element is present. */
  lemma AddEachOne<T>(a: PhpArray<T>, v: T, eq: (T, T) -> bool)
    ensures AddEach(a, [v], eq) == if Occurs(Values(a), v, eq) then a else Push(a, v)
  {
    assert [v][..0] == [];
  }

  /** Some value of the array is equal to `v`, stated on the entries. */
  lemma OccursInValues<T>(a: seq<Entry<T>>, v: T, eq: (T, T) -> bool)
    ensures Occurs(Values(a), v, eq) <==> exists i | 0 <= i < |a| :: eq(v, a[i].value)
  {
    assert forall i | 0 <= i < |a| :: Values(a)[i] == a[i].value;
  }

  /** Selecting entries keeps the values distinct. */
  lemma {:induction false} SelectDistinct<T>(a: PhpArray<T>, keep: (T, Key) -> bool, eq: (T, T) -> bool)
    requires Distinct(Values(a), eq)
    ensures Distinct(Values(Select(a, keep)), eq)
    decreases |a|
  {
    if a != [] {
      var n := |a| - 1;
      var init: PhpArray<T> := a[..n];
      assert forall i | 0 <= i < n :: Values(init)[i] == Values(a)[i];
      SelectDistinct(init, keep, eq);
      var rest := Select(init, keep);
      if keep(a[n].value, a[n].key) {
        assert Select(a, keep) == rest + [a[n]];
        assert forall t | 0 <= t < n :: !eq(a[n].value, init[t].value) by {
          forall t | 0 <= t < n
            ensures !eq(a[n].value, init[t].value)
          {
            assert Values(a)[t] == init[t].value && Values(a)[n] == a[n].value;
          }
        }
        UnequalToSelected(init, a[n].value, keep, eq);
        DistinctSnoc(rest, a[n], eq);
      } else {
        assert Select(a, keep) == rest;
      }
    }
  }

  /** A value equal to no value of the array is equal to none it selects. */
  lemma UnequalToSelected<T>(a: PhpArray<T>, x: T, keep: (T, Key) -> bool, eq: (T, T) -> bool)
    requires forall t | 0 <= t < |a| :: !eq(x, a[t].value)
    ensures forall j | 0 <= j < |Select(a, keep)| :: !eq(x, Select(a, keep)[j].value)
  {
    var rest := Select(a, keep);
    forall j | 0 <= j < |rest|
      ensures !eq(x, rest[j].value)
    {
      assert rest[j] in a;
    }
  }

  /** An entry whose value equals none of the array's keeps the values distinct when appended. */
  lemma DistinctSnoc<T>(rest: seq<Entry<T>>, e: Entry<T>, eq: (T, T) -> bool)
    requires Distinct(Values(rest), eq)
    requires forall j | 0 <= j < |rest| :: !eq(e.value, rest[j].value)
    ensures Distinct(Values(rest + [e]), eq)
  {
    var r := rest + [e];
    assert forall j | 0 <= j < |rest| :: Values(r)[j] == Values(rest)[j];
  }

  /** Removing one entry keeps the values distinct. */
  lemma RemoveAtDistinct<T>(a: PhpArray<T>, p: nat, eq: (T, T) -> bool)
    requires p < |a| && Distinct(Values(a), eq)
    ensures Distinct(Values(RemoveAt(a, p)), eq)
  {
    var r := RemoveAt(a, p);
    assert forall i | 0 <= i < |r| :: Values(r)[i] == Values(a)[if i < p then i else i + 1];
  }
}
