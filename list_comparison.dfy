/**
  `CompareLists`: splits a destination list into the elements added relative
  to a source list and the elements that also occur there, correlating the
  two lists on the `Id` member read through the runtime binder.
*/
module ListComparison {
  import opened Wrappers
  import opened Model

  /** `x.Id` on a `dynamic` element binds only when the element has an `Id` member. */
  predicate HasId(v: Value) {
    v.Obj? && "Id" in v.fields
  }

  function IdOf(v: Value): Value
    requires HasId(v)
  {
    v.fields["Id"]
  }

  predicate AllHaveIds(xs: seq<Value>) {
    forall i :: 0 <= i < |xs| ==> HasId(xs[i])
  }

  /** Some element of `xs` has identifier `id`. */
  predicate ContainsId(xs: seq<Value>, id: Value)
    requires AllHaveIds(xs)
  {
    exists i :: 0 <= i < |xs| && IdOf(xs[i]) == id
  }

  /** The identifiers of `xs`: `oldList.Select(x => x.Id)` as a set. */
  function KeySet(xs: seq<Value>): (keys: set<Value>)
    requires AllHaveIds(xs)
    ensures forall id :: id in keys <==> ContainsId(xs, id)
  {
    if xs == [] then {}
    else
      var rest := KeySet(xs[1..]);
      assert forall id :: ContainsId(xs, id) <==> id == IdOf(xs[0]) || ContainsId(xs[1..], id) by {
        forall id | ContainsId(xs, id) && id != IdOf(xs[0]) ensures ContainsId(xs[1..], id) {
          var i :| 0 <= i < |xs| && IdOf(xs[i]) == id;
          assert xs[1..][i - 1] == xs[i];
        }
        forall id | ContainsId(xs[1..], id) ensures ContainsId(xs, id) {
          var i :| 0 <= i < |xs[1..]| && IdOf(xs[1..][i]) == id;
          assert xs[i + 1] == xs[1..][i];
        }
      }
      {IdOf(xs[0])} + rest
  }

  /**
    `ExceptBy(keys, o => o.Id)`: the elements of `xs`, in order, whose
    identifier is neither in `seen` nor carried by an earlier element kept.
  */
  function ExceptBy(xs: seq<Value>, seen: set<Value>): (r: seq<Value>)
    requires AllHaveIds(xs)
    ensures |r| <= |xs|
    ensures forall x :: x in r ==> x in xs
  {
    if xs == [] then []
    else if IdOf(xs[0]) in seen then ExceptBy(xs[1..], seen)
    else [xs[0]] + ExceptBy(xs[1..], seen + {IdOf(xs[0])})
  }

  /** `Where(x => keys contains x.Id)`. */
  function Where(xs: seq<Value>, keys: set<Value>): (r: seq<Value>)
    requires AllHaveIds(xs)
    ensures |r| <= |xs|
    ensures forall x :: x in r ==> x in xs
  {
    if xs == [] then []
    else if IdOf(xs[0]) in keys then [xs[0]] + Where(xs[1..], keys)
    else Where(xs[1..], keys)
  }

  datatype Partition = Partition(added: seq<Value>, modified: seq<Value>)

  /**
    `CompareLists(oldList, newList)`. Evaluating the two lazy queries binds
    `Id` on every element of both lists, so a list holding an element without
    one makes the comparison fail.
  */
  function CompareLists(oldList: seq<Value>, newList: seq<Value>): (r: Result<Partition, Error>)
    ensures r.Success? <==> AllHaveIds(oldList) && AllHaveIds(newList)
  {
    if AllHaveIds(oldList) && AllHaveIds(newList) then
      var keys := KeySet(oldList);
      Success(Partition(ExceptBy(newList, keys), Where(newList, keys)))
    else
      Failure(RuntimeError)
  }

  /** `destinationArray.FirstOrDefault(x => x.Id == id)`. */
  function FirstWithId(xs: seq<Value>, id: Value): (r: Option<Value>)
    ensures r.Some? ==> r.value in xs && HasId(r.value) && IdOf(r.value) == id
    ensures r.None? ==> forall i :: 0 <= i < |xs| && HasId(xs[i]) ==> IdOf(xs[i]) != id
    ensures r.Some? ==>
      exists i :: 0 <= i < |xs| && xs[i] == r.value && forall j :: 0 <= j < i ==> !(HasId(xs[j]) && IdOf(xs[j]) == id)
  {
    if xs == [] then None
    else if HasId(xs[0]) && IdOf(xs[0]) == id then Some(xs[0])
    else
      var r := FirstWithId(xs[1..], id);
      assert forall i :: 1 <= i < |xs| ==> xs[i] == xs[1..][i - 1];
      assert r.Some? ==>
        exists i :: 0 <= i < |xs| && xs[i] == r.value && forall j :: 0 <= j < i ==> !(HasId(xs[j]) && IdOf(xs[j]) == id)
      by {
        if r.Some? {
          var i :| 0 <= i < |xs[1..]| && xs[1..][i] == r.value &&
            forall j :: 0 <= j < i ==> !(HasId(xs[1..][j]) && IdOf(xs[1..][j]) == id);
          assert xs[i + 1] == r.value;
          assert forall j :: 0 <= j < i + 1 ==> !(HasId(xs[j]) && IdOf(xs[j]) == id) by {
            forall j | 0 < j < i + 1 ensures !(HasId(xs[j]) && IdOf(xs[j]) == id) {
              assert xs[j] == xs[1..][j - 1];
            }
          }
        }
      }
      r
  }

  /** `a` is `b` with some elements removed, the rest kept in order. */
  predicate SubsequenceOf(a: seq<Value>, b: seq<Value>)
    decreases |b|
  {
    if a == [] then true
    else if b == [] then false
    else (a[0] == b[0] && SubsequenceOf(a[1..], b[1..])) || SubsequenceOf(a, b[1..])
  }

  // ---------------------------------------------------------------------------
  // Properties
  // ---------------------------------------------------------------------------

  lemma {:induction false} SubsequenceMembers(a: seq<Value>, b: seq<Value>)
    requires SubsequenceOf(a, b)
    ensures forall x :: x in a ==> x in b
    decreases |b|
  {
    if a != [] {
      if a[0] == b[0] && SubsequenceOf(a[1..], b[1..]) {
        SubsequenceMembers(a[1..], b[1..]);
        forall x | x in a ensures x in b {
          if x != a[0] {
            assert x in a[1..];
          }
        }
      } else {
        SubsequenceMembers(a, b[1..]);
      }
    }
  }

  /** Every element ExceptBy keeps comes from `xs`, in `xs` order, has a fresh identifier. */
  lemma {:induction false} ExceptByOrderedFresh(xs: seq<Value>, seen: set<Value>)
    requires AllHaveIds(xs)
    ensures SubsequenceOf(ExceptBy(xs, seen), xs)
    ensures AllHaveIds(ExceptBy(xs, seen))
    ensures forall k :: 0 <= k < |ExceptBy(xs, seen)| ==> IdOf(ExceptBy(xs, seen)[k]) !in seen
    decreases |xs|
  {
    if xs != [] {
      var r := ExceptBy(xs, seen);
      if IdOf(xs[0]) in seen {
        ExceptByOrderedFresh(xs[1..], seen);
        if r != [] {
          assert SubsequenceOf(r, xs[1..]);
        }
      } else {
        var seen' := seen + {IdOf(xs[0])};
        ExceptByOrderedFresh(xs[1..], seen');
        assert r == [xs[0]] + ExceptBy(xs[1..], seen');
        assert r[1..] == ExceptBy(xs[1..], seen');
        forall k | 1 <= k < |r| ensures HasId(r[k]) && IdOf(r[k]) !in seen {
          assert r[k] == ExceptBy(xs[1..], seen')[k - 1];
        }
      }
    }
  }

  /** ExceptBy keeps at most one element per identifier. */
  lemma {:induction false} ExceptByDistinct(xs: seq<Value>, seen: set<Value>)
    requires AllHaveIds(xs)
    ensures AllHaveIds(ExceptBy(xs, seen))
    ensures forall i, j :: 0 <= i < j < |ExceptBy(xs, seen)| ==>
      IdOf(ExceptBy(xs, seen)[i]) != IdOf(ExceptBy(xs, seen)[j])
    decreases |xs|
  {
    ExceptByOrderedFresh(xs, seen);
    if xs != [] {
      if IdOf(xs[0]) in seen {
        ExceptByDistinct(xs[1..], seen);
      } else {
        var seen' := seen + {IdOf(xs[0])};
        var rest := ExceptBy(xs[1..], seen');
        var r := ExceptBy(xs, seen);
        ExceptByDistinct(xs[1..], seen');
        ExceptByOrderedFresh(xs[1..], seen');
        assert r == [xs[0]] + rest;
        forall i, j | 0 <= i < j < |r| ensures IdOf(r[i]) != IdOf(r[j]) {
          assert r[j] == rest[j - 1];
          if i == 0 {
            assert IdOf(rest[j - 1]) !in seen';
          } else {
            assert r[i] == rest[i - 1];
          }
        }
      }
    }
  }

  /** Every identifier of `xs` outside `seen` is carried by some element ExceptBy keeps. */
  lemma {:induction false} ExceptByComplete(xs: seq<Value>, seen: set<Value>)
    requires AllHaveIds(xs)
    ensures AllHaveIds(ExceptBy(xs, seen))
    ensures forall i :: 0 <= i < |xs| && IdOf(xs[i]) !in seen ==>
      ContainsId(ExceptBy(xs, seen), IdOf(xs[i]))
    decreases |xs|
  {
    ExceptByOrderedFresh(xs, seen);
    if xs != [] {
      var r := ExceptBy(xs, seen);
      if IdOf(xs[0]) in seen {
        ExceptByComplete(xs[1..], seen);
        forall i | 0 <= i < |xs| && IdOf(xs[i]) !in seen ensures ContainsId(r, IdOf(xs[i])) {
          assert xs[i] == xs[1..][i - 1];
        }
      } else {
        var seen' := seen + {IdOf(xs[0])};
        var rest := ExceptBy(xs[1..], seen');
        ExceptByComplete(xs[1..], seen');
        ExceptByOrderedFresh(xs[1..], seen');
        assert r == [xs[0]] + rest;
        forall i | 0 <= i < |xs| && IdOf(xs[i]) !in seen ensures ContainsId(r, IdOf(xs[i])) {
          if IdOf(xs[i]) == IdOf(xs[0]) {
            assert IdOf(r[0]) == IdOf(xs[i]);
          } else {
            assert xs[i] == xs[1..][i - 1];
            var k :| 0 <= k < |rest| && IdOf(rest[k]) == IdOf(xs[i]);
            assert r[k + 1] == rest[k];
          }
        }
      }
    }
  }

  /** No element before position `i` of `xs` carries the identifier of `xs[i]`. */
  predicate FirstOfItsId(xs: seq<Value>, i: nat)
    requires AllHaveIds(xs) && i < |xs|
  {
    forall j :: 0 <= j < i ==> IdOf(xs[j]) != IdOf(xs[i])
  }

  lemma FirstOfItsIdShift(xs: seq<Value>, i: nat)
    requires AllHaveIds(xs) && i + 1 < |xs|
    requires FirstOfItsId(xs[1..], i) && IdOf(xs[0]) != IdOf(xs[i + 1])
    ensures FirstOfItsId(xs, i + 1)
  {
    forall j | 0 < j < i + 1 ensures IdOf(xs[j]) != IdOf(xs[i + 1]) {
      assert xs[j] == xs[1..][j - 1];
    }
  }

  /** Each element ExceptBy keeps is the first element of `xs` with its identifier. */
  lemma {:induction false} ExceptByKeepsFirst(xs: seq<Value>, seen: set<Value>)
    requires AllHaveIds(xs)
    ensures forall k :: 0 <= k < |ExceptBy(xs, seen)| ==>
      exists i :: 0 <= i < |xs| && ExceptBy(xs, seen)[k] == xs[i] && FirstOfItsId(xs, i)
    decreases |xs|
  {
    if xs == [] {
      assert ExceptBy(xs, seen) == [];
    } else {
      var r := ExceptBy(xs, seen);
      ExceptByOrderedFresh(xs[1..], seen);
      ExceptByOrderedFresh(xs[1..], seen + {IdOf(xs[0])});
      if IdOf(xs[0]) in seen {
        ExceptByKeepsFirst(xs[1..], seen);
        assert r == ExceptBy(xs[1..], seen);
        forall k | 0 <= k < |r|
          ensures exists i :: 0 <= i < |xs| && r[k] == xs[i] && FirstOfItsId(xs, i)
        {
          var i :| 0 <= i < |xs[1..]| && r[k] == xs[1..][i] && FirstOfItsId(xs[1..], i);
          assert IdOf(r[k]) !in seen;
          assert xs[i + 1] == xs[1..][i];
          FirstOfItsIdShift(xs, i);
        }
      } else {
        var seen' := seen + {IdOf(xs[0])};
        var rest := ExceptBy(xs[1..], seen');
        ExceptByKeepsFirst(xs[1..], seen');
        assert r == [xs[0]] + rest;
        forall k | 0 <= k < |r|
          ensures exists i :: 0 <= i < |xs| && r[k] == xs[i] && FirstOfItsId(xs, i)
        {
          if k == 0 {
            assert r[0] == xs[0] && FirstOfItsId(xs, 0);
          } else {
            assert r[k] == rest[k - 1];
            var i :| 0 <= i < |xs[1..]| && rest[k - 1] == xs[1..][i] && FirstOfItsId(xs[1..], i);
            assert IdOf(rest[k - 1]) !in seen';
            assert xs[i + 1] == xs[1..][i];
            FirstOfItsIdShift(xs, i);
          }
        }
      }
    }
  }

  lemma FirstOfItsIdUnshift(xs: seq<Value>, i: nat)
    requires AllHaveIds(xs) && 0 < i < |xs| && FirstOfItsId(xs, i)
    ensures FirstOfItsId(xs[1..], i - 1)
  {
    forall j | 0 <= j < i - 1 ensures IdOf(xs[1..][j]) != IdOf(xs[1..][i - 1]) {
      assert xs[1..][j] == xs[j + 1] && xs[1..][i - 1] == xs[i];
    }
  }

  /**
    The identifiers of `r` appear in the order of their first occurrence in
    `xs`: an earlier element of `r` has its identifier first occur earlier.
  */
  predicate InFirstOccurrenceOrder(r: seq<Value>, xs: seq<Value>)
    requires AllHaveIds(r) && AllHaveIds(xs)
  {
    forall k, l, i, j ::
      (0 <= k < l < |r| && 0 <= i < |xs| && 0 <= j < |xs| && FirstOfItsId(xs, i) && FirstOfItsId(xs, j) &&
       IdOf(xs[i]) == IdOf(r[k]) && IdOf(xs[j]) == IdOf(r[l])) ==> i < j
  }

  /** An order on `xs[1..]` is an order on `xs` when `xs[0]` carries none of the identifiers. */
  lemma OrderSkipsHead(r: seq<Value>, xs: seq<Value>)
    requires AllHaveIds(r) && AllHaveIds(xs) && xs != []
    requires InFirstOccurrenceOrder(r, xs[1..])
    requires forall k :: 0 <= k < |r| ==> IdOf(r[k]) != IdOf(xs[0])
    ensures InFirstOccurrenceOrder(r, xs)
  {
    var tail := xs[1..];
    forall k, l, i, j | (0 <= k < l < |r| && 0 <= i < |xs| && 0 <= j < |xs| &&
      FirstOfItsId(xs, i) && FirstOfItsId(xs, j) && IdOf(xs[i]) == IdOf(r[k]) && IdOf(xs[j]) == IdOf(r[l]))
      ensures i < j
    {
      FirstOfItsIdUnshift(xs, i);
      FirstOfItsIdUnshift(xs, j);
      assert tail[i - 1] == xs[i] && tail[j - 1] == xs[j];
    }
  }

  /** Putting `xs[0]` in front keeps the order, when the rest avoids its identifier. */
  lemma OrderKeepsHead(rest: seq<Value>, xs: seq<Value>)
    requires AllHaveIds(rest) && AllHaveIds(xs) && xs != []
    requires InFirstOccurrenceOrder(rest, xs)
    requires forall k :: 0 <= k < |rest| ==> IdOf(rest[k]) != IdOf(xs[0])
    ensures AllHaveIds([xs[0]] + rest)
    ensures InFirstOccurrenceOrder([xs[0]] + rest, xs)
  {
    var r := [xs[0]] + rest;
    assert AllHaveIds(r) by {
      forall k | 0 <= k < |r| ensures HasId(r[k]) {
        if k > 0 {
          assert r[k] == rest[k - 1];
        }
      }
    }
    forall k, l, i, j | (0 <= k < l < |r| && 0 <= i < |xs| && 0 <= j < |xs| &&
      FirstOfItsId(xs, i) && FirstOfItsId(xs, j) && IdOf(xs[i]) == IdOf(r[k]) && IdOf(xs[j]) == IdOf(r[l]))
      ensures i < j
    {
      assert r[l] == rest[l - 1];
      if k == 0 {
        assert i == 0;
      } else {
        assert r[k] == rest[k - 1];
      }
    }
  }

  /** ExceptBy keeps identifiers in the order in which they first occur in `xs`. */
  lemma {:induction false} ExceptByFirstOccurrenceOrder(xs: seq<Value>, seen: set<Value>)
    requires AllHaveIds(xs)
    ensures AllHaveIds(ExceptBy(xs, seen))
    ensures InFirstOccurrenceOrder(ExceptBy(xs, seen), xs)
    decreases |xs|
  {
    ExceptByOrderedFresh(xs, seen);
    if xs != [] {
      var tail := xs[1..];
      if IdOf(xs[0]) in seen {
        ExceptByFirstOccurrenceOrder(tail, seen);
        ExceptByOrderedFresh(tail, seen);
        OrderSkipsHead(ExceptBy(tail, seen), xs);
      } else {
        var seen' := seen + {IdOf(xs[0])};
        var rest := ExceptBy(tail, seen');
        ExceptByFirstOccurrenceOrder(tail, seen');
        ExceptByOrderedFresh(tail, seen');
        OrderSkipsHead(rest, xs);
        OrderKeepsHead(rest, xs);
        assert ExceptBy(xs, seen) == [xs[0]] + rest;
      }
    }
  }

  /**
    Where keeps, in order, exactly the elements whose identifier is in `keys`,
    each as many times as it occurs in `xs`.
  */
  lemma {:induction false} WhereFilters(xs: seq<Value>, keys: set<Value>)
    requires AllHaveIds(xs)
    ensures SubsequenceOf(Where(xs, keys), xs)
    ensures forall x :: x in Where(xs, keys) <==> x in xs && HasId(x) && IdOf(x) in keys
    ensures forall x :: multiset(Where(xs, keys))[x] == if HasId(x) && IdOf(x) in keys then multiset(xs)[x] else 0
    decreases |xs|
  {
    if xs != [] {
      WhereFilters(xs[1..], keys);
      var rest := Where(xs[1..], keys);
      assert xs == [xs[0]] + xs[1..];
      assert multiset(xs) == multiset{xs[0]} + multiset(xs[1..]);
      if IdOf(xs[0]) in keys {
        assert Where(xs, keys) == [xs[0]] + rest;
        assert Where(xs, keys)[1..] == rest;
        assert multiset(Where(xs, keys)) == multiset{xs[0]} + multiset(rest);
      } else {
        if rest != [] {
          assert SubsequenceOf(rest, xs[1..]);
        }
      }
    }
  }

  /**
    The partition `CompareLists` computes. Added: the destination elements
    whose `Id` does not occur in the source, in destination order, one per
    `Id`, each the first destination element with that `Id`, ordered by
    where that `Id` first occurs. Modified: every
    destination element whose `Id` does occur in the source, in destination
    order, each as many times as the destination holds it. Every destination
    element lands in one part or has its `Id` represented in Added.
  */
  lemma CompareListsPartition(oldList: seq<Value>, newList: seq<Value>)
    requires AllHaveIds(oldList) && AllHaveIds(newList)
    ensures CompareLists(oldList, newList).Success?
    ensures var p := CompareLists(oldList, newList).value;
      && SubsequenceOf(p.added, newList)
      && SubsequenceOf(p.modified, newList)
      && AllHaveIds(p.added)
      && (forall k :: 0 <= k < |p.added| ==> !ContainsId(oldList, IdOf(p.added[k])))
      && (forall i, j :: 0 <= i < j < |p.added| ==> IdOf(p.added[i]) != IdOf(p.added[j]))
      && (forall k :: 0 <= k < |p.added| ==>
            exists i :: 0 <= i < |newList| && p.added[k] == newList[i] && FirstOfItsId(newList, i))
      && InFirstOccurrenceOrder(p.added, newList)
      && (forall i :: 0 <= i < |newList| && !ContainsId(oldList, IdOf(newList[i])) ==>
            ContainsId(p.added, IdOf(newList[i])))
      && (forall x :: x in p.modified <==> x in newList && ContainsId(oldList, IdOf(x)))
      && (forall x :: multiset(p.modified)[x] ==
            if HasId(x) && ContainsId(oldList, IdOf(x)) then multiset(newList)[x] else 0)
  {
    var keys := KeySet(oldList);
    ExceptByOrderedFresh(newList, keys);
    ExceptByDistinct(newList, keys);
    ExceptByComplete(newList, keys);
    ExceptByKeepsFirst(newList, keys);
    ExceptByFirstOccurrenceOrder(newList, keys);
    WhereFilters(newList, keys);
  }

  /**
    A source element whose `Id` no destination element carries appears in
    neither part: removals are never represented.
  */
  lemma RemovalsNotSurfaced(oldList: seq<Value>, newList: seq<Value>, s: Value)
    requires AllHaveIds(oldList) && AllHaveIds(newList)
    requires s in oldList && !ContainsId(newList, IdOf(s))
    ensures CompareLists(oldList, newList).Success?
    ensures var p := CompareLists(oldList, newList).value;
      (forall x :: x in p.added ==> HasId(x) && IdOf(x) != IdOf(s)) &&
      (forall x :: x in p.modified ==> HasId(x) && IdOf(x) != IdOf(s))
  {
    var p := CompareLists(oldList, newList).value;
    CompareListsPartition(oldList, newList);
    SubsequenceMembers(p.added, newList);
    SubsequenceMembers(p.modified, newList);
    forall x | x in p.added + p.modified ensures HasId(x) && IdOf(x) != IdOf(s) {
      assert x in newList;
      var i :| 0 <= i < |newList| && newList[i] == x;
    }
  }

  /**
    When the identifiers of `xs` are unique, looking an element up by its own
    identifier finds that very element.
  */
  lemma {:induction false} FirstWithIdFindsSelf(xs: seq<Value>, i: nat)
    requires AllHaveIds(xs) && i < |xs|
    requires forall j, k :: 0 <= j < k < |xs| ==> IdOf(xs[j]) != IdOf(xs[k])
    ensures FirstWithId(xs, IdOf(xs[i])) == Some(xs[i])
    decreases i
  {
    if i > 0 {
      assert IdOf(xs[0]) != IdOf(xs[i]);
      assert xs[1..][i - 1] == xs[i];
      FirstWithIdFindsSelf(xs[1..], i - 1);
    }
  }

  /** Any element that carries an identifier is found when looked up by it. */
  lemma {:induction false} FirstWithIdFindsMember(xs: seq<Value>, x: Value)
    requires x in xs && HasId(x)
    ensures FirstWithId(xs, IdOf(x)).Some?
  {
    var i :| 0 <= i < |xs| && xs[i] == x;
  }
}
