/**
 * The small data helpers of kickshaws: picking out the dictionaries of a list
 * that hold a given value under a given key (`select`, `select_indices`), and
 * building a name-to-index enumeration (`enum`).
 */
module DataOps {
  import opened Wrappers
  import opened PyValues

  /** A Python dictionary with scalar keys, which never holds two keys that are `==`. */
  type Dict = m: map<Scalar, PyValue> | IsDict(m) witness map[]

  /** `mp.get(k)`: the value under the key that is `==` to `k` (an ASCII `str`
      finds the equal `unicode` key and the other way round), or `None` when
      there is no such key. */
  function Get(mp: Dict, k: Scalar): (v: PyValue)
    ensures forall key :: key in mp && Equal(key, k) ==> v == mp[key]
    ensures (forall key :: key in mp ==> !Equal(key, k)) ==> v == NoneValue
  {
    match Lookup(mp, k)
    case Some(x) => x
    case None => NoneValue
  }

  /** The filter both selections share: `mp.get(k) == v`. */
  predicate Matches(mp: Dict, k: Scalar, v: PyValue) {
    Equal(Get(mp, k), v)
  }

  /** `select(mps, k, v)`: the dictionaries that hold `v` under `k`, in list order. */
  function Select(mps: seq<Dict>, k: Scalar, v: PyValue): (r: seq<Dict>)
    ensures |r| <= |mps|
    ensures forall j :: 0 <= j < |r| ==> Matches(r[j], k, v)
    decreases |mps|
  {
    if mps == [] then []
    else
      var last := mps[|mps| - 1];
      Select(mps[..|mps| - 1], k, v) + (if Matches(last, k, v) then [last] else [])
  }

  /** `select_indices(mps, k, v)`: the positions of those dictionaries. */
  function SelectIndices(mps: seq<Dict>, k: Scalar, v: PyValue): (r: seq<nat>)
    ensures forall j :: 0 <= j < |r| ==> r[j] < |mps| && Matches(mps[r[j]], k, v)
    ensures forall a, b :: 0 <= a < b < |r| ==> r[a] < r[b]
    ensures forall i :: 0 <= i < |mps| && Matches(mps[i], k, v) ==> i in r
    decreases |mps|
  {
    if mps == [] then []
    else
      var n := |mps| - 1;
      var init := mps[..n];
      var r0 := SelectIndices(init, k, v);
      assert forall i :: 0 <= i < n ==> init[i] == mps[i];
      r0 + (if Matches(mps[n], k, v) then [n] else [])
  }

  /** The two selections agree: `select` gives exactly the dictionaries found at
      the positions `select_indices` gives, in the same order. */
  lemma {:induction false} SelectAtIndices(mps: seq<Dict>, k: Scalar, v: PyValue)
    ensures |Select(mps, k, v)| == |SelectIndices(mps, k, v)|
    ensures forall j :: 0 <= j < |SelectIndices(mps, k, v)| ==>
      Select(mps, k, v)[j] == mps[SelectIndices(mps, k, v)[j]]
    decreases |mps|
  {
    if mps != [] {
      var n := |mps| - 1;
      var init := mps[..n];
      var r0, idx0 := Select(init, k, v), SelectIndices(init, k, v);
      var tail := if Matches(mps[n], k, v) then [mps[n]] else [];
      var tailIdx := if Matches(mps[n], k, v) then [n] else [];
      assert Select(mps, k, v) == r0 + tail;
      assert SelectIndices(mps, k, v) == idx0 + tailIdx;
      SelectAtIndices(init, k, v);
      forall j | 0 <= j < |idx0|
        ensures (r0 + tail)[j] == mps[(idx0 + tailIdx)[j]]
      {
        assert idx0[j] < n;
        assert init[idx0[j]] == mps[idx0[j]];
      }
    }
  }

  /** A dictionary is selected exactly when it matches, so nothing is lost and
      nothing foreign is added. */
  lemma SelectMembership(mps: seq<Dict>, k: Scalar, v: PyValue, mp: Dict)
    ensures mp in Select(mps, k, v) <==> mp in mps && Matches(mp, k, v)
  {
    SelectAtIndices(mps, k, v);
    var r := Select(mps, k, v);
    var idx := SelectIndices(mps, k, v);
    if mp in mps && Matches(mp, k, v) {
      var i :| 0 <= i < |mps| && mps[i] == mp;
      var j :| 0 <= j < |idx| && idx[j] == i;
      assert r[j] == mp;
    }
    if mp in r {
      var j :| 0 <= j < |r| && r[j] == mp;
      assert mps[idx[j]] == mp;
    }
  }

  /** `select(mps, k, None)` picks the dictionaries that lack `k` altogether,
      since `get` answers `None` for a missing key. */
  lemma MissingKeyMatchesNone(mps: seq<Dict>, k: Scalar, mp: Dict)
    requires mp in mps && forall key :: key in mp ==> !Equal(key, k)
    ensures mp in Select(mps, k, NoneValue)
  {
    SelectMembership(mps, k, NoneValue, mp);
  }

  /** A dictionary is selected when some key is `==` to `k` and holds `v`,
      whether that key is spelt as `str` or as `unicode`. */
  lemma EqualKeyMatches(mps: seq<Dict>, k: Scalar, v: PyValue, mp: Dict, key: Scalar)
    requires mp in mps && key in mp && Equal(key, k) && Equal(mp[key], v)
    ensures mp in Select(mps, k, v)
  {
    SelectMembership(mps, k, v, mp);
  }

  /** `enum(*items)`: the attributes of the class it returns, each name mapped to
      its position. `dict(zip(...))` assigns left to right, and assigning to a
      key `==` to one already present keeps that key and replaces its value:
      a repeated name keeps its last position, under its first spelling. */
  function Enum(items: seq<Scalar>): (e: map<Scalar, nat>)
    ensures IsDict(e)
    ensures forall x :: x in e ==> e[x] < |items|
    decreases |items|
  {
    if items == [] then map[]
    else
      var n := |items| - 1;
      var init := Enum(items[..n]);
      init[KeyFor(init, items[n]) := n]
  }

  /** The key under which assigning `x` lands in the dictionary `m`: the key
      already present that is `==` to `x`, or else `x` itself. */
  function KeyFor<V>(m: map<Scalar, V>, x: Scalar): (k: Scalar)
    requires IsDict(m)
    ensures Equal(x, k)
    ensures forall a :: a in m && Equal(x, a) ==> a == k
    ensures k !in m ==> forall a :: a in m ==> !Equal(a, k) && !Equal(k, a)
  {
    KeysEqualTo(x);
    EqualScalars(x, x);
    var k := if x !in m && Twin(x) in m then Twin(x) else x;
    assert forall a :: a in m && Equal(x, a) ==> a == k by {
      forall a | a in m && Equal(x, a) ensures a == k {
        EqualScalars(a, x);
      }
    }
    assert k !in m ==> forall b :: b in m ==> !Equal(b, k) && !Equal(k, b) by {
      forall b | b in m && k !in m ensures !Equal(b, k) && !Equal(k, b) {
        EqualScalars(b, x);
        EqualScalars(k, b);
      }
    }
    k
  }

  /** Every name of the enumeration is one of the items, and every item has
      a name: itself or its other spelling. */
  lemma {:induction false} EnumNames(items: seq<Scalar>)
    ensures forall x :: x in Enum(items) ==> x in items
    ensures forall i :: 0 <= i < |items| ==> items[i] in Enum(items) || Twin(items[i]) in Enum(items)
    decreases |items|
  {
    if items != [] {
      var n := |items| - 1;
      var init := items[..n];
      EnumNames(init);
      assert forall i :: 0 <= i < n ==> init[i] == items[i];
      assert items == init + [items[n]];
      var e := Enum(items);
      forall i | 0 <= i < |items|
        ensures items[i] in e || Twin(items[i]) in e
      {
        if i < n {
          assert init[i] in Enum(init) || Twin(init[i]) in Enum(init);
        }
      }
    }
  }

  /** Each name stands for a position holding an item `==` to it. */
  lemma {:induction false} EnumHolds(items: seq<Scalar>)
    ensures forall x :: x in Enum(items) ==> Equal(items[Enum(items)[x]], x)
    decreases |items|
  {
    if items != [] {
      var n := |items| - 1;
      var init := items[..n];
      EnumHolds(init);
      var before := Enum(init);
      forall x | x in Enum(items)
        ensures Equal(items[Enum(items)[x]], x)
      {
        if Enum(items)[x] != n {
          AssignedElsewhere(before, items[n], n, x);
          assert items[before[x]] == init[before[x]];
        }
      }
    }
  }

  /** Each name stands for the last position holding an item `==` to it. */
  lemma {:induction false} EnumLast(items: seq<Scalar>)
    ensures forall x, j :: x in Enum(items) && Enum(items)[x] < j < |items| ==> !Equal(items[j], x)
    decreases |items|
  {
    if items != [] {
      var n := |items| - 1;
      var init := items[..n];
      EnumLast(init);
      var before := Enum(init);
      forall x, j | x in Enum(items) && Enum(items)[x] < j < |items|
        ensures !Equal(items[j], x)
      {
        AssignedElsewhere(before, items[n], n, x);
        if j < n {
          assert items[j] == init[j];
        }
      }
    }
  }

  /** After `m[x] = v` in a dictionary, a key whose value is not `v` was
      already there with that value, and is not `==` to `x`. */
  lemma AssignedElsewhere<V>(m: map<Scalar, V>, x: Scalar, v: V, y: Scalar)
    requires IsDict(m) && y in m[KeyFor(m, x) := v] && m[KeyFor(m, x) := v][y] != v
    ensures y in m && m[KeyFor(m, x) := v][y] == m[y] && !Equal(x, y)
  {
  }

  /** The names of the enumeration are the items up to `==`: every name is
      one of the items, every item has a name `==` to it, no two names are
      `==`, and each name stands for the last position holding an item `==`
      to it. */
  lemma EnumLastPosition(items: seq<Scalar>)
    ensures IsDict(Enum(items))
    ensures forall x :: x in Enum(items) ==> x in items
    ensures forall i :: 0 <= i < |items| ==> items[i] in Enum(items) || Twin(items[i]) in Enum(items)
    ensures forall x :: x in Enum(items) ==>
      Enum(items)[x] < |items| && Equal(items[Enum(items)[x]], x) &&
      forall j :: Enum(items)[x] < j < |items| ==> !Equal(items[j], x)
  {
    EnumNames(items);
    EnumHolds(items);
    EnumLast(items);
  }

  /** With names no two of which are `==`, each name stands for its own
      position. */
  lemma EnumDistinct(items: seq<Scalar>)
    requires forall i, j :: 0 <= i < j < |items| ==> !Equal(items[i], items[j])
    ensures forall i :: 0 <= i < |items| ==> items[i] in Enum(items) && Enum(items)[items[i]] == i
  {
    EnumNames(items);
    EnumHolds(items);
    EnumLast(items);
    forall i | 0 <= i < |items|
      ensures items[i] in Enum(items) && Enum(items)[items[i]] == i
    {
      EnumDistinctAt(items, i);
    }
  }

  /** One item of `EnumDistinct`, from the facts of `EnumLastPosition`. */
  lemma EnumDistinctAt(items: seq<Scalar>, i: int)
    requires forall i, j :: 0 <= i < j < |items| ==> !Equal(items[i], items[j])
    requires 0 <= i < |items|
    requires forall x :: x in Enum(items) ==> x in items
    requires forall i :: 0 <= i < |items| ==> items[i] in Enum(items) || Twin(items[i]) in Enum(items)
    requires forall x :: x in Enum(items) ==> Equal(items[Enum(items)[x]], x)
    requires forall x, j :: x in Enum(items) && Enum(items)[x] < j < |items| ==> !Equal(items[j], x)
    ensures items[i] in Enum(items) && Enum(items)[items[i]] == i
  {
    var e := Enum(items);
    var x := items[i];
    assert x in e || Twin(x) in e;
    assert Twin(x) in e ==> x in e by {
      forall j | 0 <= j < |items| && items[j] == Twin(x)
        ensures items[j] == x
      {
        EqualScalars(items[j], x);
      }
    }
    var p := e[x];
    EqualScalars(items[p], x);
    EqualScalars(x, x);
  }

  /** `enum('a', u'a')`: the two spellings are one name, kept as `'a'`, which
      stands for position 1. */
  lemma EnumMixedSpellings()
    ensures Enum([Str([0x61]), Unicode([0x61])]) == map[Str([0x61]) := 1]
  {
    var items := [Str([0x61]), Unicode([0x61])];
    assert items[..1] == [Str([0x61])];
    assert items[..1][..0] == [];
    assert Twin(Unicode([0x61])) == Str([0x61]);
  }
}
