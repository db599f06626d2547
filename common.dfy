/** Types and helpers shared by the two canisters: Rust's `u64`, the
    `Option` and `Result<T, String>` wrappers, Internet Computer principals,
    and the in-key-order traversal that a `StableBTreeMap<u64, _>` iterator
    performs. */
module Common {

  const U64_MAX: int := 0xFFFF_FFFF_FFFF_FFFF

  /** Rust's `u64`. */
  newtype u64 = x: int | 0 <= x <= 0xFFFF_FFFF_FFFF_FFFF

  /** `*counter += 1` on a `u64` in a release build, where overflow checks are
      off and the addition wraps around. */
  function WrappingIncrement(x: u64): (y: u64)
    ensures y as int == (x as int + 1) % (U64_MAX + 1)
  {
    if x as int == U64_MAX then 0 else x + 1
  }

  /** An Internet Computer principal: an opaque identity compared by value. */
  datatype Principal = Principal(bytes: seq<bv8>)

  datatype Option<T> = None | Some(value: T)

  /** `Result<T, String>` as the canisters return it. */
  datatype Result<T> = Ok(value: T) | Err(error: string)

  predicate StrictlyIncreasing(s: seq<u64>)
  {
    forall i, j :: 0 <= i < j < |s| ==> s[i] < s[j]
  }

  predicate IsLeast(m: u64, ks: set<u64>)
  {
    m in ks && forall k :: k in ks ==> m <= k
  }

  lemma {:induction false} LeastExists(ks: set<u64>)
    requires ks != {}
    ensures exists m :: IsLeast(m, ks)
  {
    var x :| x in ks;
    if ks != {x} {
      LeastExists(ks - {x});
      var m :| IsLeast(m, ks - {x});
      var least := if m <= x then m else x;
      forall k | k in ks
        ensures least <= k
      {
        if k != x {
          assert k in ks - {x};
        }
      }
      assert IsLeast(least, ks);
    } else {
      assert IsLeast(x, ks);
    }
  }

  /** The keys of a `StableBTreeMap<u64, _>` in the order its iterator
      visits them: ascending. */
  function SortedKeys(ks: set<u64>): (r: seq<u64>)
    ensures StrictlyIncreasing(r)
    ensures forall k :: k in r <==> k in ks
    decreases ks
  {
    if ks == {} then []
    else
      LeastExists(ks);
      var m :| IsLeast(m, ks);
      [m] + SortedKeys(ks - {m})
  }

  /** The keys of `ks`, in their order, whose value satisfies `keep`: the
      `.filter(..)` step of an iterator over the map. */
  function KeysWhere<V>(m: map<u64, V>, ks: seq<u64>, keep: V -> bool): (r: seq<u64>)
    requires forall k :: k in ks ==> k in m
    ensures forall k :: k in r <==> k in ks && keep(m[k])
    ensures StrictlyIncreasing(ks) ==> StrictlyIncreasing(r)
  {
    if ks == [] then []
    else
      var rest := KeysWhere(m, ks[1..], keep);
      if keep(m[ks[0]]) then
        PrependLeast(ks, rest);
        [ks[0]] + rest
      else rest
  }

  /** Filtering keeps a sequence ascending: the head of an ascending
      sequence is below every element drawn from its tail. */
  lemma PrependLeast(ks: seq<u64>, rest: seq<u64>)
    requires ks != []
    requires forall k :: k in rest ==> k in ks[1..]
    requires StrictlyIncreasing(ks) ==> StrictlyIncreasing(rest)
    ensures StrictlyIncreasing(ks) ==> StrictlyIncreasing([ks[0]] + rest)
  {
    if StrictlyIncreasing(ks) {
      var r := [ks[0]] + rest;
      forall i, j | 0 <= i < j < |r|
        ensures r[i] < r[j]
      {
        assert r[j] == rest[j - 1] && r[j] in rest;
        var n :| 0 <= n < |ks[1..]| && ks[1..][n] == r[j];
        assert ks[n + 1] == r[j];
        if i > 0 {
          assert r[i] == rest[i - 1];
        }
      }
    }
  }

  /** The values stored under `ks`, in order: the `.map(..)` step. */
  function ValuesAt<V>(m: map<u64, V>, ks: seq<u64>): (r: seq<V>)
    requires forall k :: k in ks ==> k in m
    ensures |r| == |ks|
    ensures forall i :: 0 <= i < |ks| ==> r[i] == m[ks[i]]
  {
    seq(|ks|, i requires 0 <= i < |ks| => m[ks[i]])
  }

  /** The keys whose value satisfies `keep`, in ascending order: the keys
      an iterator over the map followed by `.filter(..)` visits. */
  function SelectedKeys<V>(m: map<u64, V>, keep: V -> bool): (ks: seq<u64>)
    ensures StrictlyIncreasing(ks)
    ensures forall k :: k in ks <==> k in m && keep(m[k])
  {
    KeysWhere(m, SortedKeys(m.Keys), keep)
  }

  /** `map.iter().filter(|(_, v)| keep(v)).map(|(_, v)| v).collect()`: the
      values satisfying `keep`, ordered by ascending key. */
  function Select<V(==,!new)>(m: map<u64, V>, keep: V -> bool): (r: seq<V>)
    ensures |r| == |SelectedKeys(m, keep)|
    ensures forall i :: 0 <= i < |r| ==> r[i] == m[SelectedKeys(m, keep)[i]]
    ensures forall v :: v in r <==> v in m.Values && keep(v)
  {
    var ks := SelectedKeys(m, keep);
    var r := ValuesAt(m, ks);
    SelectedValues(m, keep, ks, r);
    r
  }

  /** The values stored under exactly the keys whose value satisfies
      `keep` are exactly the stored values that satisfy `keep`. */
  lemma SelectedValues<V>(m: map<u64, V>, keep: V -> bool, ks: seq<u64>, r: seq<V>)
    requires forall k :: k in ks <==> k in m && keep(m[k])
    requires |r| == |ks| && forall i :: 0 <= i < |ks| ==> r[i] == m[ks[i]]
    ensures forall v :: v in r <==> v in m.Values && keep(v)
  {
    forall v | v in r
      ensures v in m.Values && keep(v)
    {
      var i :| 0 <= i < |r| && r[i] == v;
      assert ks[i] in ks;
    }
    forall v | v in m.Values && keep(v)
      ensures v in r
    {
      var k :| k in m && m[k] == v;
      assert k in ks;
      var i :| 0 <= i < |ks| && ks[i] == k;
      assert r[i] == v;
    }
  }

  /** Two ascending sequences with the same elements are the same sequence. */
  lemma {:induction false} StrictlyIncreasingUnique(a: seq<u64>, b: seq<u64>)
    requires StrictlyIncreasing(a) && StrictlyIncreasing(b)
    requires forall x :: x in a <==> x in b
    ensures a == b
    decreases |a|
  {
    if a != [] {
      assert a[0] in a;
    }
    if b != [] {
      assert b[0] in b;
    }
    if a != [] && b != [] {
      SameHead(a, b);
      SameTail(a, b);
      StrictlyIncreasingUnique(a[1..], b[1..]);
      assert a == [a[0]] + a[1..];
      assert b == [b[0]] + b[1..];
    }
  }

  /** The least element of an ascending sequence is its head. */
  lemma SameHead(a: seq<u64>, b: seq<u64>)
    requires StrictlyIncreasing(a) && StrictlyIncreasing(b)
    requires forall x :: x in a <==> x in b
    requires a != [] && b != []
    ensures a[0] == b[0]
  {
    assert a[0] in a && b[0] in b;
    var j :| 0 <= j < |b| && b[j] == a[0];
    var i :| 0 <= i < |a| && a[i] == b[0];
    assert b[0] <= b[j] && a[0] <= a[i];
  }

  /** Removing a common head keeps the same elements, and ascending order. */
  lemma SameTail(a: seq<u64>, b: seq<u64>)
    requires StrictlyIncreasing(a) && StrictlyIncreasing(b)
    requires forall x :: x in a <==> x in b
    requires a != [] && b != [] && a[0] == b[0]
    ensures StrictlyIncreasing(a[1..]) && StrictlyIncreasing(b[1..])
    ensures forall x :: x in a[1..] <==> x in b[1..]
  {
    forall x | x in a[1..]
      ensures x in b[1..]
    {
      TailMember(a, b, x);
    }
    forall x | x in b[1..]
      ensures x in a[1..]
    {
      TailMember(b, a, x);
    }
  }

  lemma TailMember(a: seq<u64>, b: seq<u64>, x: u64)
    requires StrictlyIncreasing(a) && StrictlyIncreasing(b)
    requires a != [] && b != [] && a[0] == b[0]
    requires forall y :: y in a <==> y in b
    requires x in a[1..]
    ensures x in b[1..]
  {
    var i :| 0 <= i < |a[1..]| && a[1..][i] == x;
    assert a[i + 1] == x && a[0] < x;
    assert x in a;
    var j :| 0 <= j < |b| && b[j] == x;
    assert j != 0;
    assert b[1..][j - 1] == x;
  }
}
