/** (time, proposal id) keys and the ascending order in which the key-value
    store iterates over a set of them. */
module OrderedKeys {
  datatype Key = Key(time: int, id: nat)

  predicate Less(a: Key, b: Key) {
    a.time < b.time || (a.time == b.time && a.id < b.id)
  }

  ghost predicate Ascending(keys: seq<Key>) {
    forall i, j :: 0 <= i < j < |keys| ==> Less(keys[i], keys[j])
  }

  predicate IsLeast(m: Key, keys: set<Key>) {
    m in keys && forall k :: k in keys ==> k == m || Less(m, k)
  }

  lemma {:induction false} LeastExists(keys: set<Key>)
    requires keys != {}
    ensures exists m :: IsLeast(m, keys)
  {
    var k :| k in keys;
    if keys == {k} {
      assert IsLeast(k, keys);
    } else {
      LeastExists(keys - {k});
      var m :| IsLeast(m, keys - {k});
      assert keys == (keys - {k}) + {k};
      assert IsLeast(if Less(k, m) then k else m, keys);
    }
  }

  /** The elements of a set in ascending order: what a full iteration yields. */
  ghost function Listing(keys: set<Key>): (r: seq<Key>)
    ensures Ascending(r)
    ensures forall k :: k in r <==> k in keys
  {
    if keys == {} then []
    else
      LeastExists(keys);
      var m :| IsLeast(m, keys);
      [m] + Listing(keys - {m})
  }

  /** A listing is determined by its elements. */
  lemma {:induction false} ListingUnique(r: seq<Key>, keys: set<Key>)
    requires Ascending(r)
    requires forall k :: k in r <==> k in keys
    ensures r == Listing(keys)
  {
    if r == [] {
      assert keys == {};
    } else {
      assert r[0] in keys;
      var l := Listing(keys);
      assert r[0] in l && l[0] in r;
      assert r[0] == l[0];
      var m := l[0];
      forall k ensures k in r[1..] <==> k in keys - {m} {
        if k in keys - {m} {
          var i :| 0 <= i < |r| && r[i] == k;
          assert r[1..][i - 1] == k;
        }
        if k in r[1..] {
          var i :| 0 <= i < |r[1..]| && r[1..][i] == k;
          assert Less(r[0], r[i + 1]);
        }
      }
      ListingUnique(r[1..], keys - {m});
      assert r == [m] + r[1..];
    }
  }

  /** The keys a range ending at `bound` (inclusive) selects. */
  ghost function UpTo(keys: set<Key>, bound: int): set<Key> {
    set k | k in keys && k.time <= bound
  }

  /** Ordered iteration over the whole set, as the store performs it. */
  method Iterate(keys: set<Key>) returns (r: seq<Key>)
    ensures r == Listing(keys)
  {
    r := [];
    var rest := keys;
    while rest != {}
      invariant rest <= keys
      invariant Ascending(r)
      invariant forall k :: k in r <==> k in keys - rest
      invariant forall i, k :: 0 <= i < |r| && k in rest ==> Less(r[i], k)
      decreases rest
    {
      LeastExists(rest);
      var m :| m in rest && IsLeast(m, rest);
      r := r + [m];
      rest := rest - {m};
    }
    ListingUnique(r, keys);
  }

  /** Ordered iteration over the prefix-until range ending at `bound`. */
  method IterateUntil(keys: set<Key>, bound: int) returns (r: seq<Key>)
    ensures r == Listing(UpTo(keys, bound))
  {
    r := Iterate(set k | k in keys && k.time <= bound);
  }
}
