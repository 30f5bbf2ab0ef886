/**
 * Integer keys listed in ascending order. A SQLite rowid table is a B-tree
 * keyed by rowid, so a full scan without `ORDER BY` visits rows in this order.
 */
module KeyOrder {

  predicate StrictlyIncreasing(s: seq<int>) {
    forall i, j :: 0 <= i < j < |s| ==> s[i] < s[j]
  }

  /** `s` lists exactly the members of `keys`. */
  predicate Lists(s: seq<int>, keys: set<int>) {
    (forall i :: 0 <= i < |s| ==> s[i] in keys) && (forall k :: k in keys ==> k in s)
  }

  lemma NonEmptyHasMember(keys: set<int>)
    requires keys != {}
    ensures exists k :: k in keys
  {
    if forall k :: k !in keys {
      assert false;
    }
  }

  lemma NoMemberEmpty(keys: set<int>)
    requires forall k :: k !in keys
    ensures keys == {}
  {
    if keys != {} {
      NonEmptyHasMember(keys);
      assert false;
    }
  }

  lemma {:induction false} HasLeast(keys: set<int>)
    requires keys != {}
    ensures exists k :: k in keys && forall j :: j in keys ==> k <= j
    decreases keys
  {
    NonEmptyHasMember(keys);
    var x :| x in keys;
    var rest := keys - {x};
    if rest == {} {
      assert keys == {x};
    } else {
      HasLeast(rest);
      var m :| m in rest && forall j :: j in rest ==> m <= j;
      var least := if x < m then x else m;
      forall j | j in keys ensures least <= j {
        if j != x {
          assert j in rest;
        }
      }
      assert least in keys;
    }
  }

  function Least(keys: set<int>): (k: int)
    requires keys != {}
    ensures k in keys && forall j :: j in keys ==> k <= j
  {
    HasLeast(keys);
    var k :| k in keys && forall j :: j in keys ==> k <= j; k
  }

  /** Putting a key below every listed key in front keeps the list increasing. */
  lemma PrependSmallerIncreasing(k: int, s: seq<int>)
    requires StrictlyIncreasing(s) && forall i :: 0 <= i < |s| ==> k < s[i]
    ensures StrictlyIncreasing([k] + s)
  {
    var t := [k] + s;
    forall i, j | 0 <= i < j < |t| ensures t[i] < t[j] {
      assert t[j] == s[j - 1];
      if i > 0 {
        assert t[i] == s[i - 1];
      }
    }
  }

  /** Putting `k` in front of a listing of `keys - {k}` lists `keys`. */
  lemma PrependLists(k: int, keys: set<int>, s: seq<int>)
    requires k in keys && Lists(s, keys - {k})
    ensures Lists([k] + s, keys)
  {
    var t := [k] + s;
    forall x | x in keys ensures x in t {
      if x != k {
        assert x in keys - {k};
        var i :| 0 <= i < |s| && s[i] == x;
        assert t[i + 1] == x;
      } else {
        assert t[0] == x;
      }
    }
    forall i | 0 <= i < |t| ensures t[i] in keys {
      if i > 0 {
        assert t[i] == s[i - 1];
      }
    }
  }

  /** Putting the least key in front of an increasing listing of the other
      keys gives an increasing listing of all of them. */
  lemma PrependLeast(k: int, keys: set<int>, rest: seq<int>)
    requires k in keys && forall j :: j in keys ==> k <= j
    requires StrictlyIncreasing(rest) && Lists(rest, keys - {k})
    ensures StrictlyIncreasing([k] + rest) && Lists([k] + rest, keys)
  {
    forall i | 0 <= i < |rest| ensures k < rest[i] {
      assert rest[i] in keys - {k};
    }
    PrependSmallerIncreasing(k, rest);
    PrependLists(k, keys, rest);
  }

  /** The keys in ascending order: each key once, nothing else, increasing. */
  function Ascending(keys: set<int>): (ids: seq<int>)
    ensures |ids| == |keys|
    ensures Lists(ids, keys)
    ensures StrictlyIncreasing(ids)
    decreases keys
  {
    if keys == {} then []
    else
      var k := Least(keys);
      var rest := Ascending(keys - {k});
      PrependLeast(k, keys, rest);
      [k] + rest
  }

  lemma AscendingUnfold(keys: set<int>)
    requires keys != {}
    ensures Ascending(keys) == [Least(keys)] + Ascending(keys - {Least(keys)})
  {
  }

  /** The smallest element of an increasing list comes first. */
  lemma HeadIsLeast(ids: seq<int>, keys: set<int>)
    requires StrictlyIncreasing(ids) && Lists(ids, keys) && keys != {}
    ensures |ids| > 0 && ids[0] == Least(keys)
  {
    var k := Least(keys);
    assert k in ids;
    var i :| 0 <= i < |ids| && ids[i] == k;
    assert ids[0] in keys;
  }

  lemma TailIncreasing(s: seq<int>)
    requires StrictlyIncreasing(s) && s != []
    ensures StrictlyIncreasing(s[1..])
  {
    var tail := s[1..];
    forall i, j | 0 <= i < j < |tail| ensures tail[i] < tail[j] {
      assert tail[i] == s[i + 1] && tail[j] == s[j + 1];
    }
  }

  /** Dropping the first key of an increasing listing of `keys` gives an
      increasing listing of the remaining keys. */
  lemma TailLists(ids: seq<int>, keys: set<int>)
    requires StrictlyIncreasing(ids) && Lists(ids, keys) && ids != []
    ensures StrictlyIncreasing(ids[1..]) && Lists(ids[1..], keys - {ids[0]})
  {
    var k, tail := ids[0], ids[1..];
    TailIncreasing(ids);
    forall i | 0 <= i < |tail| ensures tail[i] in keys - {k} {
      assert tail[i] == ids[i + 1] && ids[0] < ids[i + 1];
    }
    forall x | x in keys - {k} ensures x in tail {
      var i :| 0 <= i < |ids| && ids[i] == x;
      assert tail[i - 1] == x;
    }
  }

  /** An increasing listing of `keys` is its least key followed by an
      increasing listing of the others. */
  lemma SplitListing(ids: seq<int>, keys: set<int>)
    requires StrictlyIncreasing(ids) && Lists(ids, keys) && ids != []
    ensures keys != {} && ids[0] == Least(keys) && ids == [ids[0]] + ids[1..]
    ensures StrictlyIncreasing(ids[1..]) && Lists(ids[1..], keys - {ids[0]})
  {
    assert ids[0] in keys;
    HeadIsLeast(ids, keys);
    TailLists(ids, keys);
  }

  /** A strictly increasing sequence is determined by its set of elements:
      the only increasing listing of `keys` is `Ascending(keys)`. */
  lemma {:induction false} AscendingUnique(ids: seq<int>, keys: set<int>)
    requires StrictlyIncreasing(ids) && Lists(ids, keys)
    ensures ids == Ascending(keys)
    decreases keys
  {
    if ids == [] {
      NoMemberEmpty(keys);
    } else {
      var k, tail := ids[0], ids[1..];
      SplitListing(ids, keys);
      AscendingUnique(tail, keys - {k});
      AscendingUnfold(keys);
    }
  }

  /** Appending a key above every listed key keeps the list increasing. */
  lemma AppendLargestIncreasing(s: seq<int>, n: int)
    requires StrictlyIncreasing(s) && forall i :: 0 <= i < |s| ==> s[i] < n
    ensures StrictlyIncreasing(s + [n])
  {
    var t := s + [n];
    forall i, j | 0 <= i < j < |t| ensures t[i] < t[j] {
      assert t[i] == s[i];
      if j < |s| {
        assert t[j] == s[j];
      }
    }
  }

  /** Appending a key to a listing of `keys` lists `keys + {n}`. */
  lemma AppendLists(s: seq<int>, keys: set<int>, n: int)
    requires Lists(s, keys)
    ensures Lists(s + [n], keys + {n})
  {
    var t := s + [n];
    forall i | 0 <= i < |t| ensures t[i] in keys + {n} {
      if i < |s| {
        assert t[i] == s[i];
      }
    }
    forall k | k in keys + {n} ensures k in t {
      if k != n {
        var i :| 0 <= i < |s| && s[i] == k;
        assert t[i] == k;
      } else {
        assert t[|s|] == n;
      }
    }
  }

  /** A key larger than every present key is listed last. */
  lemma AscendingAppend(keys: set<int>, n: int)
    requires forall k :: k in keys ==> k < n
    ensures Ascending(keys + {n}) == Ascending(keys) + [n]
  {
    var s := Ascending(keys);
    assert forall i :: 0 <= i < |s| ==> s[i] < n;
    AppendLargestIncreasing(s, n);
    AppendLists(s, keys, n);
    AscendingUnique(s + [n], keys + {n});
  }
}
