/** The offline blob migration: keyset pages over the objects of the source backend, each object
    copied, verified by reading it back, and only then relabelled. Every tick of a run may be its
    last, so what holds at every exit of `Run` holds in every state an interruption can leave. */
module BlobMigration {
  import opened Common
  import opened RangeReader

  datatype Backend = LocalFS | S3

  /** A logical file location. */
  datatype Row = Row(key: Key, size: nat, sha: Key, backend: Backend)

  datatype Object = Object(key: Key, size: nat, locations: nat)

  datatype Totals = Totals(objects: nat, locations: nat, bytes: nat)

  datatype Outcome = Done | Stopped | Aborted

  type Rows = map<nat, Row>

  function KeysOn(rows: Rows, b: Backend): set<Key> {
    set loc | loc in rows && rows[loc].backend == b :: rows[loc].key
  }

  function Locations(rows: Rows, b: Backend, key: Key): set<nat> {
    set loc | loc in rows && rows[loc].backend == b && rows[loc].key == key
  }

  /** One size and one digest per key, the digest being the key. */
  ghost predicate Consistent(rows: Rows, b: Backend, key: Key) {
    forall l, m :: l in Locations(rows, b, key) && m in Locations(rows, b, key) ==>
      rows[l].size == rows[m].size && rows[l].sha == key
  }

  ghost function SizeOf(rows: Rows, b: Backend, key: Key): nat
    requires key in KeysOn(rows, b)
  {
    var l :| l in rows && rows[l].backend == b && rows[l].key == key;
    rows[l].size
  }

  /** Relabelling the locations of some keys. */
  function Relabel(rows: Rows, from: Backend, to: Backend, keys: set<Key>): Rows {
    map loc | loc in rows :: if rows[loc].backend == from && rows[loc].key in keys then rows[loc].(backend := to)
        else rows[loc]
  }

  ghost predicate Increasing(keys: seq<Key>) {
    forall i, j :: 0 <= i < j < |keys| ==> keys[i] < keys[j]
  }

  /** What a run reports about the objects it visited. */
  ghost function TotalsOf(rows: Rows, b: Backend, visited: seq<Key>): Totals
    requires forall k :: k in visited ==> k in KeysOn(rows, b)
  {
    if visited == [] then Totals(0, 0, 0)
    else
      var n, k := |visited| - 1, visited[|visited| - 1];
      var t := TotalsOf(rows, b, visited[..n]);
      Totals(t.objects + 1, t.locations + |Locations(rows, b, k)|, t.bytes + SizeOf(rows, b, k))
  }

  // ---- Facts about relabelling ------------------------------------------------------------

  lemma RelabelMore(rows: Rows, from: Backend, to: Backend, keys: set<Key>, key: Key)
    requires from != to
    ensures Relabel(Relabel(rows, from, to, keys), from, to, {key}) == Relabel(rows, from, to, keys + {key})
  {
  }

  /** Keys not relabelled keep their locations and sizes. */
  lemma RelabelElsewhere(rows: Rows, from: Backend, to: Backend, keys: set<Key>, key: Key)
    requires from != to && key !in keys
    ensures var after := Relabel(rows, from, to, keys);
            && Locations(after, from, key) == Locations(rows, from, key)
            && (key in KeysOn(after, from) <==> key in KeysOn(rows, from))
            && (Consistent(after, from, key) <==> Consistent(rows, from, key))
  {
    var after := Relabel(rows, from, to, keys);
    assert Locations(after, from, key) == Locations(rows, from, key);
    assert key in KeysOn(after, from) <==> Locations(after, from, key) != {} by {
      KeyIffLocated(after, from, key);
    }
    KeyIffLocated(rows, from, key);
  }

  lemma KeyIffLocated(rows: Rows, b: Backend, key: Key)
    ensures key in KeysOn(rows, b) <==> Locations(rows, b, key) != {}
  {
    if key in KeysOn(rows, b) {
      var loc :| loc in rows && rows[loc].backend == b && rows[loc].key == key;
      assert loc in Locations(rows, b, key);
    }
  }

  /** A key is gone from the source backend exactly when it was relabelled or never there. */
  lemma RelabelledKeys(rows: Rows, from: Backend, to: Backend, keys: set<Key>)
    requires from != to
    ensures KeysOn(Relabel(rows, from, to, keys), from) == KeysOn(rows, from) - keys
  {
    var after := Relabel(rows, from, to, keys);
    forall k
      ensures k in KeysOn(after, from) <==> k in KeysOn(rows, from) && k !in keys
    {
      if k in keys {
        KeyIffLocated(after, from, k);
        assert Locations(after, from, k) == {};
      } else {
        RelabelElsewhere(rows, from, to, keys, k);
      }
    }
  }

  // ---- The listing query ------------------------------------------------------------------

  method Least(s: set<Key>) returns (m: Key)
    requires s != {}
    ensures m in s && forall k :: k in s ==> m <= k
  {
    m := Pick(s);
    var todo := s - {m};
    while todo != {}
      invariant todo <= s && m in s
      invariant forall k :: k in s && k !in todo ==> m <= k
      decreases todo
    {
      var k := Pick(todo);
      if k < m {
        m := k;
      }
      todo := todo - {k};
    }
  }

  /** The object a key stands for in a listing. */
  ghost predicate Describes(rows: Rows, b: Backend, o: Object) {
    && o.key in KeysOn(rows, b) && Consistent(rows, b, o.key)
    && o.size == SizeOf(rows, b, o.key) && o.locations == |Locations(rows, b, o.key)|
  }

  /** One row of the grouped query, or the refusal of inconsistent metadata. */
  method Describe(rows: Rows, b: Backend, key: Key) returns (ok: bool, o: Object)
    requires key in KeysOn(rows, b)
    ensures ok <==> Consistent(rows, b, key)
    ensures o.key == key && (ok ==> Describes(rows, b, o))
  {
    KeyIffLocated(rows, b, key);
    var locs := Locations(rows, b, key);
    var first := Pick(locs);
    o := Object(key, rows[first].size, |locs|);
    ok := forall l :: l in locs ==> rows[l].size == rows[first].size && rows[l].sha == key;
  }

  /** The keys after a cursor. */
  function KeysAfter(rows: Rows, b: Backend, after: int): set<Key> {
    set k | k in KeysOn(rows, b) && after < k
  }

  function Below(s: set<Key>, k: Key): set<Key> {
    set x | x in s && x < k
  }

  function Members(keys: seq<Key>): set<Key> {
    set x | x in keys
  }

  lemma {:induction false} CountIncreasing(keys: seq<Key>)
    requires Increasing(keys)
    ensures |Members(keys)| == |keys|
  {
    if keys != [] {
      var n := |keys| - 1;
      CountIncreasing(keys[..n]);
      assert keys == keys[..n] + [keys[n]];
      assert keys[n] !in Members(keys[..n]);
      assert Members(keys) == Members(keys[..n]) + {keys[n]};
    }
  }

  lemma SubsetSize(a: set<Key>, b: set<Key>)
    requires a <= b
    ensures |a| <= |b|
  {
    assert b == a + (b - a);
  }

  /** The first keys are those with fewer than `limit` keys below them. */
  lemma FirstKeysExactly(s: set<Key>, keys: seq<Key>, limit: nat, k: Key)
    requires Increasing(keys) && |keys| <= limit && k in s
    requires forall x :: x in keys ==> x in s
    requires forall x :: x in s ==> x in keys || (|keys| == limit && (limit > 0 ==> keys[limit - 1] < x))
    ensures k in keys <==> |Below(s, k)| < limit
  {
    if k in keys {
      var i :| 0 <= i < |keys| && keys[i] == k;
      CountIncreasing(keys[..i]);
      var first := Members(keys[..i]);
      forall x | x in Below(s, k)
        ensures x in first
      {
        assert x in keys;
        var j :| 0 <= j < |keys| && keys[j] == x;
        assert j < i && keys[..i][j] == x;
      }
      SubsetSize(Below(s, k), first);
    } else {
      CountIncreasing(keys);
      var all := Members(keys);
      forall x | x in all
        ensures x in Below(s, k)
      {
        var j :| 0 <= j < |keys| && keys[j] == x;
        assert j < limit - 1 ==> keys[j] < keys[limit - 1];
      }
      SubsetSize(all, Below(s, k));
      assert |all| == limit;
    }
  }

  /** ORDER BY object_key LIMIT limit: those with fewer than `limit` keys below them. */
  method FirstKeys(s: set<Key>, limit: nat) returns (keys: seq<Key>)
    ensures Increasing(keys) && |keys| <= limit
    ensures forall k :: k in keys ==> k in s
    ensures forall k :: k in s ==> k in keys || (|keys| == limit && (limit > 0 ==> keys[limit - 1] < k))
    ensures forall k :: k in keys <==> k in s && |Below(s, k)| < limit
  {
    keys := [];
    var rest := s;
    while rest != {} && |keys| < limit
      invariant Increasing(keys) && |keys| <= limit && rest <= s
      invariant forall k :: k in keys ==> k in s
      invariant forall i, k :: 0 <= i < |keys| && k in rest ==> keys[i] < k
      invariant forall k :: k in s ==> k in rest || k in keys
      decreases rest
    {
      var k := Least(rest);
      keys := keys + [k];
      rest := rest - {k};
    }
    forall k | k in s
      ensures k in keys <==> |Below(s, k)| < limit
    {
      FirstKeysExactly(s, keys, limit, k);
    }
  }

  /** A page: the first `limit` objects after the cursor, in order, or a refusal. */
  ghost predicate IsPage(rows: Rows, b: Backend, after: int, page: seq<Object>) {
    && (forall i :: 0 <= i < |page| ==> Describes(rows, b, page[i]) && after < page[i].key)
    && (forall i, j :: 0 <= i < j < |page| ==> page[i].key < page[j].key)
    && (forall k :: k in KeysAfter(rows, b, after) ==> OnPage(page, k) || (page != [] && page[|page| - 1].key < k))
  }

  ghost predicate OnPage(page: seq<Object>, key: Key) {
    exists i :: 0 <= i < |page| && page[i].key == key
  }

  /** Metadata that a page of this limit would run into. */
  ghost predicate BadOnPage(rows: Rows, b: Backend, after: int, limit: nat, k: Key) {
    k in KeysAfter(rows, b, after) && |Below(KeysAfter(rows, b, after), k)| < limit && !Consistent(rows, b, k)
  }

  /** The rows of the grouped query in turn; the first inconsistent one refuses the page. */
  method DescribeAll(rows: Rows, b: Backend, keys: seq<Key>) returns (ok: bool, page: seq<Object>)
    requires forall k :: k in keys ==> k in KeysOn(rows, b)
    ensures ok <==> forall k :: k in keys ==> Consistent(rows, b, k)
    ensures ok ==> |page| == |keys| && forall j :: 0 <= j < |keys| ==>
              page[j].key == keys[j] && Describes(rows, b, page[j])
  {
    ok, page := true, [];
    for i := 0 to |keys|
      invariant |page| == i
      invariant forall j :: 0 <= j < i ==> page[j].key == keys[j] && Describes(rows, b, page[j])
    {
      assert keys[i] in keys;
      var fits, o := Describe(rows, b, keys[i]);
      if !fits {
        return false, page;
      }
      page := page + [o];
    }
    forall k | k in keys
      ensures Consistent(rows, b, k)
    {
      var j :| 0 <= j < |keys| && keys[j] == k;
      assert Describes(rows, b, page[j]);
    }
  }

  lemma PageOfKeys(rows: Rows, b: Backend, after: int, limit: nat, keys: seq<Key>, page: seq<Object>)
    requires limit > 0 && Increasing(keys) && |keys| <= limit &&
              (forall k :: k in keys ==> k in KeysAfter(rows, b, after))
    requires forall k :: k in KeysAfter(rows, b, after) ==> k in keys || (|keys| == limit && keys[limit - 1] < k)
    requires |page| == |keys| && forall j :: 0 <= j < |keys| ==> page[j].key == keys[j] && Describes(rows, b, page[j])
    ensures IsPage(rows, b, after, page)
    ensures |page| < limit ==> forall k :: k in KeysAfter(rows, b, after) ==> OnPage(page, k)
  {
    forall k | k in keys
      ensures OnPage(page, k)
    {
      var i :| 0 <= i < |keys| && keys[i] == k;
      assert page[i].key == k;
    }
    forall i | 0 <= i < |page|
      ensures after < page[i].key
    {
      assert keys[i] in keys;
    }
  }

  /** The page, never longer than the limit and shorter only at the end; refused exactly if one of its
      keys has inconsistent metadata. */
  method ListObjects(rows: Rows, b: Backend, after: int, limit: nat) returns (ok: bool, page: seq<Object>)
    requires limit > 0
    ensures ok ==> IsPage(rows, b, after, page) && |page| <= limit
    ensures ok && |page| < limit ==> forall k :: k in KeysAfter(rows, b, after) ==> OnPage(page, k)
    ensures !ok <==> exists k :: BadOnPage(rows, b, after, limit, k)
  {
    var keys := FirstKeys(KeysAfter(rows, b, after), limit);
    ok, page := DescribeAll(rows, b, keys);
    if ok {
      PageOfKeys(rows, b, after, limit, keys, page);
    } else {
      ghost var k :| k in keys && !Consistent(rows, b, k);
      assert BadOnPage(rows, b, after, limit, k);
    }
  }
}
