/** The migration loop over the stores it changes, its interruptions, and the startup gate. */
module BlobMigrator {
  import opened Common
  import opened RangeReader
  import opened BlobMigration

  /** The backend's entry for a row: present, of the recorded size, and digesting to the row's SHA-256. */
  ghost predicate Verified(digest: Bytes -> Key, blobs: map<Key, Bytes>, row: Row) {
    row.key in blobs && |blobs[row.key]| == row.size && digest(blobs[row.key]) == row.sha
  }

  /** Every location's label names a backend that holds its verified bytes. */
  ghost predicate SafeRows(digest: Bytes -> Key, rows: Rows, from: Backend, source: map<Key, Bytes>,
                           target: map<Key, Bytes>) {
    forall loc :: loc in rows ==> Verified(digest, if rows[loc].backend == from then source else target, rows[loc])
  }

  /** Nothing is lost or replaced at the destination. */
  ghost predicate Grows(before: map<Key, Bytes>, after: map<Key, Bytes>) {
    forall k :: k in before ==> k in after && after[k] == before[k]
  }

  /** A location whose label names a backend that holds its verified bytes. */
  ghost predicate Truthful(digest: Bytes -> Key, row: Row, from: Backend, source: map<Key, Bytes>,
                           target: map<Key, Bytes>) {
    Verified(digest, if row.backend == from then source else target, row)
  }

  /** What verification establishes of a row it relabels: its bytes are at the destination, unless the
      row is empty and a local file that is not sits under its key. */
  ghost predicate Arrived(digest: Bytes -> Key, to: Backend, target: map<Key, Bytes>, row: Row) {
    && row.key in target
    && (Verified(digest, target, row) <==> row.size > 0 || target[row.key] == [])
    && (row.size == 0 ==> digest([]) == row.key)
    && (to == S3 ==> Verified(digest, target, row))
  }

  /** Only labels differ, and every row whose label moved has arrived. */
  ghost predicate Moved(digest: Bytes -> Key, to: Backend, before: Rows, now: Rows, target: map<Key, Bytes>) {
    && SameLocations(before, now)
    && forall loc :: loc in before && now[loc].backend != before[loc].backend ==>
         now[loc].backend == to && Arrived(digest, to, target, now[loc])
  }

  lemma MovedWhileGrowing(digest: Bytes -> Key, to: Backend, start: Rows, now: Rows, before: map<Key, Bytes>,
                          after: map<Key, Bytes>)
    requires Moved(digest, to, start, now, before) && Grows(before, after)
    ensures Moved(digest, to, start, now, after)
  {
  }

  lemma MovedOnce(digest: Bytes -> Key, from: Backend, to: Backend, start: Rows, now: Rows, target: map<Key, Bytes>,
                  o: Object)
    requires Moved(digest, to, start, now, target) && Describes(now, from, o)
    requires Arrived(digest, to, target, Row(o.key, o.size, o.key, to))
    ensures Moved(digest, to, start, Relabel(now, from, to, {o.key}), target)
  {
    var next := Relabel(now, from, to, {o.key});
    forall loc | loc in start && next[loc].backend != start[loc].backend
      ensures next[loc].backend == to && Arrived(digest, to, target, next[loc])
    {
      if now[loc].backend == from && now[loc].key == o.key {
        assert loc in Locations(now, from, o.key);
        var l :| l in now && now[l].backend == from && now[l].key == o.key && now[l].size == SizeOf(now, from, o.key);
        assert l in Locations(now, from, o.key);
        assert next[loc] == Row(o.key, o.size, o.key, to);
      }
    }
  }

  lemma MovedTransitive(digest: Bytes -> Key, to: Backend, a: Rows, b: Rows, c: Rows, first: map<Key, Bytes>,
                        last: map<Key, Bytes>)
    requires Moved(digest, to, a, b, first) && Moved(digest, to, b, c, last) && Grows(first, last)
    ensures Moved(digest, to, a, c, last)
  {
    MovedWhileGrowing(digest, to, a, b, first, last);
  }

  /** Whatever the source holds: with the empty object intact at the destination, every moved label is
      truthful and no truthful label has become untruthful. */
  lemma NoneSpoiled(digest: Bytes -> Key, from: Backend, to: Backend, start: Rows, now: Rows,
                    source: map<Key, Bytes>, before: map<Key, Bytes>, target: map<Key, Bytes>)
    requires from != to && Moved(digest, to, start, now, target) && Grows(before, target)
    requires to == S3 || (digest([]) in target ==> target[digest([])] == [])
    ensures forall loc :: loc in start && now[loc].backend != start[loc].backend ==> Verified(digest, target, now[loc])
    ensures forall loc :: loc in start && Truthful(digest, start[loc], from, source, before) ==>
              Truthful(digest, now[loc], from, source, target)
  {
  }

  // ---- Where a run stands -------------------------------------------------------------------

  ghost function KeysUpTo(rows: Rows, b: Backend, after: int): set<Key> {
    set k | k in KeysOn(rows, b) && k <= after
  }

  /** A run over `start` after visiting the keys up to `after`: what it saw, in which order, what it
      reports, and what the rows are now. */
  ghost predicate Position(start: Rows, from: Backend, to: Backend, dryRun: bool, after: int, visited: seq<Key>,
                           totals: Totals, now: Rows) {
    && Increasing(visited)
    && (forall k :: k in visited <==> k in KeysUpTo(start, from, after))
    && totals == TotalsOf(start, from, visited)
    && now == (if dryRun then start else Relabel(start, from, to, KeysUpTo(start, from, after)))
  }

  lemma StartPosition(start: Rows, from: Backend, to: Backend, dryRun: bool)
    ensures Position(start, from, to, dryRun, -1, [], Totals(0, 0, 0), start)
  {
  }

  /** Ahead of the cursor nothing has changed since the start. */
  lemma AheadUnchanged(start: Rows, from: Backend, to: Backend, dryRun: bool, after: int, visited: seq<Key>,
                       totals: Totals, now: Rows, key: Key)
    requires from != to && Position(start, from, to, dryRun, after, visited, totals, now) && after < key
    ensures key in KeysOn(now, from) <==> key in KeysOn(start, from)
    ensures Consistent(now, from, key) <==> Consistent(start, from, key)
    ensures Locations(now, from, key) == Locations(start, from, key)
    ensures forall l :: l in Locations(now, from, key) ==> now[l] == start[l]
  {
    if !dryRun {
      RelabelElsewhere(start, from, to, KeysUpTo(start, from, after), key);
    }
  }

  lemma DescribedAlike(start: Rows, from: Backend, to: Backend, dryRun: bool, after: int, visited: seq<Key>,
                       totals: Totals, now: Rows, o: Object)
    requires from != to && Position(start, from, to, dryRun, after, visited, totals, now) && after < o.key
    ensures Describes(now, from, o) <==> Describes(start, from, o)
  {
    AheadUnchanged(start, from, to, dryRun, after, visited, totals, now, o.key);
    if o.key !in KeysOn(now, from) || !Consistent(now, from, o.key) {
      return;
    }
    var l :| l in now && now[l].backend == from && now[l].key == o.key && now[l].size == SizeOf(now, from, o.key);
    var m :| m in start && start[m].backend == from && start[m].key == o.key &&
        start[m].size == SizeOf(start, from, o.key);
    assert l in Locations(now, from, o.key) && m in Locations(start, from, o.key);
  }

  lemma NextSeen(start: Rows, from: Backend, after: int, key: Key)
    requires key in KeysOn(start, from) && after < key
    requires forall k :: k in KeysAfter(start, from, after) ==> key <= k
    ensures KeysUpTo(start, from, key) == KeysUpTo(start, from, after) + {key}
    ensures KeysAfter(start, from, key) < KeysAfter(start, from, after)
  {
    forall k
      ensures k in KeysUpTo(start, from, key) <==> k in KeysUpTo(start, from, after) || k == key
    {
      if k in KeysOn(start, from) && after < k {
        assert k in KeysAfter(start, from, after);
      }
    }
    assert key in KeysAfter(start, from, after) && key !in KeysAfter(start, from, key);
  }

  lemma VisitedMembers(start: Rows, from: Backend, after: int, visited: seq<Key>, key: Key)
    requires Increasing(visited) && (forall k :: k in visited <==> k in KeysUpTo(start, from, after)) && after < key
    requires KeysUpTo(start, from, key) == KeysUpTo(start, from, after) + {key}
    ensures Increasing(visited + [key]) && (forall k :: k in visited + [key] <==> k in KeysUpTo(start, from, key))
  {
    assert forall i :: 0 <= i < |visited| ==> visited[i] in visited;
  }

  lemma VisitedTotals(start: Rows, from: Backend, visited: seq<Key>, totals: Totals, o: Object)
    requires (forall k :: k in visited ==> k in KeysOn(start, from)) && Describes(start, from, o)
    requires totals == TotalsOf(start, from, visited)
    ensures forall k :: k in visited + [o.key] ==> k in KeysOn(start, from)
    ensures Totals(totals.objects + 1, totals.locations + o.locations, totals.bytes + o.size) ==
              TotalsOf(start, from, visited + [o.key])
  {
    var longer := visited + [o.key];
    assert longer[..|visited|] == visited && longer[|visited|] == o.key;
  }

  /** Visiting the least key ahead moves the position on. */
  lemma Advance(start: Rows, from: Backend, to: Backend, dryRun: bool, after: int, visited: seq<Key>, totals: Totals,
                now: Rows, o: Object)
    requires from != to && Position(start, from, to, dryRun, after, visited, totals, now) && after < o.key
    requires Describes(now, from, o)
    requires forall k :: k in KeysAfter(start, from, after) ==> o.key <= k
    ensures Position(start, from, to, dryRun, o.key, visited + [o.key],
                     Totals(totals.objects + 1, totals.locations + o.locations, totals.bytes + o.size),
                     if dryRun then now else Relabel(now, from, to, {o.key}))
    ensures KeysAfter(start, from, o.key) < KeysAfter(start, from, after)
  {
    DescribedAlike(start, from, to, dryRun, after, visited, totals, now, o);
    AheadUnchanged(start, from, to, dryRun, after, visited, totals, now, o.key);
    NextSeen(start, from, after, o.key);
    VisitedMembers(start, from, after, visited, o.key);
    VisitedTotals(start, from, visited, totals, o);
    if !dryRun {
      RelabelMore(start, from, to, KeysUpTo(start, from, after), o.key);
    }
  }

  lemma PageAtStart(start: Rows, from: Backend, to: Backend, dryRun: bool, after: int, visited: seq<Key>,
                    totals: Totals, now: Rows, page: seq<Object>)
    requires from != to && Position(start, from, to, dryRun, after, visited, totals, now)
    requires IsPage(now, from, after, page)
    ensures IsPage(start, from, after, page)
  {
    forall i | 0 <= i < |page|
      ensures Describes(start, from, page[i]) && after < page[i].key
    {
      assert Describes(now, from, page[i]) && after < page[i].key;
      DescribedAlike(start, from, to, dryRun, after, visited, totals, now, page[i]);
    }
    forall k | k in KeysAfter(start, from, after)
      ensures OnPage(page, k) || (page != [] && page[|page| - 1].key < k)
    {
      AheadUnchanged(start, from, to, dryRun, after, visited, totals, now, k);
      assert k in KeysAfter(now, from, after);
    }
  }

  /** The object of the least key ahead of the cursor. */
  ghost predicate IsNext(start: Rows, from: Backend, after: int, o: Object) {
    Describes(start, from, o) && after < o.key && forall k :: k in KeysAfter(start, from, after) ==> o.key <= k
  }

  lemma AheadOnPage(start: Rows, from: Backend, after: int, page: seq<Object>, i: nat, k: Key)
    requires IsPage(start, from, after, page) && i < |page| && k in KeysAfter(start, from, after)
    requires i > 0 ==> page[i - 1].key < k
    ensures page[i].key <= k
  {
    if OnPage(page, k) {
      var j :| 0 <= j < |page| && page[j].key == k;
      assert j >= i;
    } else {
      assert page[i].key <= page[|page| - 1].key;
    }
  }

  /** Each object of a page is the least key ahead of the one before it. */
  lemma LeastAhead(start: Rows, from: Backend, after: int, page: seq<Object>, i: nat)
    requires IsPage(start, from, after, page) && i < |page|
    ensures IsNext(start, from, if i == 0 then after else page[i - 1].key as int, page[i])
  {
    var cursor := if i == 0 then after else page[i - 1].key as int;
    assert after < page[i].key && (i > 0 ==> after < page[i - 1].key < page[i].key);
    forall k | k in KeysAfter(start, from, cursor)
      ensures page[i].key <= k
    {
      assert k in KeysAfter(start, from, after);
      AheadOnPage(start, from, after, page, i, k);
    }
  }

  /** An empty page means nothing is ahead: every key was visited, and a real run has left none. */
  lemma Finished(start: Rows, from: Backend, to: Backend, dryRun: bool, after: int, visited: seq<Key>, totals: Totals,
                 now: Rows)
    requires from != to && Position(start, from, to, dryRun, after, visited, totals, now)
    requires IsPage(now, from, after, [])
    ensures forall k :: k in KeysOn(start, from) ==> k in visited
    ensures !dryRun ==> KeysOn(now, from) == {}
  {
    PageAtStart(start, from, to, dryRun, after, visited, totals, now, []);
    forall k | k in KeysOn(start, from)
      ensures k in KeysUpTo(start, from, after)
    {
      assert !OnPage([], k);
      assert k in KeysAfter(start, from, after) || k <= after;
    }
    RelabelledKeys(start, from, to, KeysUpTo(start, from, after));
  }

  /** Inconsistent metadata met on the way was there at the start. */
  lemma BadAtStart(start: Rows, from: Backend, to: Backend, dryRun: bool, after: int, visited: seq<Key>, totals: Totals,
                   now: Rows)
    requires from != to && Position(start, from, to, dryRun, after, visited, totals, now)
    requires exists k :: k in KeysOn(now, from) && !Consistent(now, from, k)
    ensures exists k :: k in KeysOn(start, from) && !Consistent(start, from, k)
  {
    var k :| k in KeysOn(now, from) && !Consistent(now, from, k);
    if !dryRun {
      RelabelledKeys(start, from, to, KeysUpTo(start, from, after));
      RelabelElsewhere(start, from, to, KeysUpTo(start, from, after), k);
    }
    assert k in KeysOn(start, from) && !Consistent(start, from, k);
  }

  ghost predicate HoldsIn(digest: Bytes -> Key, blobs: map<Key, Bytes>, o: Object) {
    o.key in blobs && |blobs[o.key]| == o.size && digest(blobs[o.key]) == o.key
  }

  /** An object that copying and reading back will accept: it is whole at the source and an entry already
      at the destination fits it. For the empty object nothing is read, so only S3 compares the entry. */
  ghost predicate Copyable(digest: Bytes -> Key, to: Backend, source: map<Key, Bytes>, blobs: map<Key, Bytes>,
                           o: Object) {
    if o.size == 0 then digest([]) == o.key && (to == LocalFS || (o.key in blobs ==> blobs[o.key] == []))
    else HoldsIn(digest, source, o) && (o.key in blobs ==> HoldsIn(digest, blobs, o))
  }

  /** Ahead of the cursor the destination is as the run found it. */
  ghost predicate NothingNewAhead(after: int, before: map<Key, Bytes>, now: map<Key, Bytes>) {
    forall k :: k in now && after < k ==> k in before
  }

  class Migrator {
    const digest: Bytes -> Key
    const from: Backend
    const to: Backend
    var rows: Rows
    var source: map<Key, Bytes>
    var target: map<Key, Bytes>

    constructor (digest: Bytes -> Key, from: Backend, to: Backend, rows: Rows, source: map<Key, Bytes>,
                 target: map<Key, Bytes>)
      ensures this.digest == digest && this.from == from && this.to == to
      ensures this.rows == rows && this.source == source && this.target == target
    {
      this.digest, this.from, this.to, this.rows, this.source, this.target := digest, from, to, rows, source, target;
    }

    ghost predicate Safe()
      reads this
    {
      from != to && SafeRows(digest, rows, from, source, target)
    }

    /** The one destination entry that reading back cannot judge is a local file already stored
        under the digest of the empty object; here it is empty, and no other content digests so. */
    ghost predicate EmptyIntact()
      reads this
    {
      || to == S3
      || ( && (digest([]) in target ==> target[digest([])] == [])
           && forall b: Bytes :: digest(b) == digest([]) ==> b == [])
    }

    ghost predicate Holds(o: Object)
      reads this
    {
      HoldsIn(digest, target, o)
    }

    /** Store a stream under its digest; an entry already there is kept, S3 alone checking its size. */
    method PutReader(stream: Bytes) returns (ok: bool, key: Key)
      modifies this`target
      ensures key == digest(stream) && Grows(old(target), target)
      ensures key in target && target == old(target)[key := target[key]]
      ensures target[key] == if key in old(target) then old(target)[key] else stream
      ensures ok <==> to == LocalFS || |target[key]| == |stream|
    {
      key := digest(stream);
      ok := true;
      if key in target {
        ok := to == LocalFS || |target[key]| == |stream|;
      } else {
        target := target[key := stream];
      }
    }

    /** Copy one object and read it back: accepted exactly if it is copyable, and then it has arrived.
        An intact empty object stays so. */
    method MigrateObject(o: Object) returns (ok: bool)
      modifies this`target
      ensures Grows(old(target), target)
      ensures ok <==> old(Copyable(digest, to, source, target, o))
      ensures ok ==> Arrived(digest, to, target, Row(o.key, o.size, o.key, to))
      ensures ok ==> forall k :: k in target ==> k in old(target) || k == o.key
      ensures old(EmptyIntact()) ==> EmptyIntact()
    {
      var reader := new Reader(source, o.key, o.size);
      var copied, stream := CopyAll(reader, 256 * 1024);
      if !copied {
        return false;
      }
      var put, key := PutReader(stream);
      if !put || key != o.key || |stream| != o.size {
        return false;
      }
      var verifier := new Reader(target, o.key, o.size);
      var readable, back := CopyAll(verifier, 32 * 1024);
      if !readable {
        return false;
      }
      ok := |back| == o.size && digest(back) == o.key;
    }

    /** The exception is real: a local file with other bytes under the digest of the empty object is
        accepted as that object. */
    method AcceptsFullFileAsEmpty(o: Object) returns (ok: bool)
      requires to == LocalFS && o.size == 0 && o.key == digest([]) && o.key in target && target[o.key] != []
      modifies this`target
      ensures ok && !Holds(o)
    {
      ok := MigrateObject(o);
    }

    /** One turn of the inner loop. A stop before the copy or between copy and relabel leaves the
        label where it was; the turn aborts exactly on an object that is not copyable. */
    method MigrateOne(o: Object, stopBefore: bool, stopBetween: bool) returns (outcome: Outcome)
      requires from != to && Describes(rows, from, o)
      modifies this`target, this`rows
      ensures Grows(old(target), target) && (old(EmptyIntact()) ==> EmptyIntact())
      ensures rows == if outcome == Done then Relabel(old(rows), from, to, {o.key}) else old(rows)
      ensures outcome == Stopped ==> stopBefore || stopBetween
      ensures outcome == Done ==> !stopBefore && !stopBetween
      ensures outcome == Aborted <==> !stopBefore && !old(Copyable(digest, to, source, target, o))
      ensures outcome == Done ==> Arrived(digest, to, target, Row(o.key, o.size, o.key, to))
      ensures outcome != Aborted ==> forall k :: k in target ==> k in old(target) || k == o.key
      ensures outcome != Aborted && old(Copyable(digest, to, source, target, o)) ==>
                Copyable(digest, to, source, target, o)
    {
      if stopBefore {
        return Stopped;
      }
      var ok := MigrateObject(o);
      if !ok {
        return Aborted;
      }
      if stopBetween {
        return Stopped;
      }
      KeyIffLocated(rows, from, o.key);
      // The update's row count is the one the listing promised, so its check passes.
      assert |Locations(rows, from, o.key)| == o.locations > 0;
      rows := Relabel(rows, from, to, {o.key});
      outcome := Done;
    }

    /** Where a run over `start` and `base` stands: what it visited and reports, and that every row it
        moved has arrived. */
    ghost predicate At(start: Rows, base: map<Key, Bytes>, dryRun: bool, after: int, visited: seq<Key>, totals: Totals)
      reads this
    {
      && Position(start, from, to, dryRun, after, visited, totals, rows)
      && Moved(digest, to, start, rows, target)
      && Grows(base, target)
      && (dryRun ==> target == base)
      && (forall k :: k in visited ==> Consistent(start, from, k))
    }

    /** Every object ahead of the cursor can be copied as the stores are now. */
    ghost predicate Ready(start: Rows, after: int)
      reads this
    {
      forall o :: Describes(start, from, o) && after < o.key ==> Copyable(digest, to, source, target, o)
    }

    /** Two ticks for each object ahead. */
    ghost predicate EnoughTicks(start: Rows, after: int, ticks: nat)
      reads this
    {
      ticks >= 2 * |KeysAfter(start, from, after)|
    }

    lemma ReadyKept(start: Rows, after: int, held: map<Key, Bytes>, o: Object)
      requires forall p :: Describes(start, from, p) && after < p.key ==> Copyable(digest, to, source, held, p)
      requires Describes(start, from, o) && Grows(held, target) && Copyable(digest, to, source, target, o)
      requires forall k :: k in target ==> k in held || k == o.key
      ensures Ready(start, after)
    {
      forall p | Describes(start, from, p) && after < p.key
        ensures Copyable(digest, to, source, target, p)
      {
        if p.key == o.key {
          SameObject(start, o, p);
        }
      }
    }

    lemma TicksLeft(start: Rows, after: int, key: int, ticks: nat)
      requires EnoughTicks(start, after, ticks) && KeysAfter(start, from, key) < KeysAfter(start, from, after)
      ensures ticks >= 2 && EnoughTicks(start, key, ticks - 2)
    {
      var more, less := KeysAfter(start, from, after), KeysAfter(start, from, key);
      var x := Member(more - less);
      SubsetSize(less, more - {x});
    }

    /** Ahead of the cursor the destination is as the run found it; every object up to the cursor was
        copyable then. */
    ghost predicate Clean(start: Rows, base: map<Key, Bytes>, dryRun: bool, after: int)
      reads this
    {
      && NothingNewAhead(after, base, target)
      && (!dryRun ==> forall o :: Describes(start, from, o) && o.key <= after ==> Copyable(digest, to, source, base, o))
    }

    ghost predicate Uncopyable(start: Rows, base: map<Key, Bytes>)
      reads this
    {
      exists o :: Describes(start, from, o) && !Copyable(digest, to, source, base, o)
    }

    lemma FewerKeys(start: Rows, now: Rows)
      requires from != to && Moved(digest, to, start, now, target)
      ensures |KeysOn(now, from)| <= |KeysOn(start, from)|
    {
      forall k | k in KeysOn(now, from)
        ensures k in KeysOn(start, from)
      {
        var loc :| loc in now && now[loc].backend == from && now[loc].key == k;
        assert start[loc].backend == from && start[loc].key == k;
      }
      SubsetSize(KeysOn(now, from), KeysOn(start, from));
    }

    lemma SameObject(start: Rows, o: Object, p: Object)
      requires Describes(start, from, o) && Describes(start, from, p) && o.key == p.key
      ensures o == p
    {
    }

    lemma UpToNext(start: Rows, after: int, o: Object, p: Object)
      requires Describes(start, from, o) && Describes(start, from, p) && p.key <= o.key
      requires forall k :: k in KeysAfter(start, from, after) ==> o.key <= k
      ensures p.key <= after || p == o
    {
      if after < p.key {
        assert p.key in KeysAfter(start, from, after);
        SameObject(start, o, p);
      }
    }

    /** One object of a page, the least key ahead. */
    method VisitObject(ghost start: Rows, ghost base: map<Key, Bytes>, o: Object, dryRun: bool,
                       ghost after: int, ticks: nat, ghost totals: Totals, ghost visited: seq<Key>)
      returns (outcome: Outcome)
      requires from != to && Describes(start, from, o) && after < o.key
      requires forall k :: k in KeysAfter(start, from, after) ==> o.key <= k
      requires At(start, base, dryRun, after, visited, totals) && Clean(start, base, dryRun, after)
      modifies this`target, this`rows
      ensures old(EmptyIntact()) ==> EmptyIntact()
      ensures outcome != Done ==> At(start, base, dryRun, after, visited, totals)
      ensures outcome == Aborted ==> !dryRun && Uncopyable(start, base)
      ensures outcome == Done ==> Clean(start, base, dryRun, o.key)
      ensures outcome == Done ==>
                At(start, base, dryRun, o.key, visited + [o.key],
                   Totals(totals.objects + 1, totals.locations + o.locations, totals.bytes + o.size))
      ensures KeysAfter(start, from, o.key) < KeysAfter(start, from, after)
      ensures outcome == Stopped ==> ticks < 2
      ensures old(Ready(start, after)) ==> outcome != Aborted && Ready(start, if outcome == Done then o.key else after)
    {
      DescribedAlike(start, from, to, dryRun, after, visited, totals, rows, o);
      Advance(start, from, to, dryRun, after, visited, totals, rows, o);
      if dryRun {
        return if ticks == 0 then Stopped else Done;
      }
      outcome := MigrateNext(start, base, o, ticks, after);
    }

    /** The same without a dry run: what it does to the rows and the destination. */
    method MigrateNext(ghost start: Rows, ghost base: map<Key, Bytes>, o: Object, ticks: nat, ghost after: int)
      returns (outcome: Outcome)
      requires from != to && Describes(start, from, o) && Describes(rows, from, o) && after < o.key
      requires forall k :: k in KeysAfter(start, from, after) ==> o.key <= k
      requires Moved(digest, to, start, rows, target) && Grows(base, target) && Clean(start, base, false, after)
      modifies this`target, this`rows
      ensures old(EmptyIntact()) ==> EmptyIntact()
      ensures Moved(digest, to, start, rows, target) && Grows(base, target)
      ensures rows == if outcome == Done then Relabel(old(rows), from, to, {o.key}) else old(rows)
      ensures outcome == Aborted ==> Uncopyable(start, base)
      ensures outcome == Done ==> Clean(start, base, false, o.key)
      ensures outcome == Stopped ==> ticks < 2
      ensures old(Ready(start, after)) ==> outcome != Aborted && Ready(start, after)
    {
      ghost var was, held := rows, target;
      outcome := MigrateOne(o, ticks == 0, ticks == 1);
      MovedWhileGrowing(digest, to, start, was, held, target);
      assert Copyable(digest, to, source, held, o) <==> Copyable(digest, to, source, base, o);
      if outcome == Done {
        MovedOnce(digest, from, to, start, was, target, o);
        StaysClean(start, base, held, after, o);
      }
      if old(Ready(start, after)) {
        ReadyKept(start, after, held, o);
      }
    }

    lemma StaysClean(start: Rows, base: map<Key, Bytes>, held: map<Key, Bytes>, after: int, o: Object)
      requires Describes(start, from, o) && after < o.key && NothingNewAhead(after, base, held)
      requires forall k :: k in KeysAfter(start, from, after) ==> o.key <= k
      requires forall p :: Describes(start, from, p) && p.key <= after ==> Copyable(digest, to, source, base, p)
      requires Copyable(digest, to, source, base, o)
      requires forall k :: k in target ==> k in held || k == o.key
      ensures Clean(start, base, false, o.key)
    {
      forall p | Describes(start, from, p) && p.key <= o.key
        ensures Copyable(digest, to, source, base, p)
      {
        UpToNext(start, after, o, p);
      }
    }

    /** A run that may go on from the cursor. */
    ghost predicate Going(start: Rows, base: map<Key, Bytes>, dryRun: bool, after: int, visited: seq<Key>,
                          totals: Totals)
      reads this
    {
      At(start, base, dryRun, after, visited, totals) && Clean(start, base, dryRun, after)
    }

    /** One turn of the inner loop, with the cursor, the totals and the ticks left. */
    method VisitNext(ghost start: Rows, ghost base: map<Key, Bytes>, o: Object, dryRun: bool,
                     after0: int, ticks0: nat, totals0: Totals, ghost visited0: seq<Key>)
      returns (outcome: Outcome, after: int, ticks: nat, totals: Totals, ghost visited: seq<Key>)
      requires from != to && IsNext(start, from, after0, o)
      requires Going(start, base, dryRun, after0, visited0, totals0)
      modifies this`target, this`rows
      ensures old(EmptyIntact()) ==> EmptyIntact()
      ensures if outcome == Done then Going(start, base, dryRun, after, visited, totals)
              else At(start, base, dryRun, after, visited, totals)
      ensures outcome == Aborted ==> !dryRun && Uncopyable(start, base)
      ensures outcome == Done ==> after == o.key && after in KeysOn(start, from)
      ensures EnoughTicks(start, after0, ticks0) ==> outcome != Stopped && EnoughTicks(start, after, ticks)
      ensures old(Ready(start, after0)) ==> outcome != Aborted && Ready(start, after)
    {
      after, ticks, totals, visited := after0, ticks0, totals0, visited0;
      outcome := VisitObject(start, base, o, dryRun, after, ticks, totals, visited);
      if EnoughTicks(start, after0, ticks0) {
        TicksLeft(start, after0, o.key, ticks0);
      }
      if outcome == Done {
        ticks := if ticks < 2 then 0 else ticks - 2;
        totals := Totals(totals.objects + 1, totals.locations + o.locations, totals.bytes + o.size);
        visited := visited + [o.key];
        after := o.key;
      }
    }

    /** The inner loop over one page. */
    method RunPage(ghost start: Rows, ghost base: map<Key, Bytes>, page: seq<Object>, dryRun: bool,
                   after0: int, ticks0: nat, totals0: Totals, ghost visited0: seq<Key>)
      returns (outcome: Outcome, after: int, ticks: nat, totals: Totals, ghost visited: seq<Key>)
      requires from != to && page != [] && IsPage(start, from, after0, page)
      requires Going(start, base, dryRun, after0, visited0, totals0)
      modifies this`target, this`rows
      ensures old(EmptyIntact()) ==> EmptyIntact()
      ensures if outcome == Done then Going(start, base, dryRun, after, visited, totals)
              else At(start, base, dryRun, after, visited, totals)
      ensures outcome == Aborted ==> !dryRun && Uncopyable(start, base)
      ensures outcome == Done ==> after0 < after && after in KeysOn(start, from)
      ensures EnoughTicks(start, after0, ticks0) ==> outcome != Stopped && EnoughTicks(start, after, ticks)
      ensures old(Ready(start, after0)) ==> outcome != Aborted && Ready(start, after)
    {
      outcome, after, ticks, totals, visited := Done, after0, ticks0, totals0, visited0;
      ghost var intact, enough, ready := EmptyIntact(), EnoughTicks(start, after0, ticks0), Ready(start, after0);
      for i := 0 to |page|
        invariant outcome == Done && (intact ==> EmptyIntact())
        invariant after == if i == 0 then after0 else page[i - 1].key
        invariant Going(start, base, dryRun, after, visited, totals)
        invariant i > 0 ==> after0 < after && after in KeysOn(start, from)
        invariant enough ==> EnoughTicks(start, after, ticks)
        invariant ready ==> Ready(start, after)
      {
        LeastAhead(start, from, after0, page, i);
        outcome, after, ticks, totals, visited :=
          VisitNext(start, base, page[i], dryRun, after, ticks, totals, visited);
        if outcome != Done {
          return;
        }
      }
    }

    lemma CursorMoves(start: Rows, before: int, after: int)
      requires before < after && after in KeysOn(start, from)
      ensures KeysAfter(start, from, after) < KeysAfter(start, from, before)
    {
      assert after in KeysAfter(start, from, before) && after !in KeysAfter(start, from, after);
    }

    lemma AllCopyable(start: Rows, base: map<Key, Bytes>, dryRun: bool, after: int, visited: seq<Key>, totals: Totals)
      requires At(start, base, dryRun, after, visited, totals) && Clean(start, base, dryRun, after)
      requires forall k :: k in KeysOn(start, from) ==> k in visited
      ensures !dryRun ==> !Uncopyable(start, base)
    {
      forall o | Describes(start, from, o)
        ensures o.key <= after
      {
        assert o.key in visited;
      }
    }

    /** Every moved label names verified bytes, and no truthful label has become untruthful. */
    ghost predicate Unspoiled(start: Rows, base: map<Key, Bytes>)
      reads this
      requires start.Keys == rows.Keys
    {
      && (forall loc :: loc in rows && rows[loc].backend != start[loc].backend ==> Verified(digest, target, rows[loc]))
      && (forall loc :: loc in rows && Truthful(digest, start[loc], from, source, base) ==>
            Truthful(digest, rows[loc], from, source, target))
    }

    /** What the end of a run says about the state it began in. */
    ghost predicate Verdict(start: Rows, base: map<Key, Bytes>, dryRun: bool, outcome: Outcome, visited: seq<Key>)
      reads this
    {
      match outcome
      case Done =>
        && (forall k :: k in KeysOn(start, from) ==> k in visited && Consistent(start, from, k))
        && (!dryRun ==> KeysOn(rows, from) == {} && !Uncopyable(start, base))
      case Stopped => true
      case Aborted =>
        || (exists k :: k in KeysOn(start, from) && !Consistent(start, from, k))
        || (!dryRun && Uncopyable(start, base))
    }

    /** One turn of the outer loop: the next page, or the end. */
    method NextPage(ghost start: Rows, ghost base: map<Key, Bytes>, dryRun: bool, batch: nat,
                    after0: int, ticks0: nat, totals0: Totals, ghost visited0: seq<Key>)
      returns (ended: bool, outcome: Outcome, after: int, ticks: nat, totals: Totals, ghost visited: seq<Key>)
      requires from != to && batch > 0
      requires Going(start, base, dryRun, after0, visited0, totals0)
      modifies this`target, this`rows
      ensures old(EmptyIntact()) ==> EmptyIntact()
      ensures At(start, base, dryRun, after, visited, totals)
      ensures ended ==> Verdict(start, base, dryRun, outcome, visited)
      ensures !ended ==> Clean(start, base, dryRun, after)
      ensures !ended ==> KeysAfter(start, from, after) < KeysAfter(start, from, after0)
      ensures EnoughTicks(start, after0, ticks0) ==> outcome != Stopped && EnoughTicks(start, after, ticks)
      ensures old(Ready(start, after0)) ==> Ready(start, after)
    {
      ended, outcome, after, ticks, totals, visited := true, Done, after0, ticks0, totals0, visited0;
      var ok, page := ListObjects(rows, from, after, batch);
      if !ok {
        BadAtStart(start, from, to, dryRun, after, visited, totals, rows);
        outcome := Aborted;
      } else if |page| == 0 {
        Finished(start, from, to, dryRun, after, visited, totals, rows);
        AllCopyable(start, base, dryRun, after, visited, totals);
      } else {
        PageAtStart(start, from, to, dryRun, after, visited, totals, rows, page);
        outcome, after, ticks, totals, visited := RunPage(start, base, page, dryRun, after, ticks, totals, visited);
        ended := outcome != Done;
        if !ended {
          CursorMoves(start, after0, after);
        }
      }
    }

    /** A run of the migration over any state of rows and stores. `stops` counts the ticks until the
        process is stopped. At whichever tick that is, only labels differ and every moved row has arrived;
        the visited keys are distinct, in increasing order and a prefix of the keys present at the start;
        only a finished run has emptied the source. A run ends early by itself only on inconsistent
        metadata or an object that is not copyable, and a real run never finishes over one. */
    method Run(dryRun: bool, batch: nat, stops: nat) returns (outcome: Outcome, totals: Totals, ghost visited: seq<Key>)
      requires from != to && batch > 0
      modifies this`target, this`rows
      ensures Grows(old(target), target) && (old(EmptyIntact()) ==> EmptyIntact())
      ensures Moved(digest, to, old(rows), rows, target)
      ensures old(EmptyIntact()) ==> Unspoiled(old(rows), old(target))
      ensures exists after :: Position(old(rows), from, to, dryRun, after, visited, totals, rows)
      ensures Verdict(old(rows), old(target), dryRun, outcome, visited)
      ensures dryRun ==> rows == old(rows) && target == old(target)
      ensures stops >= 2 * |KeysOn(old(rows), from)| ==>
                (outcome == Done <==>
                 (forall k :: k in KeysOn(old(rows), from) ==> Consistent(old(rows), from, k)) &&
                 (dryRun || !old(Uncopyable(rows, target))))
      ensures old(Fit()) ==> Fit()
    {
      ghost var start, base, fit, intact := rows, target, Fit(), EmptyIntact();
      ghost var after;
      outcome, totals, visited, after := RunPages(dryRun, batch, stops);
      RunEnds(start, base, dryRun, after, visited, totals, outcome, intact, fit);
    }

    /** What the loop leaves, said of the whole run. */
    lemma RunEnds(start: Rows, base: map<Key, Bytes>, dryRun: bool, after: int, visited: seq<Key>, totals: Totals,
                  outcome: Outcome, intact: bool, fit: bool)
      requires from != to && At(start, base, dryRun, after, visited, totals)
      requires Verdict(start, base, dryRun, outcome, visited) && (intact ==> EmptyIntact())
      requires fit ==> (forall k :: k in KeysOn(start, from) ==> Consistent(start, from, k)) && !Uncopyable(start, base)
      requires fit ==> Ready(start, after)
      ensures outcome != Stopped ==>
                (outcome == Done <==>
                 (forall k :: k in KeysOn(start, from) ==> Consistent(start, from, k)) &&
                     (dryRun || !Uncopyable(start, base)))
      ensures start.Keys == rows.Keys && (intact ==> Unspoiled(start, base))
      ensures fit ==> Fit()
    {
      if intact {
        NoneSpoiled(digest, from, to, start, rows, source, base, target);
      }
      if fit && !dryRun {
        StaysFit(start, base, after, visited, totals);
      }
    }

    /** The outer loop. */
    method RunPages(dryRun: bool, batch: nat, stops: nat)
      returns (outcome: Outcome, totals: Totals, ghost visited: seq<Key>, ghost last: int)
      requires from != to && batch > 0
      modifies this`target, this`rows
      ensures old(EmptyIntact()) ==> EmptyIntact()
      ensures At(old(rows), old(target), dryRun, last, visited, totals)
      ensures Verdict(old(rows), old(target), dryRun, outcome, visited)
      ensures stops >= 2 * |KeysOn(old(rows), from)| ==> outcome != Stopped
      ensures old(Ready(rows, -1)) ==> Ready(old(rows), last)
    {
      ghost var start, base := rows, target;
      var after, ticks := -1, stops;
      outcome, totals, visited := Stopped, Totals(0, 0, 0), [];
      StartPosition(start, from, to, dryRun);
      assert KeysAfter(start, from, -1) == KeysOn(start, from);
      var ended := false;
      while !ended
        invariant old(EmptyIntact()) ==> EmptyIntact()
        invariant At(start, base, dryRun, after, visited, totals)
        invariant if ended then Verdict(start, base, dryRun, outcome, visited) else Clean(start, base, dryRun, after)
        invariant EnoughTicks(start, -1, stops) ==> EnoughTicks(start, after, ticks) && (ended ==> outcome != Stopped)
        invariant old(Ready(rows, -1)) ==> Ready(start, after)
        decreases !ended, KeysAfter(start, from, after)
      {
        ended, outcome, after, ticks, totals, visited :=
          NextPage(start, base, dryRun, batch, after, ticks, totals, visited);
      }
      last := after;
    }

    /** The rows on the source describe objects that can all be copied. */
    ghost predicate Fit()
      reads this
    {
      (forall k :: k in KeysOn(rows, from) ==> Consistent(rows, from, k)) && !Uncopyable(rows, target)
    }

    lemma StaysFit(start: Rows, base: map<Key, Bytes>, after: int, visited: seq<Key>, totals: Totals)
      requires from != to && At(start, base, false, after, visited, totals) && Ready(start, after)
      requires forall k :: k in KeysOn(start, from) ==> Consistent(start, from, k)
      ensures Fit()
    {
      forall k | k in KeysOn(rows, from)
        ensures after < k && Consistent(rows, from, k)
      {
        RelabelledKeys(start, from, to, KeysUpTo(start, from, after));
        AheadUnchanged(start, from, to, false, after, visited, totals, rows, k);
      }
      forall o | Describes(rows, from, o)
        ensures Copyable(digest, to, source, target, o)
      {
        DescribedAlike(start, from, to, false, after, visited, totals, rows, o);
      }
    }

    /** One more run over rows that earlier runs left of `start`. */
    method RunAgain(ghost start: Rows, batch: nat, stops: nat) returns (outcome: Outcome)
      requires from != to && batch > 0 && Moved(digest, to, start, rows, target)
      modifies this`target, this`rows
      ensures Grows(old(target), target) && (old(EmptyIntact()) ==> EmptyIntact())
      ensures Moved(digest, to, start, rows, target)
      ensures outcome == Done ==> KeysOn(rows, from) == {}
      ensures old(Fit()) ==> Fit() && (stops >= 2 * |KeysOn(start, from)| ==> outcome == Done)
    {
      FewerKeys(start, rows);
      ghost var before, held := rows, target;
      var totals: Totals;
      ghost var visited: seq<Key>;
      outcome, totals, visited := Run(false, batch, stops);
      MovedTransitive(digest, to, start, before, rows, held, target);
    }

    /** Any sequence of runs, interrupted anywhere, whatever their page sizes and whatever the source
        holds: only labels differ, every moved row has arrived, and once the last run is done the source
        backend has no row left. With the empty object intact, every moved label is truthful and no
        truthful label became untruthful; so a state with truthful labels stays one. If the rows describe
        objects that can all be copied, a last run with two ticks for each of them finishes. */
    method RunRepeatedly(batches: seq<nat>, stops: seq<nat>) returns (last: Outcome)
      requires from != to && |batches| == |stops| && forall i :: 0 <= i < |batches| ==> batches[i] > 0
      modifies this`target, this`rows
      ensures Moved(digest, to, old(rows), rows, target)
      ensures last == Done ==> KeysOn(rows, from) == {}
      ensures old(EmptyIntact()) ==> Unspoiled(old(rows), old(target))
      ensures old(EmptyIntact() && Safe()) ==> Safe()
      ensures old(Fit()) && |stops| > 0 && stops[|stops| - 1] >= 2 * |KeysOn(old(rows), from)| ==> last == Done
    {
      last := Stopped;
      ghost var start, base, fit, intact := rows, target, Fit(), EmptyIntact();
      for i := 0 to |batches|
        invariant Grows(base, target) && (intact ==> EmptyIntact())
        invariant Moved(digest, to, start, rows, target)
        invariant last == Done ==> KeysOn(rows, from) == {}
        invariant fit ==> Fit()
        invariant fit && i > 0 && stops[i - 1] >= 2 * |KeysOn(start, from)| ==> last == Done
      {
        last := RunAgain(start, batches[i], stops[i]);
      }
      if intact {
        NoneSpoiled(digest, from, to, start, rows, source, base, target);
      }
    }
  }

  /** Only labels differ. */
  ghost predicate SameLocations(before: Rows, after: Rows) {
    before.Keys == after.Keys && forall loc :: loc in before ==>
        after[loc] == before[loc].(backend := after[loc].backend)
  }

  /** A finished dry run and a finished real run of the same rows visited the same keys in the same
      order and report the same totals. */
  lemma DryRunReportsSame(start: Rows, from: Backend, to: Backend,
                          a: int, dry: seq<Key>, dryTotals: Totals, dryRows: Rows,
                          b: int, moved: seq<Key>, movedTotals: Totals, movedRows: Rows)
    requires Position(start, from, to, true, a, dry, dryTotals, dryRows) &&
              (forall k :: k in KeysOn(start, from) ==> k in dry)
    requires Position(start, from, to, false, b, moved, movedTotals, movedRows) &&
              (forall k :: k in KeysOn(start, from) ==> k in moved)
    ensures dry == moved && dryTotals == movedTotals
  {
    ListingUnique(dry, moved);
  }

  // ---- The startup gate ---------------------------------------------------------------------

  function LocationsOn(rows: Rows, b: Backend): set<nat> {
    set loc | loc in rows && rows[loc].backend == b
  }

  /** FileBlobBackendCounts. */
  function Counts(rows: Rows): map<Backend, nat> {
    map b | b in {LocalFS, S3} && LocationsOn(rows, b) != {} :: |LocationsOn(rows, b)|
  }

  /** requireConfiguredBlobBackend: collect the other backends that still have rows. */
  method RequireConfiguredBackend(counts: map<Backend, nat>, configured: Backend)
    returns (mismatches: map<Backend, nat>)
    ensures mismatches == map b | b in counts && counts[b] > 0 && b != configured :: counts[b]
  {
    mismatches := map[];
    var todo := counts.Keys;
    while todo != {}
      invariant todo <= counts.Keys
      invariant mismatches == map b | b in counts && b !in todo && counts[b] > 0 && b != configured :: counts[b]
      decreases todo
    {
      var b := Pick(todo);
      if counts[b] > 0 && b != configured {
        mismatches := mismatches[b := counts[b]];
      }
      todo := todo - {b};
    }
  }

  /** The gate opens for the destination exactly when the migration has emptied the source, and
      until then for neither backend once both have rows. */
  method GateAgreesWithMigration(rows: Rows, from: Backend, to: Backend) returns (forTo: bool, forFrom: bool)
    requires from != to
    ensures forTo <==> KeysOn(rows, from) == {}
    ensures forFrom <==> KeysOn(rows, to) == {}
  {
    var other := RequireConfiguredBackend(Counts(rows), to);
    var own := RequireConfiguredBackend(Counts(rows), from);
    forTo, forFrom := other == map[], own == map[];
    CountedIffPresent(rows, from);
    CountedIffPresent(rows, to);
    assert forTo <==> from !in other;
    assert forFrom <==> to !in own;
  }

  lemma CountedIffPresent(rows: Rows, b: Backend)
    ensures b in Counts(rows) <==> KeysOn(rows, b) != {}
    ensures b in Counts(rows) ==> Counts(rows)[b] > 0
  {
    if b in Counts(rows) {
      assert exists loc :: loc in LocationsOn(rows, b) by {
        NonEmptyHasMember(LocationsOn(rows, b));
      }
      var loc :| loc in LocationsOn(rows, b);
      assert rows[loc].key in KeysOn(rows, b);
    }
    if KeysOn(rows, b) != {} {
      NonEmptyHasMember(KeysOn(rows, b));
      var k :| k in KeysOn(rows, b);
      var loc :| loc in rows && rows[loc].backend == b && rows[loc].key == k;
      assert loc in LocationsOn(rows, b);
    }
  }
}
