/** The chunked range reader of the blob migration, and the copy loop over it. */
module RangeReader {

  type Bytes = seq<bv8>

  /** A content-addressed object key: the digest read as a number, ordered as its hex text. */
  type Key = nat

  const READ_CHUNK := 4 * 1024 * 1024

  datatype Range = Range(start: nat, length: nat)

  datatype ReadStatus = More | Eof | Failed

  /** The slice a backend returns for [offset, offset + limit): what there is of it, or all the rest when
      no limit is given. */
  function GetRange(bytes: Bytes, offset: nat, limit: nat): (r: Bytes)
    ensures offset <= |bytes| ==> offset + |r| <= |bytes| && r == bytes[offset..offset + |r|]
    ensures offset <= |bytes| && 0 < limit ==> |r| == if offset + limit <= |bytes| then limit else |bytes| - offset
    ensures offset <= |bytes| && limit == 0 ==> |r| == |bytes| - offset
    ensures offset > |bytes| ==> r == []
  {
    if offset >= |bytes| then []
    else if 0 < limit < |bytes| - offset then bytes[offset..offset + limit]
    else bytes[offset..]
  }

  /** Fetched ranges that follow each other from zero without gap or overlap. */
  ghost predicate Contiguous(fetched: seq<Range>, end: nat) {
    if fetched == [] then end == 0
    else
      var last := fetched[|fetched| - 1];
      && 0 < last.length <= 4_194_304
      && last.start + last.length == end
      && Contiguous(fetched[..|fetched| - 1], last.start)
  }

  class Reader {
    const store: map<Key, Bytes>
    const key: Key
    const total: nat
    var offset: nat
    var buffer: Bytes
    /** The ranges asked of the backend so far. */
    ghost var fetched: seq<Range>

    constructor (store: map<Key, Bytes>, key: Key, total: nat)
      ensures this.store == store && this.key == key && this.total == total
      ensures Valid() && offset == 0 && fetched == []
    {
      this.store, this.key, this.total := store, key, total;
      offset, buffer, fetched := 0, [], [];
    }

    /** The backend holds the object with the size the metadata claims. */
    ghost predicate Sound() {
      key in store && |store[key]| == total
    }

    ghost predicate Valid()
      reads this
    {
      && offset + |buffer| <= total
      && (offset + |buffer| > 0 ==> Sound() && buffer == store[key][offset..offset + |buffer|])
      && Contiguous(fetched, offset + |buffer|)
    }

    /** Refill an empty buffer with the next chunk. */
    method Fill() returns (status: ReadStatus)
      requires Valid() && buffer == []
      modifies this`buffer, this`fetched
      ensures Valid()
      ensures status == Eof <==> offset == total
      ensures status == Failed <==> offset < total && !Sound()
      ensures status != More ==> buffer == [] && fetched == old(fetched)
      ensures status == More ==> buffer != [] && fetched == old(fetched) + [Range(offset, |buffer|)]
      ensures status == More ==> |buffer| == if total - offset < 4_194_304 then total - offset else 4_194_304
    {
      if offset >= total {
        return Eof;
      }
      var limit := if total - offset < READ_CHUNK then total - offset else READ_CHUNK;
      if key !in store {
        return Failed;
      }
      var chunk := GetRange(store[key], offset, limit);
      if |store[key]| != total || |chunk| != limit {
        return Failed;
      }
      buffer := chunk;
      fetched := fetched + [Range(offset, limit)];
      assert fetched[..|fetched| - 1] == old(fetched);
      status := More;
    }

    /** Hand out up to n buffered bytes. */
    method Take(n: nat) returns (data: Bytes)
      requires Valid() && buffer != [] && n > 0
      modifies this`buffer, this`offset
      ensures Valid() && Sound()
      ensures 0 < |data| <= n && offset == old(offset) + |data| <= total && data == store[key][old(offset)..offset]
      ensures |data| == n || buffer == []
    {
      var m := if n < |buffer| then n else |buffer|;
      ghost var end := offset + |buffer|;
      data := buffer[..m];
      buffer := buffer[m..];
      offset := offset + m;
      assert data == store[key][old(offset)..offset];
      assert buffer == store[key][offset..end];
    }

    /** One Read into a buffer of n bytes. */
    method Read(n: nat) returns (data: Bytes, status: ReadStatus)
      requires Valid()
      modifies this
      ensures Valid() && old(fetched) <= fetched && |fetched| <= |old(fetched)| + 1
      ensures n == 0 ==> data == [] && status == More && offset == old(offset)
      ensures n > 0 ==> (status == Eof <==> old(offset) == total)
      ensures n > 0 ==> (status == Failed <==> old(offset) < total && !Sound())
      ensures status != More ==> data == [] && offset == old(offset)
      ensures old(buffer) != [] || n == 0 ==> fetched == old(fetched)
      ensures status == More && n > 0 ==> |data| == n || buffer == []
      ensures status == More && n > 0 && old(buffer) == [] ==>
                fetched == old(fetched) +
                  [Range(old(offset), if total - old(offset) < 4_194_304 then total - old(offset) else 4_194_304)]
      ensures status == More && n > 0 ==>
                0 < |data| <= n && offset == old(offset) + |data| <= total && Sound() &&
                    data == store[key][old(offset)..offset]
    {
      if n == 0 {
        return [], More;
      }
      if |buffer| == 0 {
        status := Fill();
        if status != More {
          return [], status;
        }
      }
      data := Take(n);
      status := More;
    }
  }

  /** Reads with any sequence of buffer sizes: what came out is the object's prefix, byte for byte;
      once there were more reads than bytes, it is the whole object followed by EOF. */
  method ReadInTurn(r: Reader, sizes: seq<nat>) returns (data: Bytes, status: ReadStatus)
    requires r.Valid() && r.offset == 0 && r.fetched == []
    requires forall i :: 0 <= i < |sizes| ==> sizes[i] > 0
    modifies r
    ensures r.Valid() && |data| == r.offset
    ensures |data| > 0 ==> r.Sound() && data == r.store[r.key][..r.offset]
    ensures r.Sound() && |sizes| > r.total ==> status == Eof && data == r.store[r.key]
    ensures !r.Sound() && r.total > 0 ==> data == [] && (sizes != [] ==> status == Failed)
  {
    data, status := [], More;
    for i := 0 to |sizes|
      invariant r.Valid() && |data| == r.offset
      invariant |data| > 0 ==> r.Sound() && data == r.store[r.key][..r.offset]
      invariant r.Sound() ==> status != Failed && (status == Eof ==> r.offset == r.total)
      invariant r.Sound() && status == More ==> r.offset >= i
      invariant !r.Sound() && r.total > 0 ==> data == [] && (i > 0 ==> status == Failed)
    {
      var part: Bytes;
      part, status := r.Read(sizes[i]);
      data := data + part;
      if status == Eof {
        assert r.Sound() && r.total > 0 ==> data == r.store[r.key];
        return;
      }
    }
  }

  /** io.Copy: read until EOF or failure. */
  method CopyAll(r: Reader, size: nat) returns (ok: bool, data: Bytes)
    requires r.Valid() && r.offset == 0 && r.fetched == [] && size > 0
    modifies r
    ensures ok <==> r.Sound() || r.total == 0
    ensures ok ==> |data| == r.total && (r.total > 0 ==> data == r.store[r.key])
    ensures ok ==> r.Valid() && Contiguous(r.fetched, r.total)
  {
    data := [];
    while true
      invariant r.Valid() && |data| == r.offset
      invariant |data| > 0 ==> r.Sound() && data == r.store[r.key][..r.offset]
      decreases r.total - r.offset
    {
      var part, status := r.Read(size);
      if status == Failed {
        return false, data;
      }
      if status == Eof {
        return true, data;
      }
      data := data + part;
    }
  }

  /** equalBytes: accumulate the differences, no early exit. */
  method EqualBytes(a: Bytes, b: Bytes) returns (same: bool)
    ensures same <==> a == b
  {
    if |a| != |b| {
      return false;
    }
    var different: bv8 := 0;
    for i := 0 to |a|
      invariant different == 0 <==> a[..i] == b[..i]
    {
      DifferenceKept(different, a[i], b[i]);
      assert a[..i + 1] == a[..i] + [a[i]] && b[..i + 1] == b[..i] + [b[i]];
      different := different | (a[i] ^ b[i]);
    }
    assert a[..|a|] == a && b[..|b|] == b;
    same := different == 0;
  }

  lemma DifferenceKept(d: bv8, x: bv8, y: bv8)
    ensures d | (x ^ y) == 0 <==> d == 0 && x == y
  {
  }
}
