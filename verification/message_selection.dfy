/** Which messages a delete command names: the normalised id list that is journalled, and its split
    into messages found and missing. */
module MessageSelection {
  import opened Common

  const MAX_IDS := 1000
  const MAX_ID := 0x7fff_ffff

  /** One to a thousand ids, each a positive 32-bit number. */
  predicate ValidIds(ids: seq<int>) {
    1 <= |ids| <= 1000 && forall i :: 0 <= i < |ids| ==> 1 <= ids[i] <= 2_147_483_647
  }

  /** sort.Ints on a list without duplicates. */
  function Insert(s: seq<int>, x: int): (r: seq<int>)
    requires StrictlyIncreasing(s) && x !in s
    ensures StrictlyIncreasing(r) && forall y :: y in r <==> y == x || y in s
  {
    if s == [] then [x]
    else if x < s[0] then [x] + s
    else
      var r := [s[0]] + Insert(s[1..], x);
      assert forall i :: 0 < i < |r| ==> r[i] in Insert(s[1..], x);
      assert forall y :: y in s <==> y == s[0] || y in s[1..] by {
        assert s == [s[0]] + s[1..];
      }
      r
  }

  method SortInts(s: seq<int>) returns (r: seq<int>)
    requires forall i, j :: 0 <= i < j < |s| ==> s[i] != s[j]
    ensures StrictlyIncreasing(r) && forall y :: y in r <==> y in s
  {
    r := [];
    for i := 0 to |s|
      invariant StrictlyIncreasing(r) && forall y :: y in r <==> y in s[..i]
    {
      assert s[..i + 1] == s[..i] + [s[i]];
      r := Insert(r, s[i]);
    }
    assert s[..|s|] == s;
  }

  /** normalizeIDs: refuses an empty, overlong or invalid list; otherwise lists the ids once each, in
      increasing order. */
  method NormalizeIds(ids: seq<int>) returns (r: Result<seq<int>>)
    ensures r.Ok? <==> ValidIds(ids)
    ensures r.Ok? ==> StrictlyIncreasing(r.value) && forall x :: x in r.value <==> x in ids
  {
    if |ids| == 0 {
      return Err("message id invalid");
    }
    if |ids| > MAX_IDS {
      return Err("too many ids");
    }
    var seen: set<int> := {};
    var out: seq<int> := [];
    for k := 0 to |ids|
      invariant forall x :: x in out <==> x in ids[..k]
      invariant forall x :: x in out <==> x in seen
      invariant forall i, j :: 0 <= i < j < |out| ==> out[i] != out[j]
      invariant forall i :: 0 <= i < k ==> 0 < ids[i] <= MAX_ID
    {
      var id := ids[k];
      if id <= 0 || id > MAX_ID {
        return Err("message id invalid");
      }
      assert ids[..k + 1] == ids[..k] + [id];
      if id in seen {
        continue;
      }
      seen, out := seen + {id}, out + [id];
    }
    assert ids[..|ids|] == ids;
    out := SortInts(out);
    r := Ok(out);
  }

  /** A retry that lists the same messages in another order, or some of them twice, journals the same
      ids, so it replays instead of conflicting. */
  method NormalizeRetry(first: seq<int>, retry: seq<int>) returns (a: Result<seq<int>>, b: Result<seq<int>>)
    requires ValidIds(first) && ValidIds(retry)
    ensures a.Ok? && b.Ok?
    ensures a == b <==> forall x :: x in first <==> x in retry
  {
    a := NormalizeIds(first);
    b := NormalizeIds(retry);
    if forall x :: x in first <==> x in retry {
      ListingUnique(a.value, b.value);
    }
  }

  // ---- Found and missing ------------------------------------------------------------------

  datatype Message = Message(id: int, owner: int, toUser: bool, peer: int)

  /** The ids of a list that are in a set, or those that are not, in order. */
  function Select(ids: seq<int>, s: set<int>, inside: bool): seq<int> {
    if ids == [] then []
    else Select(ids[..|ids| - 1], s, inside) + if (ids[|ids| - 1] in s) == inside then [ids[|ids| - 1]] else []
  }

  /** validatePrivateMessageSelection: refused exactly if a message belongs to another dialog; otherwise
      found and missing split the ids in order. */
  method ValidateSelection(owner: int, peer: int, ids: seq<int>, messages: seq<Message>)
    returns (r: Result<(seq<int>, seq<int>)>)
    ensures r.Ok? <==> forall i :: 0 <= i < |messages| ==>
              messages[i].owner == owner && messages[i].toUser && messages[i].peer == peer
    ensures r.Ok? ==> var present := set m | m in messages :: m.id;
                      r.value == (Select(ids, present, true), Select(ids, present, false))
  {
    var found: set<int> := {};
    for i := 0 to |messages|
      invariant found == set m | m in messages[..i] :: m.id
      invariant forall j :: 0 <= j < i ==>
                  messages[j].owner == owner && messages[j].toUser && messages[j].peer == peer
    {
      assert messages[..i + 1] == messages[..i] + [messages[i]];
      found := found + {messages[i].id};
      if messages[i].owner != owner || !messages[i].toUser || messages[i].peer != peer {
        return Err("message id invalid");
      }
    }
    assert messages[..|messages|] == messages;
    var here, missing: seq<int> := [], [];
    for i := 0 to |ids|
      invariant here == Select(ids[..i], found, true)
      invariant missing == Select(ids[..i], found, false)
    {
      assert ids[..i + 1][..i] == ids[..i];
      if ids[i] in found {
        here := here + [ids[i]];
        continue;
      }
      missing := missing + [ids[i]];
    }
    assert ids[..|ids|] == ids;
    r := Ok((here, missing));
  }

  /** The two halves hold every id exactly once, each in increasing order. */
  lemma {:induction false} SelectExact(ids: seq<int>, s: set<int>, inside: bool)
    requires StrictlyIncreasing(ids)
    ensures StrictlyIncreasing(Select(ids, s, inside))
    ensures forall x :: x in Select(ids, s, inside) <==> x in ids && (x in s <==> inside)
  {
    if ids != [] {
      var n := |ids| - 1;
      SelectExact(ids[..n], s, inside);
      assert ids == ids[..n] + [ids[n]];
      var rest := Select(ids[..n], s, inside);
      assert forall i :: 0 <= i < |rest| ==> rest[i] in rest;
      assert forall x :: x in ids[..n] ==> x < ids[n];
    }
  }
}
