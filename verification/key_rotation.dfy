/** Signing and code key rotation as a machine over time: which keys the manifest lists, which are
    active, and until when a retired public key stays published. Times are nanoseconds. */
module KeyRotation {
  import opened Common

  const SECOND := 1_000_000_000
  const MINUTE := 60 * SECOND
  const HOUR := 60 * MINUTE
  const MARGIN := 10 * MINUTE
  const MAX_KEYS := 32
  const MAX_CODE_KEYS := 16

  datatype Algorithm = RS256 | ES256 | EdDSA | ES256K

  /** A manifest entry; key ids stand for themselves and are drawn fresh. */
  datatype Key = Key(algorithm: Algorithm, kid: nat, active: bool, publishUntil: Option<int>)

  /** The keygen's own algorithms, in the order init generates them. */
  predicate Supported(a: Algorithm) {
    a == RS256 || a == ES256 || a == EdDSA
  }

  /** Formatting as RFC 3339 drops the fraction of a second. */
  function Rfc3339(t: int): int {
    t - t % SECOND
  }

  // ---- The command line -------------------------------------------------------------------

  function Upper(c: char): char {
    if 'a' <= c <= 'z' then (c as int - 32) as char else c
  }

  function ToUpper(s: string): string {
    seq(|s|, i requires 0 <= i < |s| => Upper(s[i]))
  }

  /** The -algorithm flag: trimmed, upper-cased, then compared with the algorithms' names. */
  function ParseAlgorithm(flag: string): Option<Algorithm> {
    var name := ToUpper(TrimSpace(flag));
    if name == "RS256" then Some(RS256)
    else if name == "ES256" then Some(ES256)
    else if name == "EdDSA" then Some(EdDSA)
    else if name == "ES256K" then Some(ES256K)
    else None
  }

  /** Upper-casing makes the name EdDSA unreachable: no flag value selects that algorithm. */
  lemma FlagNeverSelectsEdDSA(flag: string)
    ensures ParseAlgorithm(flag) != Some(EdDSA)
  {
    var name := ToUpper(TrimSpace(flag));
    if |name| > 1 {
      assert name[1] == Upper(TrimSpace(flag)[1]) != 'd';
    }
  }

  predicate Is(c: char, lower: char, upper: char) {
    c == lower || c == upper
  }

  /** The flag in any case and with space around it selects the algorithm it names. */
  lemma FlagSelects(flag: string)
    ensures var t := TrimSpace(flag);
            && (ParseAlgorithm(flag) == Some(RS256) <==>
                |t| == 5 && Is(t[0], 'r', 'R') && Is(t[1], 's', 'S') && t[2..] == "256")
            && (ParseAlgorithm(flag) == Some(ES256) <==>
                |t| == 5 && Is(t[0], 'e', 'E') && Is(t[1], 's', 'S') && t[2..] == "256")
            && (ParseAlgorithm(flag) == Some(ES256K) <==>
                |t| == 6 && Is(t[0], 'e', 'E') && Is(t[1], 's', 'S') && t[2..5] == "256" && Is(t[5], 'k', 'K'))
  {
    var t := TrimSpace(flag);
    var name := ToUpper(t);
    assert forall i :: 0 <= i < |t| ==> name[i] == Upper(t[i]);
    FlagNeverSelectsEdDSA(flag);
    Spelled(t, name);
  }

  lemma Spelled(t: string, name: string)
    requires |name| == |t| && forall i :: 0 <= i < |t| ==> name[i] == Upper(t[i])
    ensures name == "RS256" <==> |t| == 5 && Is(t[0], 'r', 'R') && Is(t[1], 's', 'S') && t[2..] == "256"
    ensures name == "ES256" <==> |t| == 5 && Is(t[0], 'e', 'E') && Is(t[1], 's', 'S') && t[2..] == "256"
    ensures name == "ES256K" <==>
              |t| == 6 && Is(t[0], 'e', 'E') && Is(t[1], 's', 'S') && t[2..5] == "256" && Is(t[5], 'k', 'K')
  {
    if |t| == 5 {
      assert t[2..] == "256" <==> t[2] == '2' && t[3] == '5' && t[4] == '6';
      assert name == "RS256" <==>
          name[0] == 'R' && name[1] == 'S' && name[2] == '2' && name[3] == '5' && name[4] == '6';
      assert name == "ES256" <==>
          name[0] == 'E' && name[1] == 'S' && name[2] == '2' && name[3] == '5' && name[4] == '6';
    } else if |t| == 6 {
      assert t[2..5] == "256" <==> t[2] == '2' && t[3] == '5' && t[4] == '6';
      assert name == "ES256K" <==>
        name[0] == 'E' && name[1] == 'S' && name[2] == '2' && name[3] == '5' && name[4] == '6' && name[5] == 'K';
    }
  }

  // ---- Rotation ---------------------------------------------------------------------------

  /** An entry that a rotation at `now` drops: retired and no longer published. */
  predicate Dropped(k: Key, now: int) {
    !k.active && k.publishUntil.Some? && k.publishUntil.value <= now
  }

  /** What a rotation does to an entry it keeps. */
  function Retired(k: Key, algorithm: Algorithm, until: int): Key {
    if k.algorithm == algorithm && k.active then k.(active := false, publishUntil := Some(until)) else k
  }

  /** The entries a rotation keeps, in order. */
  function Keep(keys: seq<Key>, algorithm: Algorithm, until: int, now: int): seq<Key> {
    if keys == [] then []
    else
      var n := |keys| - 1;
      Keep(keys[..n], algorithm, until, now) +
      if Dropped(keys[n], now) then [] else [Retired(keys[n], algorithm, until)]
  }

  ghost predicate ActiveAt(keys: seq<Key>, i: int, algorithm: Algorithm) {
    0 <= i < |keys| && keys[i].active && keys[i].algorithm == algorithm
  }

  predicate OneActiveEach(keys: seq<Key>) {
    forall i, j :: 0 <= i < j < |keys| && keys[i].active && keys[j].active ==> keys[i].algorithm != keys[j].algorithm
  }

  predicate DistinctKids(keys: seq<Key>) {
    forall i, j :: 0 <= i < j < |keys| ==> keys[i].kid != keys[j].kid
  }

  /** What the loader demands of a manifest before it may replace the old one. */
  predicate Loadable(keys: seq<Key>) {
    && 0 < |keys| <= MAX_KEYS
    && (forall i :: 0 <= i < |keys| ==> (keys[i].active <==> keys[i].publishUntil.None?))
    && DistinctKids(keys)
    && OneActiveEach(keys)
    && exists i :: 0 <= i < |keys| && keys[i].active
  }

  /** Exactly one position holds an active key of the algorithm. */
  ghost predicate OneActive(keys: seq<Key>, algorithm: Algorithm) {
    && (exists i :: ActiveAt(keys, i, algorithm))
    && forall i, j :: ActiveAt(keys, i, algorithm) && ActiveAt(keys, j, algorithm) ==> i == j
  }

  /** The loader's demands, said of the entries: one to 32 of them, no key id twice, a deadline exactly on
      the retired ones, of each algorithm at most one active, and some active one. */
  lemma LoadableExactly(keys: seq<Key>)
    ensures Loadable(keys) <==>
              && 1 <= |keys| <= 32
              && (forall k :: k in keys ==> (k.active <==> k.publishUntil == None))
              && !(exists i, j :: 0 <= i < |keys| && 0 <= j < |keys| && i != j && keys[i].kid == keys[j].kid)
              && (forall j, k :: j in keys && k in keys && j.active && k.active && j.algorithm == k.algorithm ==>
                  j.kid == k.kid)
              && (exists k :: k in keys && k.active)
  {
    if Loadable(keys) {
      forall j, k | j in keys && k in keys && j.active && k.active && j.algorithm == k.algorithm
        ensures j.kid == k.kid
      {
        var a :| 0 <= a < |keys| && keys[a] == j;
        var b :| 0 <= b < |keys| && keys[b] == k;
        assert !(a < b) && !(b < a);
      }
      var i :| 0 <= i < |keys| && keys[i].active;
      assert keys[i] in keys;
    } else {
      assert forall i :: 0 <= i < |keys| ==> keys[i] in keys;
    }
  }

  /** The manifest a rotation writes. */
  function Rotated(keys: seq<Key>, algorithm: Algorithm, publishFor: int, now: int, kid: nat): seq<Key> {
    Keep(keys, algorithm, Rfc3339(now + publishFor), now) + [Key(algorithm, kid, true, None)]
  }

  /** rotateSigning: drop what is no longer published, retire the one active key, append a new one,
      and replace the manifest only if it loads. */
  method RotateSigning(version: int, keys: seq<Key>, algorithm: Algorithm, publishFor: int, now: int, kid: nat)
    returns (r: Result<seq<Key>>)
    ensures r.Ok? <==>
              && algorithm != ES256K && version == 1 && 1 <= |keys| <= 31
              && OneActive(keys, algorithm)
              && Loadable(Rotated(keys, algorithm, publishFor, now, kid))
    ensures r.Ok? ==> r.value == Rotated(keys, algorithm, publishFor, now, kid)
  {
    if !Supported(algorithm) {
      return Err("default keygen supports RS256, ES256, and EdDSA");
    }
    if version != 1 || |keys| == 0 || |keys| >= MAX_KEYS {
      return Err("signing manifest version or key count is invalid");
    }
    var foundActive := false;
    var kept: seq<Key> := [];
    ghost var at := -1;
    for i := 0 to |keys|
      invariant kept == Keep(keys[..i], algorithm, Rfc3339(now + publishFor), now)
      invariant foundActive ==> at < i && ActiveAt(keys, at, algorithm)
      invariant forall j :: j < i && ActiveAt(keys, j, algorithm) ==> foundActive && j == at
    {
      var key := keys[i];
      assert keys[..i + 1][..i] == keys[..i];
      if key.active || key.publishUntil.None? || now < key.publishUntil.value {
        if key.algorithm == algorithm && key.active {
          assert ActiveAt(keys, i, algorithm);
          if foundActive {
            return Err("multiple active keys");
          }
          foundActive, at := true, i;
          key := key.(active := false, publishUntil := Some(Rfc3339(now + publishFor)));
        }
        kept := kept + [key];
      }
    }
    assert keys[..|keys|] == keys;
    if !foundActive {
      return Err("no active key to rotate");
    }
    kept := kept + [Key(algorithm, kid, true, None)];
    if !Loadable(kept) {
      return Err("validate generated manifest");
    }
    r := Ok(kept);
  }

  /** The code-key manifest: sealing uses the active key, opening may need any listed key. */
  datatype CodeManifest = CodeManifest(version: int, active: Option<nat>, keys: map<nat, int>)

  /** rotateCode: adds a key and makes it active, up to sixteen keys; nothing is ever removed. */
  method RotateCode(manifest: CodeManifest, kid: nat, secret: int) returns (r: Result<CodeManifest>)
    requires kid !in manifest.keys
    ensures r.Ok? <==> manifest.version == 1 && manifest.active.Some? && 1 <= |manifest.keys| <= 15
    ensures r.Ok? ==> r.value.version == 1 && r.value.active == Some(kid) && |r.value.keys| == |manifest.keys| + 1
    ensures r.Ok? ==> kid in r.value.keys && r.value.keys[kid] == secret
    ensures r.Ok? ==> forall k :: k in manifest.keys ==> k in r.value.keys && r.value.keys[k] == manifest.keys[k]
  {
    if manifest.version != 1 || manifest.active.None? || |manifest.keys| == 0 || |manifest.keys| >= MAX_CODE_KEYS {
      return Err("code-key manifest is invalid or at its 16-key safety limit");
    }
    var keys := manifest.keys[kid := secret];
    assert keys.Keys == manifest.keys.Keys + {kid};
    r := Ok(manifest.(active := Some(kid), keys := keys));
  }

  // ---- The machine over time --------------------------------------------------------------

  /** `code` is None when init stopped after the signing manifest was written. */
  datatype Op =
    | Init(now: int, rs: nat, es: nat, ed: nat, code: Option<nat>)
    | Rotate(now: int, algorithm: Algorithm, publishFor: int, tokenTtl: int, kid: nat)
    | NewCode(now: int, kid: nat)

  /** When a key was retired, until when it is published, and the token lifetime stated then. */
  datatype Retirement = Retirement(at: int, until: int, tokenTtl: int)

  datatype State = State(keys: seq<Key>, retired: map<nat, Retirement>, used: set<nat>, codes: set<nat>,
      code: Option<nat>, now: int)

  function Empty(start: int): State {
    State([], map[], {}, {}, None, start)
  }

  /** The duration checks of `run`. */
  predicate DurationsOk(publishFor: int, tokenTtl: int) {
    MINUTE <= tokenTtl <= 24 * HOUR && tokenTtl + MARGIN <= publishFor <= 90 * 24 * HOUR
  }

  /** A lifetime of a minute to a day, and publishing for ten minutes more, up to ninety days. */
  lemma DurationsExact(publishFor: int, tokenTtl: int)
    ensures DurationsOk(publishFor, tokenTtl) <==>
              && 60 * 1_000_000_000 <= tokenTtl <= 86_400 * 1_000_000_000
              && tokenTtl + 600 * 1_000_000_000 <= publishFor <= 7_776_000 * 1_000_000_000
  {
  }

  /** The active key of the algorithm, looked for from the end. */
  function ActiveKid(keys: seq<Key>, algorithm: Algorithm): Option<nat> {
    if keys == [] then None
    else if keys[|keys| - 1].active && keys[|keys| - 1].algorithm == algorithm then Some(keys[|keys| - 1].kid)
    else ActiveKid(keys[..|keys| - 1], algorithm)
  }

  /** An op that may happen next: the clock does not go back and new key ids are fresh. */
  predicate Admissible(s: State, op: Op) {
    && s.now <= op.now
    && match op
       case Init(_, a, b, c, code) =>
         && a != b && b != c && a != c && {a, b, c} !! s.used
         && (code.Some? ==> code.value !in s.codes)
       case Rotate(_, _, _, _, kid) => kid !in s.used
       case NewCode(_, kid) => kid !in s.codes
  }

  function Step(s: State, op: Op): State {
    if !Admissible(s, op) then s else
    match op
    case Init(now, a, b, c, code) =>
      if s.keys != [] || s.codes != {} then s
      else s.(keys := [Key(RS256, a, true, None), Key(ES256, b, true, None), Key(EdDSA, c, true, None)],
              used := s.used + {a, b, c},
              codes := if code.Some? then {code.value} else {},
              code := code,
              now := now)
    case Rotate(now, algorithm, publishFor, tokenTtl, kid) =>
      var active := ActiveKid(s.keys, algorithm);
      if !DurationsOk(publishFor, tokenTtl) || !Supported(algorithm) || |s.keys| == 0 || |s.keys| >= MAX_KEYS ||
          active.None? then s
      else
        s.(keys := Rotated(s.keys, algorithm, publishFor, now, kid),
           retired := s.retired[active.value := Retirement(now, Rfc3339(now + publishFor), tokenTtl)],
           used := s.used + {kid},
           now := now)
    case NewCode(now, kid) =>
      if s.code.None? || |s.codes| == 0 || |s.codes| >= MAX_CODE_KEYS then s
      else s.(codes := s.codes + {kid}, code := Some(kid), now := now)
  }

  function Run(start: int, ops: seq<Op>): State {
    if ops == [] then Empty(start) else Step(Run(start, ops[..|ops| - 1]), ops[|ops| - 1])
  }

  /** JWKS at time t: the entry is listed and active, or its deadline has not come. */
  ghost predicate Published(keys: seq<Key>, kid: nat, t: int) {
    exists k :: k in keys && k.kid == kid && (k.active || (k.publishUntil.Some? && t < k.publishUntil.value))
  }

  // ---- What Keep does ---------------------------------------------------------------------

  /** Every kept entry comes from an entry not dropped, and every entry not dropped is kept. */
  lemma {:induction false} KeepMembers(keys: seq<Key>, algorithm: Algorithm, until: int, now: int)
    ensures |Keep(keys, algorithm, until, now)| <= |keys|
    ensures forall k :: k in Keep(keys, algorithm, until, now) <==>
              exists x :: x in keys && !Dropped(x, now) && k == Retired(x, algorithm, until)
  {
    if keys != [] {
      var n := |keys| - 1;
      KeepMembers(keys[..n], algorithm, until, now);
      var last, rest, kept := keys[n], Keep(keys[..n], algorithm, until, now), Keep(keys, algorithm, until, now);
      assert forall x :: x in keys <==> x in keys[..n] || x == last by {
        assert keys == keys[..n] + [last];
      }
      forall k
        ensures k in kept <==> exists x :: x in keys && !Dropped(x, now) && k == Retired(x, algorithm, until)
      {
        assert k in kept <==> k in rest || (!Dropped(last, now) && k == Retired(last, algorithm, until));
      }
    }
  }

  /** The manifest a rotation writes, entry by entry: the new active key, and every old entry but the
      retired ones whose deadline is not after now, unchanged except that the algorithm's active keys are
      retired until now + publishFor, cut to the second. */
  lemma RotatedExactly(keys: seq<Key>, algorithm: Algorithm, publishFor: int, now: int, kid: nat, k: Key)
    ensures k in Rotated(keys, algorithm, publishFor, now, kid) <==>
              || k == Key(algorithm, kid, true, None)
              || exists x :: x in keys && Survives(x, now) && k == After(x, algorithm, publishFor, now)
    ensures publishFor >= 1_000_000_000 && k in Rotated(keys, algorithm, publishFor, now, kid) && !k.active ==>
              k.publishUntil.None? || k.publishUntil.value > now
  {
    KeepMembers(keys, algorithm, Rfc3339(now + publishFor), now);
    assert forall x :: Survives(x, now) <==> !Dropped(x, now);
    assert forall x :: After(x, algorithm, publishFor, now) == Retired(x, algorithm, Rfc3339(now + publishFor));
  }

  predicate Survives(x: Key, now: int) {
    x.active || x.publishUntil.None? || x.publishUntil.value > now
  }

  function After(x: Key, algorithm: Algorithm, publishFor: int, now: int): Key {
    if x.active && x.algorithm == algorithm
    then Key(algorithm, x.kid, false, Some((now + publishFor) - (now + publishFor) % 1_000_000_000))
    else x
  }

  lemma {:induction false} KeepDistinct(keys: seq<Key>, algorithm: Algorithm, until: int, now: int)
    requires DistinctKids(keys)
    ensures DistinctKids(Keep(keys, algorithm, until, now))
  {
    if keys != [] {
      var n := |keys| - 1;
      KeepDistinct(keys[..n], algorithm, until, now);
      KeepMembers(keys[..n], algorithm, until, now);
      var rest := Keep(keys[..n], algorithm, until, now);
      forall i | 0 <= i < |rest|
        ensures rest[i].kid != keys[n].kid
      {
        assert rest[i] in rest;
        var x :| x in keys[..n] && !Dropped(x, now) && rest[i] == Retired(x, algorithm, until);
      }
    }
  }

  lemma {:induction false} ActiveKidFinds(keys: seq<Key>, algorithm: Algorithm)
    ensures ActiveKid(keys, algorithm).Some? <==> exists k :: k in keys && k.active && k.algorithm == algorithm
    ensures ActiveKid(keys, algorithm).Some? ==>
              exists k :: k in keys && k.active && k.algorithm == algorithm && k.kid == ActiveKid(keys, algorithm).value
  {
    if keys != [] {
      var n := |keys| - 1;
      assert keys == keys[..n] + [keys[n]];
      assert keys[n] in keys;
      ActiveKidFinds(keys[..n], algorithm);
    }
  }

  // ---- The invariant ----------------------------------------------------------------------

  ghost predicate EntryOk(k: Key, s: State) {
    && k.kid in s.used && Supported(k.algorithm)
    && (k.active <==> k.publishUntil.None?)
    && (k.active <==> k.kid !in s.retired)
    && (!k.active ==> k.publishUntil == Some(s.retired[k.kid].until))
  }

  ghost predicate Listed(keys: seq<Key>, kid: nat) {
    exists k :: k in keys && k.kid == kid
  }

  ghost predicate HasActive(keys: seq<Key>, algorithm: Algorithm) {
    exists k :: k in keys && k.active && k.algorithm == algorithm
  }

  /** A retirement outlives every token of the stated lifetime signed up to the margin, less a second. */
  ghost predicate LongEnough(r: Retirement) {
    r.at + MARGIN - SECOND + r.tokenTtl < r.until
  }

  ghost predicate Inv(s: State) {
    && |s.keys| <= MAX_KEYS
    && DistinctKids(s.keys)
    && (forall k :: k in s.keys ==> EntryOk(k, s))
    && (forall j, k :: j in s.keys && k in s.keys && j.active && k.active && j.algorithm == k.algorithm ==> j == k)
    && (s.used != {} ==> HasActive(s.keys, RS256) && HasActive(s.keys, ES256) && HasActive(s.keys, EdDSA))
    && (forall kid :: kid in s.retired ==> kid in s.used && s.retired[kid].at <= s.now && LongEnough(s.retired[kid]))
    && (forall kid :: kid in s.used && (kid in s.retired ==> s.now < s.retired[kid].until) ==> Listed(s.keys, kid))
  }

  /** A successful rotation of the key `was`. */
  ghost predicate Rotates(s: State, s': State, now: int, algorithm: Algorithm, publishFor: int, tokenTtl: int, kid: nat,
                          was: Key) {
    && Inv(s) && s.now <= now && kid !in s.used && |s.keys| < MAX_KEYS
    && was in s.keys && was.active && was.algorithm == algorithm
    && DurationsOk(publishFor, tokenTtl) && Supported(algorithm)
    && s'.keys == Rotated(s.keys, algorithm, publishFor, now, kid)
    && s'.retired == s.retired[was.kid := Retirement(now, Rfc3339(now + publishFor), tokenTtl)]
    && s'.used == s.used + {kid}
    && s'.now == now
  }

  lemma RetiredEntry(s: State, s': State, now: int, algorithm: Algorithm, publishFor: int, tokenTtl: int, kid: nat,
                     was: Key, x: Key)
    requires Rotates(s, s', now, algorithm, publishFor, tokenTtl, kid, was) && x in s.keys
    ensures var k := Retired(x, algorithm, Rfc3339(now + publishFor));
            EntryOk(k, s') && (k.active ==> k == x && k.algorithm != algorithm)
  {
  }

  lemma RotateEntries(s: State, s': State, now: int, algorithm: Algorithm, publishFor: int, tokenTtl: int, kid: nat,
                      was: Key)
    requires Rotates(s, s', now, algorithm, publishFor, tokenTtl, kid, was)
    ensures forall k :: k in s'.keys ==> EntryOk(k, s')
    ensures forall k :: k in s'.keys && k.active ==>
              k == Key(algorithm, kid, true, None) || (k in s.keys && k.algorithm != algorithm)
  {
    var until := Rfc3339(now + publishFor);
    KeepMembers(s.keys, algorithm, until, now);
    var kept := Keep(s.keys, algorithm, until, now);
    assert EntryOk(was, s);
    forall k | k in kept
      ensures EntryOk(k, s') && (k.active ==> k in s.keys && k.algorithm != algorithm)
    {
      var x :| x in s.keys && !Dropped(x, now) && k == Retired(x, algorithm, until);
      RetiredEntry(s, s', now, algorithm, publishFor, tokenTtl, kid, was, x);
    }
  }

  lemma RotateDistinct(s: State, s': State, now: int, algorithm: Algorithm, publishFor: int, tokenTtl: int, kid: nat,
                       was: Key)
    requires Rotates(s, s', now, algorithm, publishFor, tokenTtl, kid, was)
    ensures DistinctKids(s'.keys) && |s'.keys| <= MAX_KEYS
  {
    var until := Rfc3339(now + publishFor);
    KeepMembers(s.keys, algorithm, until, now);
    KeepDistinct(s.keys, algorithm, until, now);
    var kept := Keep(s.keys, algorithm, until, now);
    forall i | 0 <= i < |kept|
      ensures kept[i].kid != kid
    {
      assert kept[i] in kept;
      var x :| x in s.keys && !Dropped(x, now) && kept[i] == Retired(x, algorithm, until);
      assert EntryOk(x, s);
    }
  }

  lemma RotateListed(s: State, s': State, now: int, algorithm: Algorithm, publishFor: int, tokenTtl: int, kid: nat,
                     was: Key, id: nat)
    requires Rotates(s, s', now, algorithm, publishFor, tokenTtl, kid, was)
    requires id in s'.used && (id in s'.retired ==> s'.now < s'.retired[id].until)
    ensures Listed(s'.keys, id)
  {
    var until := Rfc3339(now + publishFor);
    var new_ := Key(algorithm, kid, true, None);
    if id == kid {
      RotatedExactly(s.keys, algorithm, publishFor, now, kid, new_);
    } else if id == was.kid {
      StaysListed(s.keys, algorithm, publishFor, now, kid, was);
    } else {
      assert Listed(s.keys, id);
      var x :| x in s.keys && x.kid == id;
      assert EntryOk(x, s);
      StaysListed(s.keys, algorithm, publishFor, now, kid, x);
    }
  }

  /** An entry that is not dropped is listed after the rotation, as it was or retired. */
  lemma StaysListed(keys: seq<Key>, algorithm: Algorithm, publishFor: int, now: int, kid: nat, x: Key)
    requires x in keys && !Dropped(x, now)
    ensures Retired(x, algorithm, Rfc3339(now + publishFor)) in Rotated(keys, algorithm, publishFor, now, kid)
  {
    KeepMembers(keys, algorithm, Rfc3339(now + publishFor), now);
  }

  lemma RotateActive(s: State, s': State, now: int, algorithm: Algorithm, publishFor: int, tokenTtl: int, kid: nat,
                     was: Key, a: Algorithm)
    requires Rotates(s, s', now, algorithm, publishFor, tokenTtl, kid, was) && HasActive(s.keys, a)
    ensures HasActive(s'.keys, a)
  {
    if a == algorithm {
      assert s'.keys[|s'.keys| - 1] == Key(algorithm, kid, true, None);
    } else {
      var k :| k in s.keys && k.active && k.algorithm == a;
      StaysListed(s.keys, algorithm, publishFor, now, kid, k);
    }
  }

  lemma RotateRetires(s: State, s': State, now: int, algorithm: Algorithm, publishFor: int, tokenTtl: int, kid: nat,
                      was: Key)
    requires Rotates(s, s', now, algorithm, publishFor, tokenTtl, kid, was)
    ensures forall id :: id in s'.retired ==> id in s'.used && s'.retired[id].at <= s'.now && LongEnough(s'.retired[id])
  {
  }

  lemma RotatesKeeps(s: State, s': State, now: int, algorithm: Algorithm, publishFor: int, tokenTtl: int, kid: nat,
                     was: Key)
    requires Rotates(s, s', now, algorithm, publishFor, tokenTtl, kid, was)
    ensures Inv(s')
  {
    RotateEntries(s, s', now, algorithm, publishFor, tokenTtl, kid, was);
    RotateDistinct(s, s', now, algorithm, publishFor, tokenTtl, kid, was);
    forall id | id in s'.used && (id in s'.retired ==> s'.now < s'.retired[id].until)
      ensures Listed(s'.keys, id)
    {
      RotateListed(s, s', now, algorithm, publishFor, tokenTtl, kid, was, id);
    }
    forall a | HasActive(s.keys, a)
      ensures HasActive(s'.keys, a)
    {
      RotateActive(s, s', now, algorithm, publishFor, tokenTtl, kid, was, a);
    }
    RotateRetires(s, s', now, algorithm, publishFor, tokenTtl, kid, was);
  }

  lemma RotateKeeps(s: State, now: int, algorithm: Algorithm, publishFor: int, tokenTtl: int, kid: nat)
    requires Inv(s) && Admissible(s, Rotate(now, algorithm, publishFor, tokenTtl, kid))
    ensures Inv(Step(s, Rotate(now, algorithm, publishFor, tokenTtl, kid)))
  {
    var s' := Step(s, Rotate(now, algorithm, publishFor, tokenTtl, kid));
    if s' != s {
      ActiveKidFinds(s.keys, algorithm);
      var was :| was in s.keys && was.active && was.algorithm == algorithm &&
          was.kid == ActiveKid(s.keys, algorithm).value;
      RotatesKeeps(s, s', now, algorithm, publishFor, tokenTtl, kid, was);
    }
  }

  lemma InitKeeps(s: State, op: Op)
    requires Inv(s) && Admissible(s, op) && op.Init?
    ensures Inv(Step(s, op))
  {
    var s' := Step(s, op);
    if s' != s {
      assert s.used == {};
      var ks := s'.keys;
      assert ks[0] in ks && ks[1] in ks && ks[2] in ks;
    }
  }

  lemma {:induction false} RunKeeps(start: int, ops: seq<Op>)
    ensures Inv(Run(start, ops))
  {
    if ops != [] {
      var s, op := Run(start, ops[..|ops| - 1]), ops[|ops| - 1];
      RunKeeps(start, ops[..|ops| - 1]);
      if Admissible(s, op) {
        match op
        case Init(_, _, _, _, _) => InitKeeps(s, op);
        case Rotate(now, algorithm, publishFor, tokenTtl, kid) => RotateKeeps(s, now, algorithm, publishFor, tokenTtl,
            kid);
        case NewCode(_, _) =>
      }
    }
  }

  // ---- The theorems -----------------------------------------------------------------------

  /** After every run from init on, each algorithm has exactly one active key, at most 32 keys are
      listed and the manifest loads. */
  lemma {:induction false} OneActiveKeyEach(start: int, ops: seq<Op>, algorithm: Algorithm)
    requires Run(start, ops).keys != [] && Supported(algorithm)
    ensures OneActive(Run(start, ops).keys, algorithm)
    ensures Loadable(Run(start, ops).keys)
  {
    RunKeeps(start, ops);
    OneActiveFromInv(Run(start, ops), algorithm);
  }

  lemma OneActiveFromInv(s: State, algorithm: Algorithm)
    requires Inv(s) && s.keys != [] && Supported(algorithm)
    ensures OneActive(s.keys, algorithm)
    ensures Loadable(s.keys)
  {
    var keys := s.keys;
    assert EntryOk(keys[0], s);
    assert HasActive(keys, algorithm);
    var k :| k in keys && k.active && k.algorithm == algorithm;
    var i :| 0 <= i < |keys| && keys[i] == k;
    assert ActiveAt(keys, i, algorithm);
    forall i | 0 <= i < |keys|
      ensures keys[i].active <==> keys[i].publishUntil.None?
    {
      assert EntryOk(keys[i], s);
    }
    forall i, j | 0 <= i < j < |keys|
      ensures keys[i].active && keys[j].active ==> keys[i].algorithm != keys[j].algorithm
    {
      assert keys[i] in keys && keys[j] in keys;
    }
  }

  /** A retired key is published exactly until its deadline, from the last change of the manifest on;
      a key that was never retired is published always. */
  lemma {:induction false} PublishedExactly(start: int, ops: seq<Op>, kid: nat, t: int)
    requires kid in Run(start, ops).used && Run(start, ops).now <= t
    ensures Published(Run(start, ops).keys, kid, t) <==>
              (kid in Run(start, ops).retired ==> t < Run(start, ops).retired[kid].until)
  {
    RunKeeps(start, ops);
    var s := Run(start, ops);
    if kid in s.retired ==> t < s.retired[kid].until {
      assert Listed(s.keys, kid);
    }
    forall k | k in s.keys && k.kid == kid
      ensures k.active <==> kid !in s.retired
      ensures !k.active ==> k.publishUntil == Some(s.retired[kid].until)
    {
      assert EntryOk(k, s);
    }
  }

  /** A token signed by a key while active, or within the margin (less one second) of its retirement,
      with a lifetime no longer than the one stated at the rotation, has its key published as long as
      it is valid. */
  lemma {:induction false} TokenKeyPublished(start: int, ops: seq<Op>, kid: nat, signedAt: int, ttl: int, t: int)
    requires kid in Run(start, ops).used
    requires kid in Run(start, ops).retired ==>
               var r := Run(start, ops).retired[kid]; signedAt <= r.at + MARGIN - SECOND && ttl <= r.tokenTtl
    requires Run(start, ops).now <= t <= signedAt + ttl
    ensures Published(Run(start, ops).keys, kid, t)
  {
    RunKeeps(start, ops);
    PublishedExactly(start, ops, kid, t);
  }

  /** The run of an init followed by one rotation of RS256, five nanoseconds later. */
  lemma ShortRun(init: Op, rotate: Op)
    requires init == Init(0, 1, 2, 3, None) && rotate == Rotate(5, RS256, HOUR + MARGIN, HOUR, 4)
    ensures var s := Run(0, [init, rotate]);
            s.now == 5 && s.retired == map[1 := Retirement(5, HOUR + MARGIN, HOUR)] && 1 in s.used
  {
    var s1 := Step(Empty(0), init);
    assert [init, rotate][..1] == [init] && [init][..0] == [];
    assert Run(0, []) == Empty(0);
    assert Run(0, [init]) == s1;
    var a, b, c := Key(RS256, 1, true, None), Key(ES256, 2, true, None), Key(EdDSA, 3, true, None);
    assert s1.keys == [a, b, c] && [a, b, c][..2] == [a, b] && [a, b][..1] == [a];
    assert ActiveKid([a], RS256) == Some(1);
    assert ActiveKid([a, b], RS256) == Some(1);
    assert ActiveKid([a, b, c], RS256) == Some(1);
  }

  /** The lost second is real: at the full margin a token can outlive its key. */
  lemma FullMarginTooLong() returns (ops: seq<Op>, kid: nat, signedAt: int, t: int)
    ensures var s := Run(0, ops);
            && kid in s.retired && signedAt == s.retired[kid].at + MARGIN &&
                s.now <= t <= signedAt + s.retired[kid].tokenTtl
            && !Published(s.keys, kid, t)
  {
    var init, rotate := Init(0, 1, 2, 3, None), Rotate(5, RS256, HOUR + MARGIN, HOUR, 4);
    ShortRun(init, rotate);
    ops, kid, signedAt, t := [init, rotate], 1, 5 + MARGIN, HOUR + MARGIN;
    PublishedExactly(0, ops, kid, t);
  }

  /** On a state that runs of this tool reach, nothing but the key count refuses a rotation. */
  lemma RotationGoesThrough(s: State, now: int, algorithm: Algorithm, publishFor: int, tokenTtl: int, kid: nat)
    requires Inv(s) && Admissible(s, Rotate(now, algorithm, publishFor, tokenTtl, kid))
    requires DurationsOk(publishFor, tokenTtl) && Supported(algorithm) && 0 < |s.keys| < MAX_KEYS
    ensures OneActive(s.keys, algorithm)
    ensures Step(s, Rotate(now, algorithm, publishFor, tokenTtl, kid)).keys ==
              Rotated(s.keys, algorithm, publishFor, now, kid)
    ensures Loadable(Rotated(s.keys, algorithm, publishFor, now, kid))
  {
    OneActiveFromInv(s, algorithm);
    var i :| ActiveAt(s.keys, i, algorithm);
    assert s.keys[i] in s.keys;
    ActiveKidFinds(s.keys, algorithm);
    RotateKeeps(s, now, algorithm, publishFor, tokenTtl, kid);
    OneActiveFromInv(Step(s, Rotate(now, algorithm, publishFor, tokenTtl, kid)), algorithm);
  }

  /** On a manifest that runs of this tool produced, a rotation is refused exactly for bad durations,
      an unsupported algorithm, a missing manifest or 32 listed keys, and then changes nothing;
      otherwise it is the machine's step. */
  method RotateReachable(ghost s: State, keys: seq<Key>, algorithm: Algorithm, publishFor: int, tokenTtl: int, now: int,
                         kid: nat)
    returns (r: Result<seq<Key>>)
    requires Inv(s) && s.keys == keys && Admissible(s, Rotate(now, algorithm, publishFor, tokenTtl, kid))
    ensures r.Ok? <==>
              && 60 * 1_000_000_000 <= tokenTtl <= 86_400 * 1_000_000_000
              && tokenTtl + 600 * 1_000_000_000 <= publishFor <= 7_776_000 * 1_000_000_000
              && algorithm != ES256K && 1 <= |keys| <= 31
    ensures Step(s, Rotate(now, algorithm, publishFor, tokenTtl, kid)).keys == if r.Ok? then r.value else keys
  {
    DurationsExact(publishFor, tokenTtl);
    if !DurationsOk(publishFor, tokenTtl) {
      return Err("publish-for must be at least id-token-ttl plus 10m and at most 2160h");
    }
    if Supported(algorithm) && 0 < |keys| < MAX_KEYS {
      RotationGoesThrough(s, now, algorithm, publishFor, tokenTtl, kid);
    }
    r := RotateSigning(1, keys, algorithm, publishFor, now, kid);
  }

  ghost predicate CodesOk(s: State) {
    && |s.codes| <= 16
    && (s.codes != {} <==> s.code.Some?)
    && (s.code.Some? ==> s.code.value in s.codes)
  }

  lemma CodeStep(s: State, op: Op)
    requires CodesOk(s)
    ensures CodesOk(Step(s, op)) && s.codes <= Step(s, op).codes
  {
  }

  /** Init on an empty directory, and only there, lists one active key of each algorithm and the code key
      unless it was stopped before. */
  lemma InitExact(s: State, now: int, rs: nat, es: nat, ed: nat, code: Option<nat>)
    requires Admissible(s, Init(now, rs, es, ed, code))
    ensures var s' := Step(s, Init(now, rs, es, ed, code));
            if s.keys == [] && s.codes == {}
            then && |s'.keys| == 3 && s'.now == now && s'.code == code
                 && s'.keys[0] == Key(RS256, rs, true, None) && s'.keys[1] == Key(ES256, es, true, None)
                 && s'.keys[2] == Key(EdDSA, ed, true, None)
                 && (forall k :: k in s'.codes <==> code == Some(k))
            else s' == s
  {
  }

  /** A new code key is added and active exactly if there are one to fifteen; otherwise nothing changes. */
  lemma NewCodeExact(s: State, now: int, kid: nat)
    requires s.now <= now && kid !in s.codes && CodesOk(s)
    ensures var s' := Step(s, NewCode(now, kid));
            if 1 <= |s.codes| <= 15
            then s'.code == Some(kid) && |s'.codes| == |s.codes| + 1 && s.codes < s'.codes && kid in s'.codes &&
                s'.keys == s.keys
            else s' == s
  {
    assert s.codes == {} <==> |s.codes| == 0;
  }

  /** No code key is ever lost: whatever was listed after a part of the run is listed at its end, the
      active one is listed, and there are never more than sixteen. */
  lemma {:induction false} CodeKeysKept(start: int, ops: seq<Op>, earlier: nat)
    requires earlier <= |ops|
    ensures Run(start, ops[..earlier]).codes <= Run(start, ops).codes
    ensures CodesOk(Run(start, ops))
  {
    if ops == [] || earlier == |ops| {
      assert ops[..earlier] == ops;
    }
    if ops != [] {
      var before := ops[..|ops| - 1];
      CodeKeysKept(start, before, if earlier < |ops| then earlier else 0);
      assert earlier < |ops| ==> before[..earlier] == ops[..earlier];
      CodeStep(Run(start, before), ops[|ops| - 1]);
    }
  }
}
