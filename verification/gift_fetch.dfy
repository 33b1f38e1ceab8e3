/** Download sizing, the bounded buffer and the allow-list keys of the gift fetcher. */
module GiftFetch {
  import opened Common

  const UNIT := 4 * 1024
  const MAX_PART := 512 * 1024
  const WINDOW := 1024 * 1024

  // ---- The part-size ladder ---------------------------------------------------------------

  function Rung(k: nat): nat {
    if k == 0 then UNIT else 2 * Rung(k - 1)
  }

  lemma {:induction false} RungsUpTo(k: nat)
    requires k <= 7
    ensures Rung(k) <= MAX_PART && Rung(k) > 0 && WINDOW % Rung(k) == 0 && (k < 7 <==> Rung(k) < MAX_PART)
  {
    assert Rung(0) == 4096 && Rung(1) == 8192 && Rung(2) == 16384 && Rung(3) == 32768;
    assert Rung(4) == 65536 && Rung(5) == 131072 && Rung(6) == 262144 && Rung(7) == 524288;
  }

  lemma {:induction false} RungsGrow(j: nat, k: nat)
    requires j <= k
    ensures Rung(j) <= Rung(k)
  {
    if j < k {
      RungsGrow(j, k - 1);
    }
  }

  /** The least rung of 4 KiB * 2^k above a known size under 512 KiB, and 512 KiB otherwise; every
      answer is a rung and divides 1 MiB. */
  method DownloadPartSize(expectedSize: int) returns (partSize: int, ghost k: nat)
    ensures k <= 7 && partSize == Rung(k)
    ensures partSize > 0 && WINDOW % partSize == 0
    ensures 0 < expectedSize < MAX_PART ==> expectedSize < partSize && forall j :: 0 <= j && expectedSize < Rung(j) ==>
              partSize <= Rung(j)
    ensures !(0 < expectedSize < MAX_PART) ==> partSize == MAX_PART
  {
    RungsUpTo(7);
    if expectedSize <= 0 || expectedSize >= MAX_PART {
      return MAX_PART, 7;
    }
    partSize, k := UNIT, 0;
    while partSize <= expectedSize && partSize < MAX_PART
      invariant k <= 7 && partSize == Rung(k)
      invariant k == 0 || Rung(k - 1) <= expectedSize
      decreases 7 - k
    {
      RungsUpTo(k);
      partSize, k := partSize * 2, k + 1;
    }
    RungsUpTo(k);
    forall j: nat | expectedSize < Rung(j)
      ensures partSize <= Rung(j)
    {
      if j < k {
        RungsGrow(j, k - 1);
      } else {
        RungsGrow(k, j);
      }
    }
  }

  /** How a download goes: one request for the whole file exactly when its size is known and under
      512 KiB; the streamed branch always uses the largest part. */
  method DownloadPlan(expectedSize: int) returns (partSize: int, singleChunk: bool)
    ensures singleChunk <==> 0 < expectedSize < MAX_PART
    ensures singleChunk ==> expectedSize < partSize
    ensures !singleChunk ==> partSize == MAX_PART
  {
    ghost var k;
    partSize, k := DownloadPartSize(expectedSize);
    singleChunk := expectedSize > 0 && expectedSize < partSize;
  }

  // ---- The bounded buffer -----------------------------------------------------------------

  type Bytes = seq<bv8>

  function Cut(s: Bytes, max: int): Bytes {
    if max <= 0 then [] else if |s| > max then s[..max] else s
  }

  class BoundedBuffer {
    var data: Bytes
    const max: int

    constructor (max: int)
      ensures this.max == max && data == []
    {
      this.max := max;
      data := [];
    }

    /** The buffer keeps what fits; the count says how much, and the error says that not all of p fitted
        or that the buffer was full already. */
    method Write(p: Bytes) returns (written: nat, failed: bool)
      requires |data| <= max || data == []
      modifies this`data
      ensures data == Cut(old(data) + p, max) && written == |data| - |old(data)|
      ensures failed <==> written < |p| || |old(data)| >= max
    {
      var remaining := max - |data|;
      if remaining <= 0 {
        assert data == Cut(data + p, max);
        return 0, true;
      }
      if |p| > remaining {
        data := data + p[..remaining];
        return remaining, true;
      }
      data := data + p;
      return |p|, false;
    }
  }

  function Concat(ps: seq<Bytes>): Bytes {
    if ps == [] then [] else Concat(ps[..|ps| - 1]) + ps[|ps| - 1]
  }

  /** A write of p after s was written fails: s has filled the buffer, or p does not fit. */
  predicate Fails(s: Bytes, p: Bytes, max: int) {
    |s| + |p| > max || |s| >= max
  }

  lemma CutStep(s: Bytes, p: Bytes, max: int)
    ensures Cut(Cut(s, max) + p, max) == Cut(s + p, max)
    ensures |Cut(s, max)| <= max || Cut(s, max) == []
    ensures |Cut(s + p, max)| - |Cut(s, max)| < |p| || |Cut(s, max)| >= max <==> Fails(s, p, max)
  {
  }

  /** A nonempty write fails exactly if it is not wholly stored, an empty one exactly if the buffer is
      full. */
  lemma FailsExactly(s: Bytes, p: Bytes, max: int)
    ensures p != [] ==> (Fails(s, p, max) <==> Cut(s + p, max) != Cut(s, max) + p)
    ensures p == [] ==> (Fails(s, p, max) <==> |Cut(s, max)| >= max)
  {
  }

  /** Writing the parts one after the other: the buffer ends with the longest prefix of their
      concatenation that fits, and says of each write whether it failed. */
  method WriteAll(max: int, ps: seq<Bytes>) returns (data: Bytes, failures: seq<bool>)
    ensures data == Cut(Concat(ps), max)
    ensures |failures| == |ps| && forall i :: 0 <= i < |ps| ==> failures[i] == Fails(Concat(ps[..i]), ps[i], max)
  {
    var b := new BoundedBuffer(max);
    failures := [];
    ghost var all: Bytes := [];
    for i := 0 to |ps|
      invariant all == Concat(ps[..i])
      invariant b.max == max && b.data == Cut(all, max)
      invariant |failures| == i && forall j :: 0 <= j < i ==> failures[j] == Fails(Concat(ps[..j]), ps[j], max)
    {
      ConcatStep(ps, i);
      CutStep(all, ps[i], max);
      var n, failed := b.Write(ps[i]);
      failures, all := failures + [failed], all + ps[i];
    }
    assert ps[..|ps|] == ps;
    data := b.data;
  }

  lemma ConcatStep(ps: seq<Bytes>, i: nat)
    requires i < |ps|
    ensures Concat(ps[..i + 1]) == Concat(ps[..i]) + ps[i]
  {
    assert ps[..i + 1][..i] == ps[..i];
  }

  // ---- Thumbnails that may be missing -----------------------------------------------------

  function Decimal(n: nat): string {
    if n < 10 then [(48 + n) as char] else Decimal(n / 10) + [(48 + n % 10) as char]
  }

  predicate Digit(c: char) {
    '0' <= c <= '9'
  }

  function Value(digits: string): int {
    if digits == "" then 0 else Value(digits[..|digits| - 1]) * 10 + (digits[|digits| - 1] as int - 48)
  }

  lemma {:induction false} DecimalReads(n: nat)
    ensures Value(Decimal(n)) == n && Decimal(n) != ""
    ensures forall i :: 0 <= i < |Decimal(n)| ==> Digit(Decimal(n)[i])
  {
    if n >= 10 {
      DecimalReads(n / 10);
      assert Decimal(n)[..|Decimal(n)| - 1] == Decimal(n / 10);
    } else {
      assert Decimal(n)[..0] == "";
    }
  }

  /** %d */
  function Signed(n: int): string {
    if n < 0 then "-" + Decimal(-n) else Decimal(n)
  }

  lemma SignedReads(n: int)
    ensures ':' !in Signed(n)
    ensures Signed(n) != "" && n == if Signed(n)[0] == '-' then -Value(Signed(n)[1..]) else Value(Signed(n))
  {
    DecimalReads(if n < 0 then -n else n);
  }

  function MissingThumbKey(documentID: int, kind: string, thumbType: string): string {
    Signed(documentID) + ":" + kind + ":" + thumbType
  }

  /** Up to the first colon two texts agree, so do the parts before and after it. */
  lemma ColonSplits(a: string, x: string, b: string, y: string)
    requires ':' !in a && ':' !in b && a + ":" + x == b + ":" + y
    ensures a == b && x == y
  {
    var s := a + ":" + x;
    assert s[|a|] == ':' && s[|b|] == ':';
    assert forall i :: 0 <= i < |a| ==> s[i] == a[i] && s[i] != ':';
    assert forall i :: 0 <= i < |b| ==> s[i] == b[i] && s[i] != ':';
    assert a == s[..|a|] && b == s[..|b|];
    assert x == s[|a| + 1..] && y == s[|b| + 1..];
  }

  /** The key tells its three parts apart as long as the kind has no colon; the type may hold any. */
  lemma MissingThumbKeyInjective(d: int, kind: string, t: string, d': int, kind': string, t': string)
    requires ':' !in kind && ':' !in kind'
    ensures MissingThumbKey(d, kind, t) == MissingThumbKey(d', kind', t') <==> d == d' && kind == kind' && t == t'
  {
    if MissingThumbKey(d, kind, t) == MissingThumbKey(d', kind', t') {
      SignedReads(d);
      SignedReads(d');
      var x, y := kind + ":" + t, kind' + ":" + t';
      assert MissingThumbKey(d, kind, t) == Signed(d) + ":" + x;
      assert MissingThumbKey(d', kind', t') == Signed(d') + ":" + y;
      ColonSplits(Signed(d), x, Signed(d'), y);
      ColonSplits(kind, t, kind', t');
    }
  }

  datatype Thumb = Thumb(documentID: int, kind: string, thumbType: string)

  function Split(s: string, sep: char): (parts: seq<string>)
    ensures parts != []
  {
    if s == "" then [""]
    else
      var rest := Split(s[1..], sep);
      if s[0] == sep then [""] + rest else [[s[0]] + rest[0]] + rest[1..]
  }

  function Join(parts: seq<string>, sep: char): string
    requires parts != []
  {
    if |parts| == 1 then parts[0] else parts[0] + [sep] + Join(parts[1..], sep)
  }

  /** Split cuts at every separator and loses nothing. */
  lemma {:induction false} SplitJoins(s: string, sep: char)
    ensures Join(Split(s, sep), sep) == s
    ensures forall i :: 0 <= i < |Split(s, sep)| ==> sep !in Split(s, sep)[i]
  {
    if s != "" {
      SplitJoins(s[1..], sep);
      var parts, rest := Split(s, sep), Split(s[1..], sep);
      assert s == [s[0]] + s[1..];
      if s[0] == sep {
        assert parts[1..] == rest;
      } else {
        assert parts[1..] == rest[1..];
        assert parts[0] == [s[0]] + rest[0];
        assert |rest| > 1 ==>
            parts[0] + [sep] + Join(rest[1..], sep) == [s[0]] + (rest[0] + [sep] + Join(rest[1..], sep));
      }
    }
  }

  const MAX_INT64 := 0x7fff_ffff_ffff_ffff

  predicate AllDigits(s: string) {
    forall i :: 0 <= i < |s| ==> Digit(s[i])
  }

  /** strconv.ParseInt, of which only positive results matter here. */
  function ParsePositive(s: string): Option<int> {
    var digits := if s != "" && s[0] == '+' then s[1..] else s;
    if digits != "" && AllDigits(digits) && 0 < Value(digits) <= MAX_INT64
    then Some(Value(digits)) else None
  }

  /** What safePart leaves unchanged. */
  predicate Safe(s: string) {
    forall i :: 0 <= i < |s| ==> 'a' <= s[i] <= 'z' || 'A' <= s[i] <= 'Z' || Digit(s[i]) || s[i] == '-' || s[i] == '_'
  }

  /** One entry of the flag: blank, a thumbnail, or a mistake. */
  function ParseEntry(entry: string): Result<Option<Thumb>> {
    var e := TrimSpace(entry);
    if e == "" then Ok(None)
    else
      var parts := Split(e, ':');
      if |parts| != 3 then Err("want document_id:photo|video:type")
      else if ParsePositive(parts[0]).None? then Err("document ID")
      else if parts[1] != "photo" && parts[1] != "video" then Err("kind")
      else if parts[2] == "" || !Safe(parts[2]) then Err("type")
      else Ok(Some(Thumb(ParsePositive(parts[0]).value, parts[1], parts[2])))
  }

  function KeyOf(t: Thumb): string {
    MissingThumbKey(t.documentID, t.kind, t.thumbType)
  }

  lemma {:induction false} SplitPlain(s: string, sep: char)
    requires sep !in s
    ensures Split(s, sep) == [s]
  {
    if s != "" {
      assert s[0] in s && forall c :: c in s[1..] ==> c in s;
      SplitPlain(s[1..], sep);
      assert [s[0]] + s[1..] == s;
    }
  }

  lemma {:induction false} SplitFirst(a: string, sep: char, rest: string)
    requires sep !in a
    ensures Split(a + [sep] + rest, sep) == [a] + Split(rest, sep)
  {
    var s := a + [sep] + rest;
    if a == "" {
      assert s[1..] == rest;
    } else {
      assert s[1..] == a[1..] + [sep] + rest;
      assert a[0] in a && forall c :: c in a[1..] ==> c in a;
      SplitFirst(a[1..], sep, rest);
      assert s[0] == a[0] && [a[0]] + a[1..] == a;
      assert ([a[1..]] + Split(rest, sep))[1..] == Split(rest, sep);
    }
  }

  /** What an entry of the flag can name. */
  predicate Nameable(t: Thumb) {
    0 < t.documentID <= MAX_INT64 && (t.kind == "photo" || t.kind == "video") && t.thumbType != "" && Safe(t.thumbType)
  }

  lemma KeySplits(t: Thumb)
    requires Nameable(t)
    ensures Split(KeyOf(t), ':') == [Decimal(t.documentID), t.kind, t.thumbType]
  {
    var id, key := Decimal(t.documentID), KeyOf(t);
    DecimalReads(t.documentID);
    var tail := t.kind + ":" + t.thumbType;
    assert key == id + [':'] + tail && tail == t.kind + [':'] + t.thumbType;
    SplitFirst(id, ':', tail);
    SplitFirst(t.kind, ':', t.thumbType);
    SplitPlain(t.thumbType, ':');
  }

  lemma KeyTrimmed(t: Thumb)
    requires Nameable(t)
    ensures TrimSpace(KeyOf(t)) == KeyOf(t) && KeyOf(t) != ""
  {
    var id, key := Decimal(t.documentID), KeyOf(t);
    DecimalReads(t.documentID);
    assert key[0] == id[0] && Digit(id[0]);
    assert key[|key| - 1] == t.thumbType[|t.thumbType| - 1];
    TrimmedIsFixed(key);
  }

  /** A thumbnail's key, written into the flag, names that thumbnail. */
  lemma KeyIsAnEntry(t: Thumb)
    requires Nameable(t)
    ensures ParseEntry(KeyOf(t)) == Ok(Some(t))
  {
    KeySplits(t);
    KeyTrimmed(t);
    DecimalReads(t.documentID);
    assert Digit(Decimal(t.documentID)[0]);
  }

  /** A whole number as the flag may write it: digits, perhaps after a plus sign. */
  ghost predicate Numeral(d: string, n: int) {
    var digits := if d != "" && d[0] == '+' then d[1..] else d;
    && digits != "" && AllDigits(digits) && Value(digits) == n
    && 1 <= n <= 9_223_372_036_854_775_807
  }

  /** The text of an entry: number, kind and type between colons. */
  ghost predicate Spells(text: string, d: string, t: Thumb) {
    text == d + ":" + t.kind + ":" + t.thumbType
  }

  lemma SpelledSplits(d: string, t: Thumb)
    requires Numeral(d, t.documentID) && (t.kind == "photo" || t.kind == "video") && Safe(t.thumbType)
    ensures Split(d + ":" + t.kind + ":" + t.thumbType, ':') == [d, t.kind, t.thumbType]
  {
    var tail := t.kind + ":" + t.thumbType;
    assert d + ":" + t.kind + ":" + t.thumbType == d + [':'] + tail && tail == t.kind + [':'] + t.thumbType;
    var digits := if d[0] == '+' then d[1..] else d;
    assert forall i :: 0 < i < |d| && d[0] == '+' ==> d[i] == digits[i - 1];
    assert forall i :: 0 <= i < |d| ==> d[i] == '+' || Digit(d[i]);
    SplitFirst(d, ':', tail);
    SplitFirst(t.kind, ':', t.thumbType);
    SplitPlain(t.thumbType, ':');
  }

  lemma PositiveIsNumeral(d: string, n: int)
    ensures ParsePositive(d) == Some(n) <==> Numeral(d, n)
  {
  }

  lemma EntryParts(entry: string, t: Thumb)
    requires ParseEntry(entry) == Ok(Some(t))
    ensures exists d :: Numeral(d, t.documentID) && Spells(TrimSpace(entry), d, t)
    ensures (t.kind == "photo" || t.kind == "video") && t.thumbType != "" && Safe(t.thumbType)
  {
    var e := TrimSpace(entry);
    var parts := Split(e, ':');
    SplitJoins(e, ':');
    JoinThree(parts);
    PositiveIsNumeral(parts[0], t.documentID);
    assert Numeral(parts[0], t.documentID) && Spells(e, parts[0], t);
  }

  lemma JoinThree(parts: seq<string>)
    requires |parts| == 3
    ensures Join(parts, ':') == parts[0] + ":" + parts[1] + ":" + parts[2]
  {
    assert parts[1..][1..] == [parts[2]] && parts[1..][0] == parts[1];
    assert Join(parts[1..], ':') == parts[1] + [':'] + parts[2];
  }

  lemma EntryOfText(entry: string, d: string, t: Thumb)
    requires Numeral(d, t.documentID) && Spells(TrimSpace(entry), d, t)
    requires (t.kind == "photo" || t.kind == "video") && t.thumbType != "" && Safe(t.thumbType)
    ensures ParseEntry(entry) == Ok(Some(t))
  {
    SpelledSplits(d, t);
    assert ParsePositive(d) == Some(t.documentID);
  }

  /** An entry names a thumbnail exactly if, trimmed, it is a positive 64-bit number, photo or video, and a
      nonempty type of letters, digits, dashes and underscores between colons; it is skipped exactly if
      it is blank. */
  lemma EntryExact(entry: string, t: Thumb)
    ensures ParseEntry(entry) == Ok(Some(t)) <==>
              && (exists d :: Numeral(d, t.documentID) && Spells(TrimSpace(entry), d, t))
              && (t.kind == "photo" || t.kind == "video") && t.thumbType != "" && Safe(t.thumbType)
    ensures ParseEntry(entry) == Ok(None) <==> TrimSpace(entry) == ""
  {
    if ParseEntry(entry) == Ok(Some(t)) {
      EntryParts(entry, t);
    }
    forall d | Numeral(d, t.documentID) && Spells(TrimSpace(entry), d, t)
      ensures (t.kind == "photo" || t.kind == "video") && t.thumbType != "" && Safe(t.thumbType) ==>
                ParseEntry(entry) == Ok(Some(t))
    {
      if (t.kind == "photo" || t.kind == "video") && t.thumbType != "" && Safe(t.thumbType) {
        EntryOfText(entry, d, t);
      }
    }
  }

  /** The characters of a type, by their ASCII codes. */
  lemma SafeExact(s: string)
    ensures Safe(s) <==> forall i :: 0 <= i < |s| ==>
              var c := s[i] as int; 97 <= c <= 122 || 65 <= c <= 90 || 48 <= c <= 57 || c == 45 || c == 95
  {
  }

  type EntryParser = string -> Result<Option<Thumb>>

  ghost predicate Names(parse: EntryParser, entries: seq<string>, t: Thumb) {
    exists e :: e in entries && parse(e) == Ok(Some(t))
  }

  ghost predicate HasMistake(parse: EntryParser, entries: seq<string>) {
    exists e :: e in entries && parse(e).Err?
  }

  /** The loop over the entries; the first mistake ends it. */
  method CollectKeys(entries: seq<string>, parse: EntryParser) returns (r: Result<set<string>>, ghost named: set<Thumb>)
    ensures r.Err? <==> HasMistake(parse, entries)
    ensures r.Ok? ==> r.value == set t | t in named :: KeyOf(t)
    ensures r.Ok? ==> forall t :: t in named <==> Names(parse, entries, t)
  {
    var allowed: set<string> := {};
    named := {};
    for i := 0 to |entries|
      invariant !HasMistake(parse, entries[..i])
      invariant forall t :: t in named <==> Names(parse, entries[..i], t)
      invariant allowed == set t | t in named :: KeyOf(t)
    {
      var entry := parse(entries[i]);
      if entry.Err? {
        return Err(entry.error), named;
      }
      assert entries[..i + 1] == entries[..i] + [entries[i]];
      if entry.value.Some? {
        var t := entry.value.value;
        allowed, named := allowed + {KeyOf(t)}, named + {t};
      }
    }
    assert entries[..|entries|] == entries;
    r := Ok(allowed);
  }

  /** The allow list is refused exactly if an entry is a mistake; otherwise it allows exactly the
      thumbnails its entries name. */
  method ParseAllowedMissingThumbs(raw: string) returns (r: Result<set<string>>)
    ensures Join(Split(raw, ','), ',') == raw && forall i :: 0 <= i < |Split(raw, ',')| ==> ',' !in Split(raw, ',')[i]
    ensures r.Err? <==> HasMistake(ParseEntry, Split(raw, ','))
    ensures r.Ok? ==> forall t: Thumb :: ':' !in t.kind ==>
              (KeyOf(t) in r.value <==> Names(ParseEntry, Split(raw, ','), t))
  {
    var entries := Split(raw, ',');
    SplitJoins(raw, ',');
    ghost var named;
    r, named := CollectKeys(entries, ParseEntry);
    if r.Ok? {
      forall q | q in named
        ensures q.kind == "photo" || q.kind == "video"
      {
        var e :| e in entries && ParseEntry(e) == Ok(Some(q));
      }
      forall t: Thumb | ':' !in t.kind
        ensures KeyOf(t) in r.value <==> t in named
      {
        KeysTellApart(named, t);
      }
    }
  }

  lemma KeysTellApart(named: set<Thumb>, t: Thumb)
    requires ':' !in t.kind && forall q :: q in named ==> q.kind == "photo" || q.kind == "video"
    ensures KeyOf(t) in (set q | q in named :: KeyOf(q)) <==> t in named
  {
    if KeyOf(t) in (set q | q in named :: KeyOf(q)) {
      var q :| q in named && KeyOf(q) == KeyOf(t);
      MissingThumbKeyInjective(t.documentID, t.kind, t.thumbType, q.documentID, q.kind, q.thumbType);
    }
  }
}
