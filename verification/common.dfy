/** Datatypes and string helpers shared by the models. */
module Common {

  datatype Option<+T> = None | Some(value: T)

  datatype Result<+T> = Ok(value: T) | Err(error: string)

  /** The ASCII part of unicode.IsSpace. */
  predicate IsSpace(c: char) {
    c == ' ' || '\t' <= c <= '\r'
  }

  function TrimLeft(s: string): string {
    if s != "" && IsSpace(s[0]) then TrimLeft(s[1..]) else s
  }

  function TrimRight(s: string): string {
    if s != "" && IsSpace(s[|s| - 1]) then TrimRight(s[..|s| - 1]) else s
  }

  /** strings.TrimSpace. */
  function TrimSpace(s: string): string {
    TrimRight(TrimLeft(s))
  }

  /** Nothing to trim at either end. */
  predicate Trimmed(s: string) {
    s == "" || (!IsSpace(s[0]) && !IsSpace(s[|s| - 1]))
  }

  lemma {:induction false} TrimLeftStarts(s: string)
    ensures TrimLeft(s) == "" || !IsSpace(TrimLeft(s)[0])
  {
    if s != "" && IsSpace(s[0]) {
      TrimLeftStarts(s[1..]);
    }
  }

  lemma {:induction false} TrimRightEnds(s: string)
    ensures TrimRight(s) <= s
    ensures TrimRight(s) == "" || !IsSpace(TrimRight(s)[|TrimRight(s)| - 1])
  {
    if s != "" && IsSpace(s[|s| - 1]) {
      TrimRightEnds(s[..|s| - 1]);
    }
  }

  /** Trimming reaches a fixed point in one pass. */
  lemma TrimSpaceIsTrimmed(s: string)
    ensures Trimmed(TrimSpace(s))
    ensures TrimSpace(TrimSpace(s)) == TrimSpace(s)
  {
    TrimLeftStarts(s);
    TrimRightEnds(TrimLeft(s));
  }

  lemma TrimmedIsFixed(s: string)
    requires Trimmed(s)
    ensures TrimSpace(s) == s
  {
  }

  predicate White(c: char) {
    c == ' ' || c == '\t' || c == '\n' || c == '\r' || c as int == 11 || c as int == 12
  }

  ghost predicate AllSpace(s: string) {
    forall c :: c in s ==> White(c)
  }

  lemma {:induction false} TrimLeftExact(s: string) returns (cut: string)
    ensures AllSpace(cut) && s == cut + TrimLeft(s)
  {
    cut := "";
    if s != "" && IsSpace(s[0]) {
      var rest := TrimLeftExact(s[1..]);
      cut := [s[0]] + rest;
    }
  }

  lemma {:induction false} TrimRightExact(s: string) returns (cut: string)
    ensures AllSpace(cut) && s == TrimRight(s) + cut
  {
    cut := "";
    if s != "" && IsSpace(s[|s| - 1]) {
      var rest := TrimRightExact(s[..|s| - 1]);
      cut := rest + [s[|s| - 1]];
    }
  }

  /** Trimming takes white space off both ends, all of it, and nothing else. */
  lemma {:induction false} TrimSpaceExact(s: string) returns (left: string, right: string)
    ensures AllSpace(left) && AllSpace(right) && s == left + TrimSpace(s) + right
    ensures TrimSpace(s) == "" || (!White(TrimSpace(s)[0]) && !White(TrimSpace(s)[|TrimSpace(s)| - 1]))
  {
    left := TrimLeftExact(s);
    var rest := TrimLeft(s);
    right := TrimRightExact(rest);
    assert rest == TrimSpace(s) + right;
    TrimSpaceIsTrimmed(s);
  }

  /** Some element of a set: how a range over a map visits keys in no particular order. */
  method Pick<T(==)>(s: set<T>) returns (x: T)
    requires s != {}
    ensures x in s
  {
    x :| x in s;
  }

  lemma Member<T>(s: set<T>) returns (x: T)
    requires s != {}
    ensures x in s
  {
    x :| x in s;
  }

  lemma NonEmptyHasMember<T>(s: set<T>)
    requires s != {}
    ensures exists x :: x in s
  {
  }

  ghost predicate StrictlyIncreasing(s: seq<int>) {
    forall i, j :: 0 <= i < j < |s| ==> s[i] < s[j]
  }

  /** A set of integers has one increasing listing. */
  lemma {:induction false} ListingUnique(a: seq<int>, b: seq<int>)
    requires StrictlyIncreasing(a) && StrictlyIncreasing(b)
    requires forall x :: x in a <==> x in b
    ensures a == b
    decreases |a|
  {
    assert b != [] ==> b[0] in b;
    if a != [] {
      var n, m := |a| - 1, |b| - 1;
      assert a[n] in a && a[n] in b;
      assert b[m] in b && b[m] in a;
      assert a[n] == b[m];
      forall x
        ensures x in a[..n] <==> x in b[..m]
      {
        assert a == a[..n] + [a[n]] && b == b[..m] + [b[m]];
        assert x in a <==> x in a[..n] || x == a[n];
        assert x in b <==> x in b[..m] || x == b[m];
      }
      ListingUnique(a[..n], b[..m]);
      assert a == a[..n] + [a[n]] && b == b[..m] + [b[m]];
    }
  }

  /** The first occurrences of a list's elements, in order, leaving out one value. */
  function Firsts<T(==)>(s: seq<T>, skip: T): seq<T> {
    if s == [] then []
    else
      var before, last := Firsts(s[..|s| - 1], skip), s[|s| - 1];
      if last == skip || last in before then before else before + [last]
  }

  ghost predicate OccursBefore<T>(s: seq<T>, x: T, y: T) {
    exists p :: 0 <= p < |s| && s[p] == x && y !in s[..p + 1]
  }

  lemma FirstsMore<T>(s: seq<T>, skip: T, i: nat)
    requires i < |s|
    ensures var before := Firsts(s[..i], skip);
            Firsts(s[..i + 1], skip) == if s[i] == skip || s[i] in before then before else before + [s[i]]
  {
    assert s[..i + 1][..i] == s[..i];
  }

  lemma {:induction false} FirstsMember<T>(s: seq<T>, skip: T, x: T)
    ensures x in Firsts(s, skip) <==> x in s && x != skip
  {
    if s != [] {
      FirstsMember(s[..|s| - 1], skip, x);
      FirstsMember(s[..|s| - 1], skip, s[|s| - 1]);
      assert s == s[..|s| - 1] + [s[|s| - 1]];
    }
  }

  /** Each element once, and earlier ones first. */
  lemma {:induction false} FirstsExact<T>(s: seq<T>, skip: T)
    ensures var r := Firsts(s, skip);
            && (forall x :: x in r <==> x in s && x != skip)
            && (forall i, j :: 0 <= i < j < |r| ==> r[i] != r[j])
            && (forall i, j :: 0 <= i < j < |r| ==> OccursBefore(s, r[i], r[j]))
  {
    forall x
      ensures x in Firsts(s, skip) <==> x in s && x != skip
    {
      FirstsMember(s, skip, x);
    }
    if s != [] {
      var n := |s| - 1;
      FirstsExact(s[..n], skip);
      assert s == s[..n] + [s[n]];
      var t, before, r := s[..n], Firsts(s[..n], skip), Firsts(s, skip);
      forall i, j | 0 <= i < j < |r|
        ensures OccursBefore(s, r[i], r[j])
      {
        var x := before[i];
        assert r[i] == x && x in before;
        FirstsMember(t, skip, x);
        if j < |before| {
          assert OccursBefore(t, x, before[j]);
          var p :| 0 <= p < |t| && t[p] == x && before[j] !in t[..p + 1];
          assert s[..p + 1] == t[..p + 1] && s[p] == t[p];
        } else {
          var p :| 0 <= p < |t| && t[p] == x;
          assert s[..p + 1] == t[..p + 1] && s[p] == t[p];
          assert forall x :: x in t[..p + 1] ==> x in t;
        }
      }
    }
  }
}
