/** Decoded JSON as the admin journal compares it: encoding/json into `any`, so every number has
    become a float64. */
module JsonValues {

  datatype Json =
    | Null
    | Bool(b: bool)
    | Num(n: int)
    | Str(s: string)
    | Arr(items: seq<Json>)
    | Obj(fields: map<string, Json>)

  const P53 := 0x20_0000_0000_0000

  /** The spacing of float64 values around n. */
  function Ulp(n: nat): (u: nat)
    ensures u >= 1
  {
    if n < P53 then 1 else 2 * Ulp(n / 2)
  }

  /** The float64 nearest to an integer, ties to even. */
  function Float64(n: int): int
    decreases n < 0
  {
    if n < 0 then -Float64(-n)
    else
      var u := Ulp(n);
      var q, r := n / u, n % u;
      if 2 * r < u || (2 * r == u && q % 2 == 0) then q * u else (q + 1) * u
  }

  /** json.Unmarshal into `any`. */
  function Decode(j: Json): Json {
    match j
    case Num(n) => Num(Float64(n))
    case Arr(items) => Arr(seq(|items|, i requires 0 <= i < |items| => Decode(items[i])))
    case Obj(fields) => Obj(map k | k in fields :: Decode(fields[k]))
    case _ => j
  }

  /** sameJSON on two marshalled requests. */
  predicate SameJson(a: Json, b: Json) {
    Decode(a) == Decode(b)
  }

  /** Every number of the tree is a safe integer. */
  ghost predicate Safe(j: Json) {
    match j
    case Num(n) => -P53 <= n <= P53
    case Arr(items) => forall i :: 0 <= i < |items| ==> Safe(items[i])
    case Obj(fields) => forall k :: k in fields ==> Safe(fields[k])
    case _ => true
  }

  lemma Float64Exact(n: int)
    requires -P53 <= n <= P53
    ensures Float64(n) == n
  {
    assert Ulp(P53) == 2 * Ulp(P53 / 2) == 2;
  }

  lemma {:induction false} DecodeSafe(j: Json)
    requires Safe(j)
    ensures Decode(j) == j
  {
    match j
    case Num(n) => Float64Exact(n);
    case Arr(items) =>
      forall i | 0 <= i < |items|
        ensures Decode(items[i]) == items[i]
      {
        DecodeSafe(items[i]);
      }
      assert Decode(j).items == items;
    case Obj(fields) =>
      forall k | k in fields
        ensures Decode(fields[k]) == fields[k]
      {
        DecodeSafe(fields[k]);
      }
      assert Decode(j).fields == fields;
    case _ =>
  }

  /** Below 2^53 the comparison is exact: two requests pass as the same only if they are. */
  lemma SameJsonExact(a: Json, b: Json)
    requires Safe(a) && Safe(b)
    ensures SameJson(a, b) <==> a == b
  {
    DecodeSafe(a);
    DecodeSafe(b);
  }

  // ---- Which numbers can be confused ----------------------------------------------------------

  const P52 := 0x10_0000_0000_0000
  const P54 := 0x40_0000_0000_0000

  /** An integer that shares its float64 with another: one from 2^53 on, unless it lies below 2^54 and is
      twice an odd number, where the neighbours round away from it. */
  predicate Blurred(n: int) {
    var m := if n < 0 then -n else n;
    m >= P53 && !(m < P54 && m % 4 == 2)
  }

  lemma Within(q: int, k: int, u: nat)
    requires q <= k
    ensures q * u <= k * u
  {
  }

  lemma Quotient(q: nat, u: nat, r: nat)
    requires r < u
    ensures (q * u + r) / u == q && (q * u + r) % u == r
  {
    QuotientBetween(q * u + r, u, q, q + 1);
  }

  lemma QuotientBetween(n: nat, u: nat, low: int, high: int)
    requires u > 0 && low * u <= n < high * u
    ensures low <= n / u < high
  {
    var q := n / u;
    assert q * u <= n < q * u + u;
    Times(q, u);
    assert q < low ==> (q + 1) * u <= low * u by {
      if q < low {
        Within(q + 1, low, u);
      }
    }
    assert high <= q ==> high * u <= q * u by {
      if high <= q {
        Within(high, q, u);
      }
    }
  }

  lemma Times(q: int, u: int)
    ensures (q + 1) * u == q * u + u
  {
  }

  /** From 2^53 on n lies between 2^52 and 2^53 spacings; below, the spacing is 1. */
  lemma {:induction false} UlpBrackets(n: nat)
    ensures n < P53 * Ulp(n) && (n >= P53 ==> P52 * Ulp(n) <= n && Ulp(n) % 2 == 0)
    ensures n >= P54 ==> Ulp(n) % 4 == 0
    ensures P53 <= n < P54 ==> Ulp(n) == 2
  {
    if n >= P53 {
      UlpBrackets(n / 2);
      if n < P54 {
        assert Ulp(n / 2) == 1;
      }
    }
  }

  /** Numbers between the same brackets have the same spacing. */
  lemma {:induction false} UlpShared(n: nat, m: nat)
    requires n >= P53 && P52 * Ulp(n) <= m < P53 * Ulp(n)
    ensures Ulp(m) == Ulp(n)
  {
    UlpBrackets(n);
    var u := Ulp(n / 2);
    assert Ulp(n) == 2 * u;
    assert P52 * u <= m / 2 < P53 * u;
    assert m >= P53;
    if n / 2 >= P53 {
      UlpShared(n / 2, m / 2);
    } else {
      assert u == 1;
    }
  }

  /** From 2^53 on n is a whole number of spacings, between 2^52 and 2^53 of them, and a rest. */
  lemma Spacings(n: nat)
    requires n >= P53
    ensures var u := Ulp(n); P52 <= n / u < P53 && n == n / u * u + n % u && n / u * u + u == (n / u + 1) * u
  {
    UlpBrackets(n);
    QuotientBetween(n, Ulp(n), P52, P53);
    Times(n / Ulp(n), Ulp(n));
  }

  /** Rounding goes to a multiple of the spacing, never further than half of it, and to the even one from
      the middle. */
  lemma {:induction false} Float64Nearest(n: nat)
    ensures var u, f := Ulp(n), Float64(n);
            && 2 * (f - n) <= u && 2 * (n - f) <= u
            && (f == n / u * u || f == (n / u + 1) * u)
            && (2 * (n % u) == u ==> f == (if n / u % 2 == 0 then n / u else n / u + 1) * u)
  {
    var u := Ulp(n);
    var q, r := n / u, n % u;
    assert n == q * u + r;
    Times(q, u);
    if 2 * r < u || (2 * r == u && q % 2 == 0) {
      assert Float64(n) == q * u;
    } else {
      assert Float64(n) == (q + 1) * u;
    }
  }

  lemma MultipleIsFloat(q: nat, u: nat)
    requires Ulp(q * u) == u
    ensures Float64(q * u) == q * u
  {
    Quotient(q, u, 0);
  }

  lemma MultipleInside(n: nat, k: nat)
    requires n >= P53 && P52 <= k < P53
    ensures Float64(k * Ulp(n)) == k * Ulp(n)
  {
    var u := Ulp(n);
    Within(P52, k, u);
    Within(k, P53 - 1, u);
    UlpShared(n, k * u);
    MultipleIsFloat(k, u);
  }

  lemma DoubleSpacing(n: nat)
    requires n >= P53
    ensures Ulp(2 * n) == 2 * Ulp(n)
  {
    assert 2 * n / 2 == n;
  }

  /** At a power of two the spacing doubles. */
  lemma PowerIsFloat(n: nat)
    requires n >= P53
    ensures Float64(P53 * Ulp(n)) == P53 * Ulp(n)
  {
    DoubleSpacing(n);
    MultipleInside(2 * n, P52);
    assert P52 * Ulp(2 * n) == P53 * Ulp(n);
  }

  /** The multiple of the spacing next above n is a float64. */
  lemma NextIsFloat(n: nat)
    requires n >= P53
    ensures Float64((n / Ulp(n) + 1) * Ulp(n)) == (n / Ulp(n) + 1) * Ulp(n)
  {
    Spacings(n);
    var k := n / Ulp(n) + 1;
    if k < P53 {
      MultipleInside(n, k);
    } else {
      PowerIsFloat(n);
      assert k == P53;
    }
  }

  /** Every integer of n's block has n's spacing and quotient. */
  lemma InBlock(n: nat, m: nat, r: nat)
    requires n >= P53 && r < Ulp(n) && m == n / Ulp(n) * Ulp(n) + r
    ensures Ulp(m) == Ulp(n) && m / Ulp(n) == n / Ulp(n) && m % Ulp(n) == r
  {
    var u := Ulp(n);
    var q := n / u;
    Spacings(n);
    Within(P52, q, u);
    Within(q + 1, P53, u);
    UlpShared(n, m);
    Quotient(q, u, r);
  }

  /** A multiple of the spacing: the number above rounds down to it. With a spacing of two it is a multiple
      of four, and the odd number above ties to it. */
  lemma TwinAbove(n: nat)
    requires Blurred(n) && n % Ulp(n) == 0
    ensures Float64(n + 1) == Float64(n)
  {
    var u := Ulp(n);
    UlpBrackets(n);
    Spacings(n);
    InBlock(n, n + 1, 1);
    InBlock(n, n, 0);
    assert u == 2 ==> n / u % 2 == 0;
    Below(n / u, u, 0);
    Below(n / u, u, 1);
  }

  /** Rounding down, said of quotient and rest. */
  lemma Below(q: nat, u: nat, r: nat)
    requires Ulp(q * u + r) == u && r < u && (2 * r < u || (2 * r == u && q % 2 == 0))
    ensures Float64(q * u + r) == q * u
  {
    Quotient(q, u, r);
  }

  lemma TwinNumber(n: nat) returns (m: nat)
    requires Blurred(n)
    ensures m != n && Float64(m) == Float64(n)
  {
    var u := Ulp(n);
    var q, r := n / u, n % u;
    UlpBrackets(n);
    Spacings(n);
    if r == 0 {
      m := n + 1;
      TwinAbove(n);
    } else if 2 * r < u || (2 * r == u && q % 2 == 0) {
      m := q * u;
      InBlock(n, m, 0);
      Below(q, u, 0);
      Below(q, u, r);
    } else {
      m := (q + 1) * u;
      NextIsFloat(n);
    }
  }

  /** Rounding keeps to the side of 2^53 and 2^54 a number is on. */
  lemma RoundsInRange(m: nat)
    ensures m < P53 ==> Float64(m) == m
    ensures m >= P53 ==> Float64(m) >= P53
    ensures m >= P54 ==> Float64(m) >= P54
  {
    if m < P53 {
      Float64Exact(m);
    } else {
      UlpBrackets(m);
      Spacings(m);
      Within(P52, m / Ulp(m), Ulp(m));
    }
  }

  lemma SharpNumber(n: nat, m: nat)
    requires !Blurred(n) && Float64(m) == Float64(n)
    ensures m == n
  {
    RoundsInRange(n);
    RoundsInRange(m);
    UlpBrackets(n);
    UlpBrackets(m);
  }

  lemma TwinInteger(n: int) returns (m: int)
    requires Blurred(n)
    ensures m != n && Float64(m) == Float64(n)
  {
    if n < 0 {
      var k := TwinNumber(-n);
      RoundsInRange(k);
      RoundsInRange(-n);
      m := -(k as int);
    } else {
      m := TwinNumber(n);
    }
  }

  /** A number can be confused with another exactly if it is blurred. */
  lemma NumberConfusedExactly(n: int)
    ensures (exists m :: m != n && Float64(m) == Float64(n)) <==> Blurred(n)
  {
    if Blurred(n) {
      var m := TwinInteger(n);
    } else {
      forall m | Float64(m) == Float64(n)
        ensures m == n
      {
        SharpInteger(n, m);
      }
    }
  }

  lemma SharpInteger(n: int, m: int)
    requires !Blurred(n) && Float64(m) == Float64(n)
    ensures m == n
  {
    var a, b := if n < 0 then -n else n, if m < 0 then -m else m;
    RoundsInRange(a);
    RoundsInRange(b);
    SharpNumber(a, b);
  }

  // ---- Which requests can be confused ---------------------------------------------------------

  /** Some number of the tree is blurred. */
  ghost predicate Confusable(j: Json) {
    match j
    case Num(n) => Blurred(n)
    case Arr(items) => exists i :: 0 <= i < |items| && Confusable(items[i])
    case Obj(fields) => exists k :: k in fields && Confusable(fields[k])
    case _ => false
  }

  lemma {:induction false} TwinRequest(j: Json) returns (t: Json)
    requires Confusable(j)
    ensures t != j && SameJson(t, j)
  {
    match j
    case Num(n) =>
      var m := TwinInteger(n);
      t := Num(m);
    case Arr(items) =>
      var i :| 0 <= i < |items| && Confusable(items[i]);
      var x := TwinRequest(items[i]);
      t := Arr(items[i := x]);
      assert t.items[i] != items[i];
      assert Decode(t).items == Decode(j).items;
    case Obj(fields) =>
      var k :| k in fields && Confusable(fields[k]);
      var x := TwinRequest(fields[k]);
      t := Obj(fields[k := x]);
      assert t.fields[k] != fields[k];
      assert Decode(t).fields == Decode(j).fields;
  }

  lemma {:induction false} SharpRequest(j: Json, t: Json)
    requires !Confusable(j) && SameJson(t, j)
    ensures t == j
  {
    match j
    case Num(n) => SharpInteger(n, t.n);
    case Arr(items) =>
      assert Decode(t).items == Decode(j).items;
      forall i | 0 <= i < |items|
        ensures t.items[i] == items[i]
      {
        assert Decode(t).items[i] == Decode(j).items[i];
        SharpRequest(items[i], t.items[i]);
      }
      assert t.items == items;
    case Obj(fields) =>
      assert Decode(t).fields == Decode(j).fields;
      assert t.fields.Keys == Decode(t).fields.Keys == fields.Keys;
      forall k | k in fields
        ensures t.fields[k] == fields[k]
      {
        assert Decode(t).fields[k] == Decode(j).fields[k];
        SharpRequest(fields[k], t.fields[k]);
      }
      assert t.fields == fields;
    case _ =>
  }

  /** A request passes as another one exactly if it holds a blurred number. */
  lemma ConfusedExactly(j: Json)
    ensures (exists t :: t != j && SameJson(t, j)) <==> Confusable(j)
  {
    if Confusable(j) {
      var t := TwinRequest(j);
    } else {
      forall t | SameJson(t, j)
        ensures t == j
      {
        SharpRequest(j, t);
      }
    }
  }

  /** Two session hashes one apart that pass as one, and two that do not although both are above 2^53. */
  lemma SameJsonCollides() returns (a: Json, b: Json)
    ensures a != b && SameJson(a, b)
    ensures !SameJson(Num(P53 + 2), Num(P53 + 4))
  {
    if SameJson(Num(P53 + 2), Num(P53 + 4)) {
      SharpInteger(P53 + 2, P53 + 4);
    }
    a, b := Obj(map["hash" := Num(P53)]), Obj(map["hash" := Num(P53 + 1)]);
    Float64Exact(P53);
    assert Ulp(P53 + 1) == 2 * Ulp(P53 / 2) == 2;
    assert Float64(P53 + 1) == P53;
    assert a.fields["hash"] != b.fields["hash"];
    assert Decode(a).fields == map["hash" := Num(P53)];
    assert Decode(b).fields == map["hash" := Num(P53)];
  }
}
