/** The Python bytes-literal decoder: an index loop proved against a recursive reading of the escapes,
    and the round trip with Python's repr. A string here is what it is in Go, a sequence of bytes. */
module PythonLiteral {
  import opened Common

  type Byte = c: char | c as int < 256 witness '\0'
  type Text = seq<Byte>

  // ---- Digits -----------------------------------------------------------------------------

  function HexDigit(n: int): Byte
    requires 0 <= n < 16
  {
    if n < 10 then (n + 48) as char else (n + 87) as char
  }

  function HexValue(c: Byte): Option<int> {
    if '0' <= c <= '9' then Some(c as int - 48)
    else if 'a' <= c <= 'f' then Some(c as int - 87)
    else if 'A' <= c <= 'F' then Some(c as int - 55)
    else None
  }

  /** The value of a hexadecimal digit is its place among the sixteen, in either case. */
  lemma HexValueExact(c: Byte, v: int)
    ensures HexValue(c) == Some(v) <==> 0 <= v < 16 && (c == "0123456789abcdef"[v] || c == "0123456789ABCDEF"[v])
  {
  }

  lemma HexDigitValue(n: int)
    requires 0 <= n < 16
    ensures HexValue(HexDigit(n)) == Some(n)
  {
  }

  function HexPair(b: Byte): Text {
    [HexDigit(b as int / 16), HexDigit(b as int % 16)]
  }

  /** hex.EncodeToString */
  function Hex(bytes: Text): Text {
    if bytes == [] then [] else HexPair(bytes[0]) + Hex(bytes[1..])
  }

  /** The byte two hexadecimal digits spell. */
  function ParseHex(hi: Byte, lo: Byte): Option<Byte> {
    if HexValue(hi).Some? && HexValue(lo).Some? then Some((HexValue(hi).value * 16 + HexValue(lo).value) as char)
        else None
  }

  function Unhex(s: Text): Option<Text> {
    if s == [] then Some([])
    else if |s| == 1 || ParseHex(s[0], s[1]).None? || Unhex(s[2..]).None? then None
    else Some([ParseHex(s[0], s[1]).value] + Unhex(s[2..]).value)
  }

  /** Hex loses nothing. */
  lemma {:induction false} HexRoundTrip(bytes: Text)
    ensures Unhex(Hex(bytes)) == Some(bytes)
  {
    if bytes != [] {
      HexRoundTrip(bytes[1..]);
      assert Hex(bytes)[2..] == Hex(bytes[1..]);
      HexDigitValue(bytes[0] as int / 16);
      HexDigitValue(bytes[0] as int % 16);
      assert ParseHex(Hex(bytes)[0], Hex(bytes)[1]) == Some(bytes[0]);
      assert [bytes[0]] + bytes[1..] == bytes;
    }
  }

  predicate Octal(c: Byte) {
    '0' <= c <= '7'
  }

  lemma OctalExact(c: Byte)
    ensures Octal(c) <==> c in "01234567"
  {
    assert "01234567"[0] == '0' && "01234567"[7] == '7';
    if Octal(c) {
      assert "01234567"[c as int - 48] == c;
    }
  }

  function OctalValue(digits: Text): nat
    requires forall i :: 0 <= i < |digits| ==> Octal(digits[i])
  {
    if digits == [] then 0
    else
      assert Octal(digits[|digits| - 1]);
      OctalValue(digits[..|digits| - 1]) * 8 + (digits[|digits| - 1] as int - 48)
  }

  /** How many octal digits an escape takes: at most three. */
  function OctalLength(s: Text): (n: nat)
    requires s != [] && Octal(s[0])
    ensures 1 <= n <= 3 && n <= |s|
    ensures forall i :: 0 <= i < n ==> Octal(s[i])
    ensures n == 3 || n == |s| || !Octal(s[n])
  {
    if |s| == 1 || !Octal(s[1]) then 1
    else if |s| == 2 || !Octal(s[2]) then 2
    else 3
  }

  // ---- Reading the escapes ----------------------------------------------------------------

  /** One-character escapes. */
  function Simple(c: Byte): Option<Byte> {
    match c
    case '\\' => Some(c)
    case '\'' => Some(c)
    case '"' => Some(c)
    case 'a' => Some(7 as char)
    case 'b' => Some(8 as char)
    case 'f' => Some(12 as char)
    case 'n' => Some('\n')
    case 'r' => Some('\r')
    case 't' => Some('\t')
    case 'v' => Some(11 as char)
    case _ => None
  }

  /** What one escape or character at the front stands for, and how many characters it takes. */
  datatype Token = Token(byte: Byte, length: nat)

  const SHORT := "short hex escape"
  const INVALID := "invalid digits"

  function First(s: Text): (r: Result<Token>)
    requires s != []
    ensures r.Ok? ==> 0 < r.value.length <= |s|
  {
    if s[0] != '\\' then Ok(Token(s[0], 1))
    else if |s| == 1 then Ok(Token('\\', 1))
    else if Simple(s[1]).Some? then Ok(Token(Simple(s[1]).value, 2))
    else if s[1] == 'x' then
      if |s| < 4 then Err(SHORT)
      else if ParseHex(s[2], s[3]).None? then Err(INVALID)
      else Ok(Token(ParseHex(s[2], s[3]).value, 4))
    else if Octal(s[1]) then
      var n := OctalLength(s[1..]);
      var value := OctalValue(s[1..][..n]);
      if value > 255 then Err(INVALID) else Ok(Token(value as char, 1 + n))
    else Ok(Token(s[1], 2))
  }

  /** The bytes an inner text stands for. */
  function Decode(s: Text): Result<Text> {
    if s == [] then Ok([])
    else
      match First(s)
      case Err(e) => Err(e)
      case Ok(Token(b, n)) => Prepend([b], Decode(s[n..]))
  }

  function Prepend(out: Text, r: Result<Text>): Result<Text> {
    if r.Ok? then Ok(out + r.value) else r
  }

  /** A text with the prefix of a bytes literal. */
  predicate LooksLiteral(s: Text) {
    |s| >= 3 && s[0] == 'b' && (s[1] == '\'' || s[1] == '"')
  }

  /** None: not a literal, keep the text; Some: its bytes in hexadecimal. */
  function ToHex(s: Text): Result<Option<Text>> {
    if !LooksLiteral(s) then Ok(None)
    else if s[|s| - 1] != s[1] then Err(INVALID)
    else
      match Decode(s[2..|s| - 1])
      case Err(e) => Err(e)
      case Ok(out) => Ok(Some(Hex(out)))
  }

  /** The loop has read the first i characters into `out`. */
  ghost predicate Reads(inner: Text, out: Text, i: nat)
    requires i <= |inner|
  {
    Decode(inner) == Prepend(out, Decode(inner[i..]))
  }

  /** Reading on from i after taking the token at i. */
  lemma {:induction false} Advance(inner: Text, out: Text, i: nat)
    requires i < |inner| && Reads(inner, out, i)
    ensures First(inner[i..]).Err? ==> Decode(inner) == Err(First(inner[i..]).error)
    ensures First(inner[i..]).Ok? ==>
              var t := First(inner[i..]).value; Reads(inner, out + [t.byte], i + t.length)
  {
    if First(inner[i..]).Ok? {
      var t := First(inner[i..]).value;
      assert inner[i..][t.length..] == inner[i + t.length..];
      var rest := Decode(inner[i + t.length..]);
      if rest.Ok? {
        assert out + ([t.byte] + rest.value) == (out + [t.byte]) + rest.value;
      }
    }
  }

  lemma {:induction false} ReadsEnds(inner: Text, out: Text)
    ensures Reads(inner, [], 0)
    ensures Reads(inner, out, |inner|) ==> Decode(inner) == Ok(out)
  {
    assert inner[0..] == inner && inner[|inner|..] == [];
    assert Decode(inner).Ok? ==> [] + Decode(inner).value == Decode(inner).value;
    assert out + [] == out;
  }

  /** The loop over octal digits: the index ends on the last digit of the escape. */
  method ScanOctal(inner: Text, start: nat) returns (i: nat)
    requires start < |inner| && Octal(inner[start])
    ensures i + 1 == start + OctalLength(inner[start..])
  {
    i := start;
    while i + 1 < |inner| && i - start < 2 && '0' <= inner[i + 1] <= '7'
      invariant start <= i < |inner| && i - start <= 2
      invariant forall j :: start <= j <= i ==> Octal(inner[j])
    {
      i := i + 1;
    }
    ghost var s := inner[start..];
    assert forall j :: 0 <= j <= i - start ==> Octal(s[j]) by {
      forall j | 0 <= j <= i - start
        ensures Octal(s[j])
      {
        assert s[j] == inner[start + j];
      }
    }
    assert i + 1 < |inner| ==> s[i + 1 - start] == inner[i + 1];
  }

  /** One turn of the loop: a plain character, or the switch on the character after a backslash;
      `next` is where reading goes on. */
  method ReadToken(inner: Text, start: nat) returns (r: Result<Byte>, next: nat)
    requires start < |inner|
    ensures match First(inner[start..])
            case Err(e) => r == Err(e)
            case Ok(t) => r == Ok(t.byte) && next == start + t.length
  {
    ghost var s := inner[start..];
    var i := start + 1;
    next := i;
    if inner[start] != '\\' {
      return Ok(inner[start]), next;
    }
    if i >= |inner| {
      return Ok('\\'), next;
    }
    var c := inner[i];
    assert s[1..] == inner[i..] && s[1] == c;
    next := i + 1;
    if Simple(c).Some? {
      r := Ok(Simple(c).value);
    } else if c == 'x' {
      if i + 2 >= |inner| {
        return Err(SHORT), next;
      }
      assert s[2] == inner[i + 1] && s[3] == inner[i + 2];
      var b := ParseHex(inner[i + 1], inner[i + 2]);
      if b.None? {
        return Err(INVALID), next;
      }
      r, next := Ok(b.value), i + 3;
    } else if '0' <= c <= '7' {
      i := ScanOctal(inner, i);
      assert inner[start + 1..i + 1] == s[1..][..i - start];
      var b := OctalValue(inner[start + 1..i + 1]);
      if b > 255 {
        return Err(INVALID), next;
      }
      r, next := Ok(b as char), i + 1;
    } else {
      r := Ok(c);
    }
  }

  /** The index loop stays in bounds, ends on every input and reads the escapes as Decode does. */
  method DecodeInner(inner: Text) returns (r: Result<Text>)
    ensures r == Decode(inner)
  {
    var out: Text := [];
    var i := 0;
    ReadsEnds(inner, []);
    while i < |inner|
      invariant i <= |inner| && Reads(inner, out, i)
    {
      Advance(inner, out, i);
      var b, next := ReadToken(inner, i);
      if b.Err? {
        return Err(b.error);
      }
      out, i := out + [b.value], next;
    }
    ReadsEnds(inner, out);
    r := Ok(out);
  }

  /** pythonBytesLiteralToHex */
  method PythonBytesLiteralToHex(s: Text) returns (text: Text, converted: bool, err: Option<string>)
    ensures match ToHex(s)
            case Err(e) => err == Some(e) && text == [] && !converted
            case Ok(None) => err.None? && text == s && !converted
            case Ok(Some(h)) => err.None? && text == h && converted
    ensures converted || err.Some? <==> |s| >= 3 && s[0] == 'b' && (s[1] == '\'' || s[1] == '"')
    ensures !converted && err.None? ==> text == s
    ensures converted ==> s[|s| - 1] == s[1] && Decode(s[2..|s| - 1]).Ok? && text == Hex(Decode(s[2..|s| - 1]).value)
    ensures err.Some? ==> s[|s| - 1] != s[1] || Decode(s[2..|s| - 1]).Err?
  {
    if |s| < 3 || s[0] != 'b' || (s[1] != '\'' && s[1] != '"') {
      return s, false, None;
    }
    var quote := s[1];
    if s[|s| - 1] != quote {
      return [], false, Some(INVALID);
    }
    var out := DecodeInner(s[2..|s| - 1]);
    if out.Err? {
      return [], false, Some(out.error);
    }
    text, converted, err := Hex(out.value), true, None;
  }

  // ---- Python's spellings -----------------------------------------------------------------

  /** The escapes with a name of their own, by the code of the byte they stand for. */
  const NAMED: map<char, int> := map[
    '\\' := 92, '\'' := 39, '"' := 34, 'a' := 7, 'b' := 8, 'f' := 12, 'n' := 10, 'r' := 13, 't' := 9, 'v' := 11
  ]

  /** How Python may write one byte when `rest` follows: itself, a named escape, two hexadecimal digits
      in either case, or up to three octal digits that no further octal digit continues. */
  ghost predicate Spells(t: Text, b: Byte, rest: Text) {
    || (t == [b] && b != '\\')
    || (|t| == 2 && t[0] == '\\' && t[1] in NAMED && NAMED[t[1]] == b as int)
    || (|t| == 4 && t[0] == '\\' && t[1] == 'x' && HexValue(t[2]).Some? && HexValue(t[3]).Some?
        && HexValue(t[2]).value * 16 + HexValue(t[3]).value == b as int)
    || (2 <= |t| <= 4 && t[0] == '\\' && (forall i :: 1 <= i < |t| ==> Octal(t[i])) && OctalCode(t[1..]) == b as int
        && (|t| == 4 || rest == [] || !Octal(rest[0])))
  }

  /** Octal digits read from the left. */
  function OctalCode(digits: Text): int {
    if |digits| == 1 then digits[0] as int - 48
    else if |digits| == 2 then (digits[0] as int - 48) * 8 + (digits[1] as int - 48)
    else if |digits| == 3 then (digits[0] as int - 48) * 64 + (digits[1] as int - 48) * 8 + (digits[2] as int - 48)
    else -1
  }

  /** A literal's inner text, byte by byte with its spelling. */
  datatype Spelled = Spelled(text: Text, byte: Byte)

  function Written(parts: seq<Spelled>): Text {
    if parts == [] then [] else parts[0].text + Written(parts[1..])
  }

  function Meant(parts: seq<Spelled>): Text {
    if parts == [] then [] else [parts[0].byte] + Meant(parts[1..])
  }

  ghost predicate WellSpelled(parts: seq<Spelled>) {
    parts == [] || (Spells(parts[0].text, parts[0].byte, Written(parts[1..])) && WellSpelled(parts[1..]))
  }

  lemma OctalSpelling(t: Text, b: Byte, rest: Text)
    requires 2 <= |t| <= 4 && t[0] == '\\' && (forall i :: 1 <= i < |t| ==> Octal(t[i])) &&
              OctalCode(t[1..]) == b as int
    requires |t| == 4 || rest == [] || !Octal(rest[0])
    ensures First(t + rest) == Ok(Token(b, |t|))
  {
    var s := t + rest;
    assert forall i :: 0 <= i < |t| ==> s[i] == t[i];
    assert Simple(s[1]).None?;
    var tail, digits := s[1..], t[1..];
    assert tail == digits + rest;
    assert forall i :: 0 <= i < |digits| ==> tail[i] == digits[i] == t[i + 1];
    assert OctalLength(tail) == |digits|;
    assert tail[..|digits|] == digits;
    OctalValueIsCode(digits);
  }

  lemma OctalValueIsCode(digits: Text)
    requires 1 <= |digits| <= 3 && forall i :: 0 <= i < |digits| ==> Octal(digits[i])
    ensures OctalValue(digits) == OctalCode(digits)
  {
  }

  lemma SpellingReads(t: Text, b: Byte, rest: Text)
    requires Spells(t, b, rest)
    ensures t != [] && First(t + rest) == Ok(Token(b, |t|))
  {
    var s := t + rest;
    assert forall i :: 0 <= i < |t| ==> s[i] == t[i];
    if t == [b] && b != '\\' {
    } else if |t| == 2 && t[1] in NAMED && NAMED[t[1]] == b as int {
      assert Simple(t[1]) == Some(b);
    } else if |t| == 4 && t[1] == 'x' {
      assert Simple('x').None?;
    } else {
      OctalSpelling(t, b, rest);
    }
  }

  /** Whatever mix of spellings Python allows, the decoder reads the bytes that were meant. */
  lemma {:induction false} SpellingsRead(parts: seq<Spelled>)
    requires WellSpelled(parts)
    ensures Decode(Written(parts)) == Ok(Meant(parts))
  {
    if parts != [] {
      var t, rest := parts[0].text, Written(parts[1..]);
      SpellingReads(t, parts[0].byte, rest);
      SpellingsRead(parts[1..]);
      assert (t + rest)[|t|..] == rest;
    }
  }

  // ---- Python's repr ----------------------------------------------------------------------

  /** How repr writes one byte between the given quotes. */
  function ReprByte(b: Byte, quote: Byte): Text {
    if b == quote || b == '\\' then ['\\', b]
    else if b == '\t' then "\\t"
    else if b == '\n' then "\\n"
    else if b == '\r' then "\\r"
    else if b < ' ' || b as int >= 127 then ['\\', 'x'] + HexPair(b)
    else [b]
  }

  function ReprBody(bytes: Text, quote: Byte): Text {
    if bytes == [] then [] else ReprByte(bytes[0], quote) + ReprBody(bytes[1..], quote)
  }

  /** repr of a bytes object: double quotes only around bytes with a single and no double quote. */
  function Repr(bytes: Text): Text {
    var quote: Byte := if '\'' in bytes && '"' !in bytes then '"' else '\'';
    ['b', quote] + ReprBody(bytes, quote) + [quote]
  }

  lemma ReprByteReads(b: Byte, quote: Byte, rest: Text)
    requires quote == '\'' || quote == '"'
    ensures First(ReprByte(b, quote) + rest) == Ok(Token(b, |ReprByte(b, quote)|))
  {
    var r := ReprByte(b, quote);
    var s := r + rest;
    assert forall i :: 0 <= i < |r| ==> s[i] == r[i];
    if |r| == 4 {
      HexDigitValue(b as int / 16);
      HexDigitValue(b as int % 16);
      assert r[2] == HexDigit(b as int / 16) && r[3] == HexDigit(b as int % 16);
      assert s[0] == '\\' && s[1] == 'x';
      assert Simple('x').None?;
      assert ParseHex(s[2], s[3]) == Some(b);
    } else if |r| == 2 {
      assert Simple(s[1]) == Some(b);
    }
  }

  lemma {:induction false} ReprBodyReads(bytes: Text, quote: Byte)
    requires quote == '\'' || quote == '"'
    ensures Decode(ReprBody(bytes, quote)) == Ok(bytes)
  {
    if bytes != [] {
      var head, rest := ReprByte(bytes[0], quote), ReprBody(bytes[1..], quote);
      ReprByteReads(bytes[0], quote, rest);
      ReprBodyReads(bytes[1..], quote);
      assert (head + rest)[|head|..] == rest;
      assert [bytes[0]] + bytes[1..] == bytes;
    }
  }

  /** Decoding the repr of any byte string gives that string's hexadecimal form. */
  lemma {:induction false} ReprRoundTrip(bytes: Text)
    ensures ToHex(Repr(bytes)) == Ok(Some(Hex(bytes)))
  {
    var quote: Byte := if '\'' in bytes && '"' !in bytes then '"' else '\'';
    var s := Repr(bytes);
    assert s[2..|s| - 1] == ReprBody(bytes, quote);
    ReprBodyReads(bytes, quote);
  }

  // ---- Where the decoder departs from Python ------------------------------------------------

  /** A backslash with nothing Python or the decoder knows after it: no named escape, no x, no octal
      digit. */
  predicate Unknown(c: Byte) {
    c !in NAMED && c != 'x' && !Octal(c)
  }

  /** What Python reads at the front: the bytes, and how many characters they take. A backslash before a
      newline joins lines, one before an unknown character stays, a last one is refused, and an octal
      escape counts modulo 256. */
  datatype PyToken = PyToken(bytes: Text, length: nat)

  function PyFirst(s: Text): (r: Result<PyToken>)
    requires s != []
    ensures r.Ok? ==> 0 < r.value.length <= |s|
  {
    if s[0] != '\\' then Ok(PyToken([s[0]], 1))
    else if |s| == 1 then Err("trailing backslash")
    else if s[1] == '\n' then Ok(PyToken([], 2))
    else if s[1] in NAMED then Ok(PyToken([NAMED[s[1]] as char], 2))
    else if s[1] == 'x' then
      if |s| < 4 || HexValue(s[2]).None? || HexValue(s[3]).None? then Err("invalid hex escape")
      else Ok(PyToken([(HexValue(s[2]).value * 16 + HexValue(s[3]).value) as char], 4))
    else if Octal(s[1]) then
      var n := OctalLength(s[1..]);
      Ok(PyToken([(OctalValue(s[1..][..n]) % 256) as char], 1 + n))
    else Ok(PyToken(['\\', s[1]], 2))
  }

  /** Python's reading of an inner text. */
  function PyDecode(s: Text): Result<Text> {
    if s == [] then Ok([])
    else
      match PyFirst(s)
      case Err(e) => Err(e)
      case Ok(PyToken(b, n)) => Prepend(b, PyDecode(s[n..]))
  }

  /** Reading from the front meets an unknown escape, a joined line or a last backslash. */
  predicate Departs(s: Text) {
    s != [] &&
    ( || (s[0] == '\\' && (|s| == 1 || Unknown(s[1])))
      || (First(s).Ok? && Departs(s[First(s).value.length..])))
  }

  /** Reading from the front meets an octal escape above 377. */
  predicate WideOctal(s: Text) {
    s != [] &&
    ( || (s[0] == '\\' && |s| > 1 && Octal(s[1]) && OctalValue(s[1..][..OctalLength(s[1..])]) > 255)
      || (First(s).Ok? && WideOctal(s[First(s).value.length..])))
  }

  lemma NamedIsSimple(c: Byte)
    ensures c in NAMED <==> Simple(c).Some?
    ensures c in NAMED ==> NAMED[c] == Simple(c).value as int
  {
  }

  /** Token by token: the same byte over the same length, unless the token is one of the three. */
  lemma SameToken(s: Text)
    requires s != [] && First(s).Ok?
    ensures var t := First(s).value;
            if s[0] == '\\' && |s| == 1 then PyFirst(s).Err?
            else if s[0] == '\\' && s[1] == '\n' then PyFirst(s) == Ok(PyToken([], t.length)) && t.byte == '\n'
            else if s[0] == '\\' && Unknown(s[1]) then
              PyFirst(s) == Ok(PyToken(['\\', t.byte], t.length)) && t.byte != '\\' && t.byte != '\n'
            else PyFirst(s) == Ok(PyToken([t.byte], t.length))
  {
    if s[0] == '\\' && |s| > 1 {
      NamedIsSimple(s[1]);
    }
  }

  function Newlines(k: nat): Text {
    seq(k, _ => '\n')
  }

  /** One token read while Python is behind by k newlines: still behind, or different for good. */
  lemma StillBehind(k: nat, py: Text, p: Text, b: Byte, d: Text)
    requires k > 0 && (py == [b] || (py == [] && b == '\n') || (|py| == 2 && py[0] == '\\'))
    requires py + p == Newlines(k) + ([b] + d)
    ensures p == Newlines(k) + d || p == Newlines(k + 1) + d
  {
    var want := Newlines(k) + ([b] + d);
    assert want[0] == '\n';
    assert py != [] ==> (py + p)[0] == py[0];
    if py == [] {
      assert p == py + p;
      assert want == Newlines(k + 1) + d;
    } else {
      assert p == (py + p)[1..];
      assert want[1..] == Newlines(k) + d;
    }
  }

  /** After joined lines Python is behind by the newlines the decoder kept, and never catches up. */
  lemma {:induction false} NeverCatchesUp(s: Text, k: nat)
    requires Decode(s).Ok? && k > 0
    ensures PyDecode(s) != Ok(Newlines(k) + Decode(s).value)
    decreases |s|
  {
    if s == [] {
      assert (Newlines(k) + [])[0] == '\n';
    } else {
      var t := First(s).value;
      var rest := s[t.length..];
      SameToken(s);
      NeverCatchesUp(rest, k);
      NeverCatchesUp(rest, k + 1);
      if PyDecode(s) == Ok(Newlines(k) + Decode(s).value) {
        StillBehind(k, PyFirst(s).value.bytes, PyDecode(rest).value, t.byte, Decode(rest).value);
      }
    }
  }

  /** What the decoder accepts it reads as Python does if and only if no token is an unknown escape, a
      joined line or a last backslash. */
  lemma {:induction false} ReadsAsPython(s: Text)
    requires Decode(s).Ok?
    ensures PyDecode(s) == Decode(s) <==> !Departs(s)
  {
    if s != [] {
      var t := First(s).value;
      var rest := s[t.length..];
      SameToken(s);
      ReadsAsPython(rest);
      var d := Decode(rest).value;
      assert Decode(s).value == [t.byte] + d;
      if PyFirst(s).Ok? && PyDecode(rest).Ok? {
        var py, p := PyFirst(s).value.bytes, PyDecode(rest).value;
        assert PyDecode(s).value == py + p;
        if py == [] {
          NeverCatchesUp(rest, 1);
          assert Newlines(1) == ['\n'];
          assert PyDecode(s).value == p;
        } else if |py| == 2 {
          assert PyDecode(s).value[0] == '\\' && Decode(s).value[0] == t.byte;
        } else {
          assert PyDecode(s).value[1..] == p && Decode(s).value[1..] == d;
        }
      }
    }
  }

  /** What the decoder refuses Python refuses too, unless there is an octal escape above 377; and with
      such an escape the decoder always refuses. */
  lemma {:induction false} RefusesAsPython(s: Text)
    ensures Decode(s).Err? && !WideOctal(s) ==> PyDecode(s).Err?
    ensures WideOctal(s) ==> Decode(s).Err?
  {
    if s != [] {
      if First(s).Ok? {
        SameToken(s);
        RefusesAsPython(s[First(s).value.length..]);
      } else {
        NamedIsSimple(s[1]);
      }
    }
  }

  lemma HexInjective(a: Text, b: Text)
    ensures Hex(a) == Hex(b) <==> a == b
  {
    HexRoundTrip(a);
    HexRoundTrip(b);
  }

  /** A converted literal has the hexadecimal form of the bytes Python gives it exactly if its inner text
      does not depart. */
  lemma LiteralReadsAsPython(s: Text)
    requires LooksLiteral(s) && ToHex(s).Ok?
    ensures var inner := s[2..|s| - 1];
            (PyDecode(inner).Ok? && ToHex(s).value == Some(Hex(PyDecode(inner).value))) <==> !Departs(inner)
  {
    var inner := s[2..|s| - 1];
    ReadsAsPython(inner);
    if PyDecode(inner).Ok? {
      HexInjective(Decode(inner).value, PyDecode(inner).value);
    }
  }

  /** The three departures on the shortest literals: Python keeps the backslash of an unknown escape,
      drops a joined line and refuses a last backslash. */
  lemma UnknownEscapeDropsBackslash(c: Byte)
    requires Unknown(c) && c != '\n'
    ensures ToHex(['b', '\'', '\\', c, '\'']) == Ok(Some(Hex([c]))) && PyDecode(['\\', c]) == Ok(['\\', c])
    ensures Decode(['\\', '\n']) == Ok(['\n']) && PyDecode(['\\', '\n']) == Ok([])
    ensures Decode(['\\']) == Ok(['\\']) && PyDecode(['\\']).Err?
  {
    var s: Text := ['b', '\'', '\\', c, '\''];
    var inner: Text := ['\\', c];
    assert s[2..4] == inner && inner[2..] == [];
    NamedIsSimple(c);
    assert First(inner) == Ok(Token(c, 2));
    assert Decode(inner) == Prepend([c], Decode([]));
    assert PyDecode(inner) == Prepend(inner, PyDecode([]));
    assert inner + [] == inner && [c] + [] == [c];
    var joined: Text := ['\\', '\n'];
    assert joined[2..] == [];
    assert Decode(joined) == Prepend(['\n'], Decode([])) && ['\n'] + [] == ['\n'];
    var none: Text := [];
    assert PyDecode(joined) == Prepend(none, PyDecode(none)) && none + none == none;
    var last: Text := ['\\'];
    assert last[1..] == [] && last + [] == last;
    assert Decode(last) == Prepend(last, Decode([]));
  }
}

/** normalizeSeedJSON over JSON trees. */
module SeedJson {
  import opened Common
  import opened PythonLiteral

  datatype Json =
    | Object(fields: map<Text, Json>)
    | Array(items: seq<Json>)
    | String(text: Text)
    | Other(token: Text)

  const HEX_REF: Text := "file_reference_hex"
  const REF: Text := "file_reference"
  const BYTES: Text := "bytes"

  /** The fields after file_reference_hex has replaced file_reference. */
  function Moved(fields: map<Text, Json>): map<Text, Json> {
    if HEX_REF in fields then fields[REF := fields[HEX_REF]] - {HEX_REF} else fields
  }

  /** The key under which the tree holds what Moved lists under k. */
  function Origin(fields: map<Text, Json>, k: Text): (o: Text)
    requires k in Moved(fields)
    ensures o in fields && fields[o] == Moved(fields)[k]
  {
    if k == REF && HEX_REF in fields then HEX_REF else k
  }

  const BAD := "invalid bytes literal"

  function NormalBytes(s: Text): Result<Json> {
    match ToHex(s)
    case Err(_) => Err(BAD)
    case Ok(None) => Ok(String(s))
    case Ok(Some(h)) => Ok(String(h))
  }

  function Normalize(v: Json): Result<Json>
    decreases v, 1
  {
    match v
    case Object(fields) =>
      var moved := Moved(fields);
      if exists k :: k in moved && Field(fields, k).Err? then Err(BAD)
      else Ok(Object(map k | k in moved :: Field(fields, k).value))
    case Array(items) =>
      if exists i :: 0 <= i < |items| && Normalize(items[i]).Err? then Err(BAD)
      else Ok(Array(seq(|items|, i requires 0 <= i < |items| => Normalize(items[i]).value)))
    case _ => Ok(v)
  }

  /** One field of an object, by its name after the move. */
  function Field(fields: map<Text, Json>, k: Text): Result<Json>
    requires k in Moved(fields)
    decreases Object(fields), 0
  {
    var child := fields[Origin(fields, k)];
    if k == BYTES && child.String? then NormalBytes(child.text) else Normalize(child)
  }

  /** The loops over sorted keys and items; a first error ends the walk. */
  method NormalizeSeedJson(v: Json) returns (r: Result<Json>)
    ensures r == Normalize(v)
    decreases v
  {
    match v
    case Object(fields) =>
      var moved := fields;
      if HEX_REF in moved {
        moved := moved[REF := moved[HEX_REF]];
        moved := moved - {HEX_REF};
      }
      var keys := moved.Keys;
      var out: map<Text, Json> := map[];
      while keys != {}
        invariant keys <= moved.Keys && out.Keys == moved.Keys - keys
        invariant forall k :: k in out ==> Field(fields, k) == Ok(out[k])
      {
        var k := Pick(keys);
        var child := fields[Origin(fields, k)];
        var c: Result<Json>;
        if k == BYTES && child.String? {
          var h, converted, err := PythonBytesLiteralToHex(child.text);
          c := if err.Some? then Err(BAD) else if converted then Ok(String(h)) else Ok(child);
        } else {
          c := NormalizeSeedJson(child);
        }
        assert c == Field(fields, k);
        if c.Err? {
          assert Normalize(v) == Err(BAD);
          NormalizeErr(child);
          return c;
        }
        keys, out := keys - {k}, out[k := c.value];
      }
      assert out == map k | k in moved :: Field(fields, k).value;
      r := Ok(Object(out));
    case Array(items) =>
      var out: seq<Json> := [];
      for i := 0 to |items|
        invariant |out| == i && forall j :: 0 <= j < i ==> Normalize(items[j]) == Ok(out[j])
      {
        var c := NormalizeSeedJson(items[i]);
        if c.Err? {
          NormalizeErr(items[i]);
          return c;
        }
        out := out + [c.value];
      }
      assert Normalize(v).Ok? && Normalize(v).value.items == out;
      r := Ok(Array(out));
    case String(_) => r := Ok(v);
    case Other(_) => r := Ok(v);
  }

  lemma NormalizeErr(v: Json)
    ensures Normalize(v).Err? ==> Normalize(v) == Err(BAD)
  {
  }

  /** What the deployed seed may hold: no file_reference_hex, no bytes literal under bytes. */
  ghost predicate Normal(v: Json) {
    match v
    case Object(fields) => HEX_REF !in fields && forall k :: k in fields ==>
        Normal(fields[k]) && (k == BYTES ==> Plain(fields[k]))
    case Array(items) => forall i :: 0 <= i < |items| ==> Normal(items[i])
    case _ => true
  }

  ghost predicate Plain(v: Json) {
    v.String? ==> !LooksLiteral(v.text)
  }

  lemma NormalBytesPlain(s: Text)
    ensures NormalBytes(s).Ok? ==> NormalBytes(s).value.String? && Plain(NormalBytes(s).value)
  {
  }

  /** Every accepted tree becomes a normal one. */
  lemma {:induction false} NormalizeGivesNormal(v: Json)
    ensures Normalize(v).Ok? ==> Normal(Normalize(v).value)
    ensures Normalize(v).Ok? && Normalize(v).value.String? ==> Normalize(v).value == v
  {
    match v
    case Object(fields) =>
      forall k | k in Moved(fields) && Field(fields, k).Ok?
        ensures Normal(Field(fields, k).value) && (k == BYTES ==> Plain(Field(fields, k).value))
      {
        var child := fields[Origin(fields, k)];
        if k == BYTES && child.String? {
          NormalBytesPlain(child.text);
        } else {
          NormalizeGivesNormal(child);
        }
      }
    case Array(items) =>
      forall i | 0 <= i < |items|
        ensures Normalize(items[i]).Ok? ==> Normal(Normalize(items[i]).value)
      {
        NormalizeGivesNormal(items[i]);
      }
    case _ =>
  }

  lemma {:induction false} NormalIsFixed(v: Json)
    requires Normal(v)
    ensures Normalize(v) == Ok(v)
  {
    match v
    case Object(fields) =>
      forall k | k in fields
        ensures Field(fields, k) == Ok(fields[k])
      {
        NormalIsFixed(fields[k]);
      }
      assert fields == map k | k in Moved(fields) :: Field(fields, k).value;
    case Array(items) =>
      forall i | 0 <= i < |items|
        ensures Normalize(items[i]) == Ok(items[i])
      {
        NormalIsFixed(items[i]);
      }
      assert Normalize(v).value.items == items;
    case _ =>
  }

  /** Normalising is idempotent on every tree it accepts, and the trees it leaves alone are exactly the
      normal ones. */
  lemma NormalizeIdempotent(v: Json)
    ensures Normalize(v).Ok? ==> Normalize(Normalize(v).value) == Normalize(v)
    ensures Normalize(v) == Ok(v) <==> Normal(v)
  {
    NormalizeGivesNormal(v);
    if Normalize(v).Ok? {
      NormalIsFixed(Normalize(v).value);
    }
    if Normal(v) {
      NormalIsFixed(v);
    }
  }

  /** Which trees are accepted: an object if each field that is kept is, a string under bytes being
      accepted unless it is a bad literal; a list if each item is; anything else as it is. A list keeps
      its items in order, each normalised. */
  lemma AcceptedExactly(v: Json)
    ensures v.Object? ==>
              (Normalize(v).Ok? <==>
               forall k :: k in v.fields && !(k == "file_reference" && "file_reference_hex" in v.fields) ==>
                 if k == "bytes" && v.fields[k].String? then ToHex(v.fields[k].text).Ok?
                     else Normalize(v.fields[k]).Ok?)
    ensures v.Array? ==> (Normalize(v).Ok? <==> forall i :: 0 <= i < |v.items| ==> Normalize(v.items[i]).Ok?)
    ensures v.Array? && Normalize(v).Ok? ==>
              && Normalize(v).value.Array? && |Normalize(v).value.items| == |v.items|
              && forall i :: 0 <= i < |v.items| ==> Normalize(v.items[i]) == Ok(Normalize(v).value.items[i])
    ensures !v.Object? && !v.Array? ==> Normalize(v) == Ok(v)
  {
    if v.Object? {
      var fields, moved := v.fields, Moved(v.fields);
      KeysTellApart();
      assert Normalize(v).Ok? <==> forall k :: k in moved ==> Field(fields, k).Ok?;
      forall k | k in fields && !(k == REF && HEX_REF in fields)
        ensures (if k == BYTES && fields[k].String? then ToHex(fields[k].text).Ok? else Normalize(fields[k]).Ok?) <==>
                Field(fields, if k == HEX_REF then REF else k).Ok?
      {
      }
      forall k | k in moved
        ensures Origin(fields, k) in fields && !(Origin(fields, k) == REF && HEX_REF in fields)
        ensures k == if Origin(fields, k) == HEX_REF then REF else Origin(fields, k)
      {
      }
    }
  }

  lemma KeysTellApart()
    ensures HEX_REF != BYTES && REF != BYTES && REF != HEX_REF
  {
    assert |HEX_REF| == 18 && |REF| == 14 && |BYTES| == 5;
  }

  /** What becomes of an object's fields: file_reference_hex is found under file_reference in place of what
      was there, every other field under its own name, each normalised; a string under bytes is replaced
      by the hexadecimal form of its literal, if it is one. */
  lemma FieldsKept(fields: map<Text, Json>, out: map<Text, Json>)
    requires Normalize(Object(fields)) == Ok(Object(out))
    ensures "file_reference_hex" !in out
    ensures "file_reference_hex" in fields ==>
              "file_reference" in out && Normalize(fields["file_reference_hex"]) == Ok(out["file_reference"])
    ensures forall k :: k in out ==>
              k in fields || (k == "file_reference" && "file_reference_hex" in fields)
    ensures forall k :: k in fields && k != "file_reference_hex" && k != "file_reference" && k != "bytes" ==>
              k in out && Normalize(fields[k]) == Ok(out[k])
    ensures "file_reference" in fields && "file_reference_hex" !in fields ==>
              "file_reference" in out && Normalize(fields["file_reference"]) == Ok(out["file_reference"])
    ensures "bytes" in fields ==> "bytes" in out
    ensures "bytes" in fields && !fields["bytes"].String? ==> Normalize(fields["bytes"]) == Ok(out["bytes"])
    ensures "bytes" in fields && fields["bytes"].String? ==>
              match ToHex(fields["bytes"].text)
              case Ok(None) => out["bytes"] == fields["bytes"]
              case Ok(Some(h)) => out["bytes"] == String(h)
              case Err(_) => false
  {
    var moved := Moved(fields);
    assert forall k :: k in moved ==> Field(fields, k) == Ok(out[k]);
    KeysTellApart();
    if "bytes" in fields {
      assert BYTES in moved;
    }
  }
}
