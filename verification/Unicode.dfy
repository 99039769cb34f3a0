/** The check that proto3 parsers run on every string field: RFC 3629, section 4. */
module Unicode {
  import opened Common

  predicate Tail(s: Bytes, i: nat) {
    i < |s| && 0x80 <= s[i] <= 0xBF
  }

  predicate Second(s: Bytes, low: byte, high: byte) {
    1 < |s| && low <= s[1] <= high
  }

  /** The length of the well-formed character at the front, 0 when there is none. Overlong forms,
      surrogates and values above 10FFFF are not well-formed. */
  function CharSize(s: Bytes): (n: nat)
    ensures n <= |s|
  {
    if s == [] then 0
    else
      var b := s[0];
      if b <= 0x7F then 1
      else if 0xC2 <= b <= 0xDF then (if Tail(s, 1) then 2 else 0)
      else if 0xE0 <= b <= 0xEF then
        var low := if b == 0xE0 then 0xA0 else 0x80;
        var high := if b == 0xED then 0x9F else 0xBF;
        if Second(s, low, high) && Tail(s, 2) then 3 else 0
      else if 0xF0 <= b <= 0xF4 then
        var low := if b == 0xF0 then 0x90 else 0x80;
        var high := if b == 0xF4 then 0x8F else 0xBF;
        if Second(s, low, high) && Tail(s, 2) && Tail(s, 3) then 4 else 0
      else 0
  }

  predicate Utf8(s: Bytes) {
    s == [] || (CharSize(s) > 0 && Utf8(s[CharSize(s)..]))
  }

  predicate Plain(s: Bytes) {
    forall i :: 0 <= i < |s| ==> s[i] < 0x80
  }

  lemma {:induction false} PlainIsUtf8(s: Bytes)
    requires Plain(s)
    ensures Utf8(s)
  {
    if s != [] {
      PlainIsUtf8(s[1..]);
    }
  }

  /** Cutting at a byte below 0x80 cuts between characters. */
  lemma {:induction false} CutAtPlain(s: Bytes, cut: nat)
    requires Utf8(s) && cut < |s| && s[cut] < 0x80
    ensures Utf8(s[..cut])
    decreases |s|
  {
    var n := CharSize(s);
    if cut > 0 {
      assert n <= cut;
      CutAtPlain(s[n..], cut - n);
      assert s[n..][..cut - n] == s[..cut][n..];
      assert CharSize(s[..cut]) == n;
    }
  }

  // ---------- what is accepted ----------

  /** A Unicode scalar value. */
  type Scalar = c: int | 0 <= c < 0xD800 || 0xE000 <= c < 0x11_0000

  /** Its one encoding. */
  function Encoded(c: Scalar): (bs: Bytes)
    ensures bs != []
  {
    if c < 0x80 then [c]
    else if c < 0x800 then [0xC0 + c / 0x40, 0x80 + c % 0x40]
    else if c < 0x1_0000 then [0xE0 + c / 0x1000, 0x80 + c / 0x40 % 0x40, 0x80 + c % 0x40]
    else [0xF0 + c / 0x4_0000, 0x80 + c / 0x1000 % 0x40, 0x80 + c / 0x40 % 0x40, 0x80 + c % 0x40]
  }

  function EncodedAll(cs: seq<Scalar>): Bytes {
    if cs == [] then [] else Encoded(cs[0]) + EncodedAll(cs[1..])
  }

  lemma EncodedIsChar(c: Scalar, rest: Bytes)
    ensures CharSize(Encoded(c) + rest) == |Encoded(c)|
  {
    var s := Encoded(c) + rest;
    assert forall i :: 0 <= i < |Encoded(c)| ==> s[i] == Encoded(c)[i];
  }

  function Low(b: byte): int {
    b - 0x80
  }

  function Decoded(s: Bytes): int
    requires CharSize(s) > 0
  {
    match CharSize(s)
    case 1 => s[0]
    case 2 => (s[0] - 0xC0) * 0x40 + Low(s[1])
    case 3 => (s[0] - 0xE0) * 0x1000 + Low(s[1]) * 0x40 + Low(s[2])
    case _ => (s[0] - 0xF0) * 0x4_0000 + Low(s[1]) * 0x1000 + Low(s[2]) * 0x40 + Low(s[3])
  }

  lemma Digits64(a: nat, b: nat, c: nat, d: nat)
    requires b < 0x40 && c < 0x40 && d < 0x40
    ensures var n := a * 0x4_0000 + b * 0x1000 + c * 0x40 + d;
      n / 0x4_0000 == a && n / 0x1000 % 0x40 == b && n / 0x40 % 0x40 == c && n % 0x40 == d
      && n / 0x1000 == a * 0x40 + b && n / 0x40 == a * 0x1000 + b * 0x40 + c
  {
  }

  lemma CharIsEncoded(s: Bytes) returns (c: Scalar)
    requires CharSize(s) > 0
    ensures s[..CharSize(s)] == Encoded(c)
  {
    match CharSize(s) {
      case 1 =>
        c := s[0];
      case 2 =>
        Digits64(0, 0, s[0] - 0xC0, Low(s[1]));
        c := Decoded(s);
      case 3 =>
        Digits64(0, s[0] - 0xE0, Low(s[1]), Low(s[2]));
        c := Decoded(s);
      case _ =>
        Digits64(s[0] - 0xF0, Low(s[1]), Low(s[2]), Low(s[3]));
        c := Decoded(s);
    }
  }

  lemma {:induction false} EncodedIsUtf8(cs: seq<Scalar>)
    ensures Utf8(EncodedAll(cs))
  {
    if cs != [] {
      var rest := EncodedAll(cs[1..]);
      EncodedIsChar(cs[0], rest);
      EncodedIsUtf8(cs[1..]);
      assert (Encoded(cs[0]) + rest)[|Encoded(cs[0])|..] == rest;
      hide CharSize, Encoded;
    }
  }

  lemma EncodedCons(s: Bytes, n: nat, c: Scalar, cs: seq<Scalar>)
    requires n <= |s| && s[..n] == Encoded(c) && s[n..] == EncodedAll(cs)
    ensures s == EncodedAll([c] + cs)
  {
    hide Encoded;
    assert ([c] + cs)[1..] == cs && s == s[..n] + s[n..];
  }

  lemma {:induction false} Utf8IsEncoded(s: Bytes) returns (cs: seq<Scalar>)
    requires Utf8(s)
    ensures s == EncodedAll(cs)
    decreases |s|
  {
    if s == [] {
      return [];
    }
    hide CharSize, Encoded, EncodedAll;
    var n := CharSize(s);
    assert 0 < n && Utf8(s[n..]);
    hide Utf8;
    var c := CharIsEncoded(s);
    var more := Utf8IsEncoded(s[n..]);
    EncodedCons(s, n, c, more);
    return [c] + more;
  }

  /** A byte string is UTF-8 exactly when it is the encoding of some scalar values, one after
      another. */
  lemma Utf8Meaning(s: Bytes)
    ensures Utf8(s) <==> exists cs: seq<Scalar> :: s == EncodedAll(cs)
  {
    hide Utf8, Encoded;
    if Utf8(s) {
      var cs := Utf8IsEncoded(s);
    }
    forall cs: seq<Scalar> | s == EncodedAll(cs) ensures Utf8(s) {
      EncodedIsUtf8(cs);
    }
  }
}
