/**
  convertToId of the search page. Strings are sequences of UTF-16 code units. Lower-case letters
  and digits stand for themselves, every other unit becomes an underscore and its hexadecimal code,
  padded to two digits. On units below 256 this is a prefix code; above it is not.
 */
module IdEncoding {
  import opened Prelude

  type Unit = n: nat | n < 0x10000

  type Text = seq<Unit>

  const UNDERSCORE: Unit := 95
  const ZERO: Unit := 48

  // [a-z0-9]
  predicate IsPlain(c: Unit) {
    48 <= c <= 57 || 97 <= c <= 122
  }

  function HexDigit(d: nat): (c: Unit)
    requires d < 16
    ensures IsPlain(c)
  {
    if d < 10 then 48 + d else 87 + d
  }

  /** toString(16): lower-case digits, no leading zero. */
  function Hex(n: nat): Text {
    if n < 16 then [HexDigit(n)] else Hex(n / 16) + [HexDigit(n % 16)]
  }

  function EncodeUnit(c: Unit): (e: Text)
    ensures |e| >= 1
  {
    if IsPlain(c) then [c]
    else if c < 16 then [UNDERSCORE, ZERO] + Hex(c)
    else [UNDERSCORE] + Hex(c)
  }

  function Encode(s: Text): Text {
    if s == [] then [] else EncodeUnit(s[0]) + Encode(s[1..])
  }

  lemma {:induction false} EncodeConcat(a: Text, b: Text)
    ensures Encode(a + b) == Encode(a) + Encode(b)
  {
    if a == [] {
      assert a + b == b;
    } else {
      assert (a + b)[1..] == a[1..] + b;
      EncodeConcat(a[1..], b);
    }
  }

  lemma EncodeOne(c: Unit)
    ensures Encode([c]) == EncodeUnit(c)
  {
    assert [c][1..] == [];
  }

  method ConvertToId(search: Text) returns (result: Text)
    ensures result == Encode(search)
  {
    result := [];
    var i := 0;
    while i < |search|
      invariant 0 <= i <= |search|
      invariant result == Encode(search[..i])
    {
      var c := search[i];
      if IsPlain(c) {
        result := result + [c];
      } else if c < 16 {
        result := result + ([UNDERSCORE, ZERO] + Hex(c));
      } else {
        result := result + ([UNDERSCORE] + Hex(c));
      }
      assert search[..i + 1] == search[..i] + [c];
      EncodeConcat(search[..i], [c]);
      EncodeOne(c);
      i := i + 1;
    }
    assert search[..i] == search;
  }

  // ---------- what the id of a string looks like ----------

  lemma {:induction false} PlainText(s: Text)
    requires forall i :: 0 <= i < |s| ==> IsPlain(s[i])
    ensures Encode(s) == s
  {
    if s != [] {
      PlainText(s[1..]);
      assert s == [s[0]] + s[1..];
    }
  }

  /** Lower-case letters and digits stand for themselves. */
  lemma LettersAndDigitsStay(s: Text)
    requires forall i :: 0 <= i < |s| ==> 48 <= s[i] <= 57 || 97 <= s[i] <= 122
    ensures Encode(s) == s
  {
    PlainText(s);
  }

  /** The value of a string of lower-case hexadecimal digits. */
  function Value(e: Text): nat
    requires forall i :: 0 <= i < |e| ==> 48 <= e[i] <= 57 || 97 <= e[i] <= 102
  {
    if e == [] then 0
    else
      var d := Last(e);
      16 * Value(Front(e)) + if d <= 57 then d - 48 else d - 87
  }

  /** toString(16): lower-case hexadecimal digits of that value, without a leading zero. */
  lemma {:induction false} HexExact(n: nat)
    ensures forall i :: 0 <= i < |Hex(n)| ==> 48 <= Hex(n)[i] <= 57 || 97 <= Hex(n)[i] <= 102
    ensures Value(Hex(n)) == n
    ensures |Hex(n)| >= 1 && (n != 0 ==> Hex(n)[0] != 48)
  {
    if n >= 16 {
      HexExact(n / 16);
      assert Front(Hex(n)) == Hex(n / 16);
    } else {
      assert Front(Hex(n)) == [];
    }
  }

  /** Every other unit becomes an underscore and its digits, at least two of them. */
  lemma OthersAreEscaped(c: Unit)
    requires !(48 <= c <= 57 || 97 <= c <= 122)
    ensures Encode([c]) == if c < 16 then [95, 48] + Hex(c) else [95] + Hex(c)
    ensures |Hex(c)| == if c < 16 then 1 else if c < 256 then 2 else if c < 4096 then 3 else 4
  {
    EncodeOne(c);
    if c < 256 {
      HexOfByte(c);
    } else {
      HexOfWide(c);
    }
  }

  // ---------- a prefix code below 256 ----------

  predicate IsNarrow(s: Text) {
    forall i :: 0 <= i < |s| ==> s[i] < 256
  }

  lemma HexOfByte(c: nat)
    requires c < 256
    ensures c < 16 ==> Hex(c) == [HexDigit(c)]
    ensures c >= 16 ==> Hex(c) == [HexDigit(c / 16), HexDigit(c % 16)]
  {
    if c >= 16 {
      assert c / 16 < 16;
    }
  }

  /** A narrow unit is encoded by itself or by an underscore and two digits. */
  lemma EncodedByte(c: Unit)
    requires c < 256
    ensures EncodeUnit(c) == if IsPlain(c) then [c] else [UNDERSCORE, HexDigit(c / 16), HexDigit(c % 16)]
  {
    HexOfByte(c);
  }

  function DigitValue(c: Unit): (d: Option<nat>)
    ensures d.Some? ==> d.value < 16
  {
    if 48 <= c <= 57 then Some(c - 48) else if 97 <= c <= 102 then Some(c - 87) else None
  }

  function Decode(e: Text): Option<Text> {
    if e == [] then Some([])
    else if IsPlain(e[0]) then
      match Decode(e[1..])
      case Some(s) => Some([e[0]] + s)
      case None => None
    else if e[0] != UNDERSCORE || |e| < 3 then None
    else
      match (DigitValue(e[1]), DigitValue(e[2]), Decode(e[3..]))
      case (Some(high), Some(low), Some(s)) => Some([16 * high + low] + s)
      case _ => None
  }

  lemma DecodeUnit(c: Unit, rest: Text)
    requires c < 256 && Decode(rest).Some?
    ensures Decode(EncodeUnit(c) + rest) == Some([c] + Decode(rest).value)
  {
    EncodedByte(c);
    var e := EncodeUnit(c) + rest;
    if IsPlain(c) {
      assert e[1..] == rest;
    } else {
      assert e[3..] == rest && e[0] == UNDERSCORE;
      assert e[1] == HexDigit(c / 16) && e[2] == HexDigit(c % 16);
    }
  }

  /** Round trip: every narrow string is recovered from its encoding. */
  lemma {:induction false} DecodeEncode(s: Text)
    requires IsNarrow(s)
    ensures Decode(Encode(s)) == Some(s)
  {
    if s != [] {
      DecodeEncode(s[1..]);
      DecodeUnit(s[0], Encode(s[1..]));
      assert s == [s[0]] + s[1..];
    }
  }

  lemma EncodeInjective(a: Text, b: Text)
    requires IsNarrow(a) && IsNarrow(b) && Encode(a) == Encode(b)
    ensures a == b
  {
    DecodeEncode(a);
    DecodeEncode(b);
  }

  /** No encoded unit is a proper prefix of another, and none is the encoding of two units. */
  lemma UnitsPrefixFree(c: Unit, d: Unit, x: Text, y: Text)
    requires c < 256 && d < 256 && EncodeUnit(c) + x <= EncodeUnit(d) + y
    ensures c == d && x <= y
  {
    EncodedByte(c);
    EncodedByte(d);
    var e, f := EncodeUnit(c) + x, EncodeUnit(d) + y;
    assert e[0] == f[0];
    if !IsPlain(c) {
      assert e[1] == f[1] && e[2] == f[2];
      assert c == 16 * (c / 16) + c % 16 && d == 16 * (d / 16) + d % 16;
    }
    assert x == e[|EncodeUnit(c)|..] && y == f[|EncodeUnit(d)|..];
  }

  lemma {:induction false} PrefixExact(a: Text, b: Text)
    requires IsNarrow(a) && IsNarrow(b)
    ensures Encode(a) <= Encode(b) <==> a <= b
  {
    if a <= b {
      PrefixAlways(a, b);
    }
    if a != [] && b != [] && Encode(a) <= Encode(b) {
      UnitsPrefixFree(a[0], b[0], Encode(a[1..]), Encode(b[1..]));
      PrefixExact(a[1..], b[1..]);
      assert a == [a[0]] + a[1..] && b == [b[0]] + b[1..];
    }
  }

  /** The id of a prefix is a prefix of the id, for all units. */
  lemma PrefixAlways(a: Text, b: Text)
    requires a <= b
    ensures Encode(a) <= Encode(b)
  {
    assert b == a + b[|a|..];
    EncodeConcat(a, b[|a|..]);
  }

  // ---------- and not above ----------

  /** Three or four hexadecimal digits. */
  lemma HexOfWide(c: Unit)
    requires c >= 256
    ensures Hex(c) == Hex(c / 16) + [HexDigit(c % 16)] && |Hex(c)| == if c < 4096 then 3 else 4
    ensures EncodeUnit(c) == [UNDERSCORE] + Hex(c)
  {
    HexOfByte(if c < 4096 then c / 16 else c / 256);
    if c >= 4096 {
      assert c / 16 / 16 == c / 256;
      assert Hex(c / 16) == Hex(c / 256) + [HexDigit(c / 16 % 16)];
    }
  }

  lemma {:induction false} HexInjective(c: nat, d: nat)
    requires Hex(c) == Hex(d)
    ensures c == d
  {
    HexLength(c);
    HexLength(d);
    if c >= 16 {
      assert Hex(c / 16) == Hex(c)[..|Hex(c)| - 1] == Hex(d / 16);
      assert Hex(c)[|Hex(c)| - 1] == HexDigit(c % 16) && Hex(d)[|Hex(d)| - 1] == HexDigit(d % 16);
      HexInjective(c / 16, d / 16);
    } else {
      assert Hex(c)[0] == HexDigit(c) && Hex(d)[0] == HexDigit(d);
    }
  }

  lemma HexLength(c: nat)
    ensures |Hex(c)| >= 1 && (|Hex(c)| == 1 <==> c < 16)
  {
    if c >= 16 {
      HexLength(c / 16);
    }
  }

  /** A wide unit without its last digit, followed by that digit. */
  function Twin(c: Unit): Text {
    [c / 16, HexDigit(c % 16)]
  }

  lemma TwinCollides(c: Unit)
    requires c >= 256 && !IsPlain(c / 16)
    ensures Encode(Twin(c)) == Encode([c]) && Twin(c) != [c]
  {
    var d := HexDigit(c % 16);
    HexOfWide(c);
    EncodeOne(c);
    EncodeOne(c / 16);
    EncodeOne(d);
    assert Twin(c) == [c / 16] + [d];
    EncodeConcat([c / 16], [d]);
  }

  /** An id made of an underscore and three digits starts with a unit of two or of three digits. */
  lemma ShortCollision(c: Unit, s: Text)
    requires 256 <= c < 4096 && Encode(s) == Encode([c]) && s != [c]
    ensures !IsPlain(c / 16)
  {
    HexOfWide(c);
    HexOfByte(c / 16);
    EncodeOne(c);
    var u, id := s[0], Encode([c]);
    var e := EncodeUnit(u);
    assert id == e + Encode(s[1..]) && id[0] == UNDERSCORE == e[0];
    if u < 256 {
      EncodedByte(u);
      assert e[1] == id[1] && e[2] == id[2];
      assert u == 16 * (u / 16) + u % 16 && c / 16 == 16 * (c / 16 / 16) + c / 16 % 16;
    } else {
      OnlyUnit(c, s);
    }
  }

  lemma OnlyUnit(c: Unit, s: Text)
    requires 256 <= c < 4096 && s != [] && s[0] >= 256
    ensures Encode(s) == Encode([c]) ==> s == [c]
  {
    HexOfWide(c);
    HexOfWide(s[0]);
    EncodeOne(c);
    var e := EncodeUnit(s[0]);
    if Encode(s) == Encode([c]) {
      assert |e| == 4 && Encode(s[1..]) == [];
      assert s == [s[0]];
      assert Hex(c) == Encode([c])[1..] == e[1..] == Hex(s[0]);
      HexInjective(c, s[0]);
    }
  }

  /**
    A unit above 255 shares its id with some other string if and only if the unit without its last
    hexadecimal digit is not a lower-case letter or digit; from 4096 on it never is.
   */
  lemma CollidesExactly(c: Unit)
    requires c >= 256
    ensures (exists s :: s != [c] && Encode(s) == Encode([c])) <==> !IsPlain(c / 16)
  {
    if !IsPlain(c / 16) {
      TwinCollides(c);
    }
    forall s | s != [c] && Encode(s) == Encode([c]) ensures !IsPlain(c / 16) {
      if c < 4096 {
        ShortCollision(c, s);
      }
    }
  }

  /** The number made of the first two hexadecimal digits. */
  function TopByte(c: Unit): (t: Unit)
    requires c >= 256
    ensures 16 <= t < 256
  {
    if c < 4096 then c / 16 else c / 256
  }

  lemma TopDigits(c: Unit)
    requires c >= 256
    ensures |Hex(c)| >= 2 && Hex(c) == [HexDigit(TopByte(c) / 16), HexDigit(TopByte(c) % 16)] + Hex(c)[2..]
    ensures forall i :: 2 <= i < |Hex(c)| ==> IsPlain(Hex(c)[i])
  {
    HexOfWide(c);
    HexOfByte(TopByte(c));
    if c >= 4096 {
      HexOfWide(c / 16);
      assert c / 16 / 16 == c / 256;
    }
  }

  /** A narrow string whose id starts with an underscore starts with the unit of the two digits that follow. */
  lemma NarrowStart(t: Unit, s: Text, rest: Text)
    requires t < 256 && IsNarrow(s)
    requires Encode(s) == [UNDERSCORE, HexDigit(t / 16), HexDigit(t % 16)] + rest
    ensures !IsPlain(t)
  {
    EncodedByte(s[0]);
    var e := EncodeUnit(s[0]) + Encode(s[1..]);
    assert e[0] == UNDERSCORE && e[1] == HexDigit(t / 16) && e[2] == HexDigit(t % 16);
    assert s[0] == 16 * (s[0] / 16) + s[0] % 16 && t == 16 * (t / 16) + t % 16;
  }

  lemma NarrowTwin(t: Unit, rest: Text)
    requires t < 256 && !IsPlain(t) && forall i :: 0 <= i < |rest| ==> IsPlain(rest[i])
    ensures IsNarrow([t] + rest)
    ensures Encode([t] + rest) == [UNDERSCORE, HexDigit(t / 16), HexDigit(t % 16)] + rest
  {
    EncodedByte(t);
    PlainText(rest);
    EncodeOne(t);
    EncodeConcat([t], rest);
  }

  /**
    A unit above 255 shares its id with some string of units below 256 if and only if the unit made
    of its first two hexadecimal digits is not a lower-case letter or digit.
   */
  lemma CollidesWithNarrowExactly(c: Unit)
    requires c >= 256
    ensures (exists s :: IsNarrow(s) && Encode(s) == Encode([c])) <==> !IsPlain(TopByte(c))
  {
    var t, id := TopByte(c), Encode([c]);
    HexOfWide(c);
    TopDigits(c);
    EncodeOne(c);
    var rest := Hex(c)[2..];
    assert id == [UNDERSCORE, HexDigit(t / 16), HexDigit(t % 16)] + rest;
    if !IsPlain(t) {
      NarrowTwin(t, rest);
    }
    forall s | IsNarrow(s) && Encode(s) == id ensures !IsPlain(t) {
      NarrowStart(t, s, rest);
    }
  }

  /** The string has only units of an alphabet. */
  predicate Below(s: Text, n: nat) {
    forall i :: 0 <= i < |s| ==> s[i] < n
  }

  /** U+0100 has the id of U+0010 followed by the digit 0. */
  lemma FirstCollision()
    ensures Encode([0x100]) == Encode([0x10, 48]) == [95, 49, 48, 48]
    ensures Below([0x100], 257) && IsNarrow([0x10, 48]) && !([0x10, 48] <= [0x100])
  {
    assert Twin(0x100) == [0x10, 48];
    TwinCollides(0x100);
    HexOfWide(0x100);
    HexOfByte(0x10);
    EncodeOne(0x100);
    assert [0x10, 48][0] != [0x100][0];
  }

  /** U+3030 has the id of U+0303 followed by the digit 0. */
  lemma WideCollision()
    ensures Encode([0x3030]) == Encode([0x303, 48])
  {
    assert Twin(0x3030) == [0x303, 48];
    TwinCollides(0x3030);
  }

  ghost predicate InjectiveBelow(n: nat) {
    forall a, b :: Below(a, n) && Below(b, n) && Encode(a) == Encode(b) ==> a == b
  }

  ghost predicate PrefixCodeBelow(n: nat) {
    forall a, b :: Below(a, n) && Below(b, n) ==> (Encode(a) <= Encode(b) <==> a <= b)
  }

  /** The strings over an alphabet are encoded injectively, and by a prefix code, exactly up to 256 units. */
  lemma PrefixCodeExactly(n: nat)
    ensures InjectiveBelow(n) <==> n <= 256
    ensures PrefixCodeBelow(n) <==> n <= 256
  {
    if n <= 256 {
      forall a, b | Below(a, n) && Below(b, n) ensures Encode(a) <= Encode(b) <==> a <= b {
        PrefixExact(a, b);
      }
      forall a, b | Below(a, n) && Below(b, n) && Encode(a) == Encode(b) ensures a == b {
        EncodeInjective(a, b);
      }
    } else {
      FirstCollision();
      var a, b: Text := [0x10, 48], [0x100];
      assert Below(a, n) && Below(b, n) && Encode(a) == Encode(b) && a != b;
      assert Encode(a) <= Encode(b);
    }
  }
}
