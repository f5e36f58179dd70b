/** Percent-encoding as in `Cgi.cpp`; compare sections 2.1 and 2.3 of RFC 3986. */
module PercentCodec {
  import Text

  type Byte = bv8

  const PERCENT: Byte := 0x25
  const PLUS: Byte := 0x2B
  const SPACE: Byte := 0x20

  datatype Nibble = NoDigit | Digit(value: Byte)

  /** The unreserved characters. */
  predicate IsSafe(c: Byte) {
    || 0x30 <= c <= 0x39 || 0x41 <= c <= 0x5A || 0x61 <= c <= 0x7A
    || c == 0x2E || c == 0x2D || c == 0x5F || c == 0x7E
  }

  /** `kEncodeTable` */
  function EncodeTable(n: Byte): Byte
    requires n < 16
  {
    if n < 10 then 0x30 + n else 0x41 + (n - 10)
  }

  /** `kDecodeTable`, which ends at 127. */
  function DecodeTable(c: Byte): Nibble
    requires c < 128
  {
    if 0x30 <= c <= 0x39 then Digit(c - 0x30)
    else if 0x41 <= c <= 0x46 then Digit(c - 0x41 + 10)
    else if 0x61 <= c <= 0x66 then Digit(c - 0x61 + 10)
    else NoDigit
  }

  function EncodeByte(c: Byte): seq<Byte> {
    if IsSafe(c) then [c] else [PERCENT, EncodeTable((c & 0xF0) >> 4), EncodeTable(c & 0x0F)]
  }

  function Encoded(s: seq<Byte>): seq<Byte> {
    if s == [] then [] else EncodeByte(s[0]) + Encoded(s[1..])
  }

  /** The bytes that decoding looks up, in order and up to the first one that is not in the table. */
  ghost function LookUps(s: seq<Byte>): seq<Byte> {
    if s == [] then []
    else if s[0] != PERCENT || |s| <= 2 then LookUps(s[1..])
    else if s[1] >= 128 then [s[1]]
    else if DecodeTable(s[1]) == NoDigit then [s[1]] + LookUps(s[1..])
    else if s[2] >= 128 then [s[1], s[2]]
    else [s[1], s[2]] + LookUps(if DecodeTable(s[2]) == NoDigit then s[1..] else s[3..])
  }

  /** Behind a percent sign there is a byte of the table, and another one if the first is a digit. */
  predicate LooksInside(s: seq<Byte>, i: nat)
    requires i + 2 < |s|
  {
    s[i + 1] < 128 && (DecodeTable(s[i + 1]) != NoDigit ==> s[i + 2] < 128)
  }

  predicate InTable(s: seq<Byte>) {
    forall i | 0 <= i < |s| - 2 && s[i] == PERCENT :: LooksInside(s, i)
  }

  lemma TailInTable(s: seq<Byte>, k: nat)
    requires k <= |s| && InTable(s)
    ensures InTable(s[k..])
  {
    forall i | 0 <= i < |s[k..]| - 2 && s[k..][i] == PERCENT ensures LooksInside(s[k..], i) {
      assert LooksInside(s, k + i);
    }
  }

  /** What is skipped has no percent sign but the first one, if that. */
  lemma WholeInTable(s: seq<Byte>, k: nat)
    requires 1 <= k <= |s| && InTable(s[k..]) && forall i | 1 <= i < k :: s[i] != PERCENT
    requires |s| > 2 && s[0] == PERCENT ==> LooksInside(s, 0)
    ensures InTable(s)
  {
    forall i | 0 <= i < |s| - 2 && s[i] == PERCENT ensures LooksInside(s, i) {
      if i > 0 {
        assert s[k..][i - k] == PERCENT && LooksInside(s[k..], i - k);
      }
    }
  }

  predicate AllInTable(lookUps: seq<Byte>) {
    forall c <- lookUps :: c < 128
  }

  lemma AllInTableConcat(a: seq<Byte>, b: seq<Byte>)
    ensures AllInTable(a + b) <==> AllInTable(a) && AllInTable(b)
  {
    forall c | c in a || c in b ensures c in a + b {}
  }

  lemma OutsideAtOnce(s: seq<Byte>)
    requires |s| > 2 && s[0] == PERCENT && !LooksInside(s, 0)
    ensures !AllInTable(LookUps(s))
  {
    if s[1] >= 128 {
      assert LookUps(s) == [s[1]] && s[1] in LookUps(s);
    } else {
      assert LookUps(s) == [s[1], s[2]] && s[2] in LookUps(s);
    }
  }

  lemma InsideAtOnce(s: seq<Byte>) returns (first: seq<Byte>, k: nat)
    requires s != [] && (|s| > 2 && s[0] == PERCENT ==> LooksInside(s, 0))
    ensures 1 <= k <= |s| && forall i | 1 <= i < k :: s[i] != PERCENT
    ensures LookUps(s) == first + LookUps(s[k..]) && AllInTable(first)
  {
    first, k := [], 1;
    if |s| > 2 && s[0] == PERCENT {
      if DecodeTable(s[1]) == NoDigit {
        first := [s[1]];
      } else {
        first, k := [s[1], s[2]], if DecodeTable(s[2]) == NoDigit then 1 else 3;
      }
    }
  }

  /** The look-ups stay inside the table exactly when `InTable` says so. */
  lemma {:induction false} LooksUpInTable(s: seq<Byte>)
    ensures AllInTable(LookUps(s)) <==> InTable(s)
  {
    if |s| > 2 && s[0] == PERCENT && !LooksInside(s, 0) {
      OutsideAtOnce(s);
    } else if s != [] {
      var first, k := InsideAtOnce(s);
      AllInTableConcat(first, LookUps(s[k..]));
      LooksUpInTable(s[k..]);
      if InTable(s) {
        TailInTable(s, k);
      } else if InTable(s[k..]) {
        WholeInTable(s, k);
      }
    }
  }

  /** `"%\xFF0"` is looked up outside the table; in `"%z\xFF"` nothing is, since the code stops at the `z`. */
  lemma LookUpsOutside()
    ensures LookUps([PERCENT, 0xFF, 0x30]) == [0xFF] && !InTable([PERCENT, 0xFF, 0x30])
    ensures LookUps([PERCENT, 0x7A, 0xFF]) == [0x7A] && InTable([PERCENT, 0x7A, 0xFF])
  {
    var s: seq<Byte> := [PERCENT, 0xFF, 0x30];
    assert !LooksInside(s, 0);
    var z: seq<Byte> := [PERCENT, 0x7A, 0xFF];
    NoPercent(z[1..]);
    LooksUpInTable(z);
  }

  lemma {:induction false} NoPercent(s: seq<Byte>)
    requires PERCENT !in s
    ensures LookUps(s) == []
  {
    if s != [] {
      NoPercent(s[1..]);
    }
  }

  predicate StartsTriplet(s: seq<Byte>)
    requires InTable(s)
  {
    |s| > 2 && s[0] == PERCENT && DecodeTable(s[1]) != NoDigit && DecodeTable(s[2]) != NoDigit
  }

  function TripletValue(s: seq<Byte>): Byte
    requires InTable(s) && StartsTriplet(s)
  {
    (DecodeTable(s[1]).value << 4) + DecodeTable(s[2]).value
  }

  function Decoded(s: seq<Byte>): seq<Byte>
    requires InTable(s)
  {
    if s == [] then []
    else if StartsTriplet(s) then [TripletValue(s)] + Decoded(s[3..])
    else if s[0] == PERCENT then Decoded(s[1..])
    else [if s[0] == PLUS then SPACE else s[0]] + Decoded(s[1..])
  }

  lemma EncodedRest(s: seq<Byte>, i: nat)
    requires i < |s|
    ensures Encoded(s[i..]) == EncodeByte(s[i]) + Encoded(s[i + 1..])
  {
    assert s[i..][1..] == s[i + 1..];
  }

  lemma ThreeAppends(done: seq<Byte>, a: Byte, b: Byte, c: Byte)
    ensures done + [a] + [b] + [c] == done + [a, b, c]
  {
  }

  method EncodeOne(encode: seq<Byte>, c: Byte) returns (r: seq<Byte>)
    ensures r == encode + EncodeByte(c)
  {
    r := encode;
    if IsSafe(c) {
      r := r + [c];
    } else {
      var high, low := EncodeTable((c & 0xF0) >> 4), EncodeTable(c & 0x0F);
      ThreeAppends(r, PERCENT, high, low);
      r := r + [PERCENT];
      r := r + [high];
      r := r + [low];
    }
  }

  method Encode(s: seq<Byte>) returns (encode: seq<Byte>)
    ensures encode == Encoded(s)
  {
    encode := [];
    for i := 0 to |s|
      invariant encode + Encoded(s[i..]) == Encoded(s)
    {
      EncodedRest(s, i);
      Text.Associative(encode, EncodeByte(s[i]), Encoded(s[i + 1..]));
      encode := EncodeOne(encode, s[i]);
    }
  }

  lemma TripletAt(s: seq<Byte>, i: nat)
    requires InTable(s) && i < |s| - 2 && s[i] == PERCENT
    requires DecodeTable(s[i + 1]) != NoDigit && DecodeTable(s[i + 2]) != NoDigit
    ensures Decoded(s[i..]) == [(DecodeTable(s[i + 1]).value << 4) + DecodeTable(s[i + 2]).value] + Decoded(s[i + 3..])
  {
    assert s[i..][3..] == s[i + 3..];
  }

  lemma StrayPercentAt(s: seq<Byte>, i: nat)
    requires InTable(s) && i < |s| && s[i] == PERCENT
    requires i < |s| - 2 ==> DecodeTable(s[i + 1]) == NoDigit || DecodeTable(s[i + 2]) == NoDigit
    ensures Decoded(s[i..]) == Decoded(s[i + 1..])
  {
    assert s[i..][1..] == s[i + 1..];
  }

  lemma PlainAt(s: seq<Byte>, i: nat)
    requires InTable(s) && i < |s| && s[i] != PERCENT
    ensures Decoded(s[i..]) == [if s[i] == PLUS then SPACE else s[i]] + Decoded(s[i + 1..])
  {
    assert s[i..][1..] == s[i + 1..];
  }

  method Decode(s: seq<Byte>) returns (decode: seq<Byte>)
    requires InTable(s)
    ensures decode == Decoded(s)
  {
    decode := [];
    var i := 0;
    while i < |s|
      invariant 0 <= i <= |s|
      invariant decode + Decoded(s[i..]) == Decoded(s)
    {
      if s[i] == PERCENT {
        if |s| <= i + 2 || DecodeTable(s[i + 1]) == NoDigit || DecodeTable(s[i + 2]) == NoDigit {
          StrayPercentAt(s, i);
          i := i + 1;
          continue;
        }
        TripletAt(s, i);
        var c := (DecodeTable(s[i + 1]).value << 4) + DecodeTable(s[i + 2]).value;
        Text.Associative(decode, [c], Decoded(s[i + 3..]));
        decode := decode + [c];
        i := i + 2;
      } else {
        PlainAt(s, i);
        var c := if s[i] == PLUS then SPACE else s[i];
        Text.Associative(decode, [c], Decoded(s[i + 1..]));
        decode := decode + [c];
      }
      i := i + 1;
    }
  }

  lemma NibblesMakeByte(c: Byte)
    ensures (((c & 0xF0) >> 4) << 4) + (c & 0x0F) == c
    ensures (c & 0xF0) >> 4 < 16 && c & 0x0F < 16
  {
  }

  lemma TablesAgree(n: Byte)
    requires n < 16
    ensures EncodeTable(n) < 128 && DecodeTable(EncodeTable(n)) == Digit(n)
  {
  }

  /** What one byte is encoded to is decoded to that byte, whatever follows. */
  lemma DecodeEncodedByte(c: Byte, rest: seq<Byte>)
    requires InTable(rest)
    ensures InTable(EncodeByte(c) + rest) && Decoded(EncodeByte(c) + rest) == [c] + Decoded(rest)
  {
    var s := EncodeByte(c) + rest;
    if IsSafe(c) {
      assert s[1..] == rest;
    } else {
      NibblesMakeByte(c);
      TablesAgree((c & 0xF0) >> 4);
      TablesAgree(c & 0x0F);
      assert s[3..] == rest;
    }
  }

  /** Every byte string survives. */
  lemma {:induction false} DecodeEncode(s: seq<Byte>)
    ensures InTable(Encoded(s)) && Decoded(Encoded(s)) == s
  {
    if s != [] {
      DecodeEncode(s[1..]);
      DecodeEncodedByte(s[0], Encoded(s[1..]));
    }
  }

  predicate IsUpperHex(c: Byte) {
    0x30 <= c <= 0x39 || 0x41 <= c <= 0x46
  }

  /** Unreserved characters and triplets with upper-case digits, which encode no unreserved character. */
  predicate IsCanonical(e: seq<Byte>)
    requires InTable(e)
  {
    e == [] ||
    (IsSafe(e[0]) && IsCanonical(e[1..])) ||
    (StartsTriplet(e) && IsUpperHex(e[1]) && IsUpperHex(e[2]) && !IsSafe(TripletValue(e)) && IsCanonical(e[3..]))
  }

  lemma {:induction false} EncodedIsCanonical(s: seq<Byte>)
    ensures InTable(Encoded(s)) && IsCanonical(Encoded(s))
  {
    DecodeEncode(s);
    if s != [] {
      EncodedIsCanonical(s[1..]);
      var e := Encoded(s);
      if IsSafe(s[0]) {
        assert e[1..] == Encoded(s[1..]);
      } else {
        NibblesMakeByte(s[0]);
        TablesAgree((s[0] & 0xF0) >> 4);
        TablesAgree(s[0] & 0x0F);
        assert e[3..] == Encoded(s[1..]);
      }
    }
  }

  lemma TripletIsEncoded(e: seq<Byte>)
    requires InTable(e) && StartsTriplet(e) && IsUpperHex(e[1]) && IsUpperHex(e[2])
    requires !IsSafe(TripletValue(e))
    ensures EncodeByte(TripletValue(e)) == e[..3]
  {
    var h, l := DecodeTable(e[1]).value, DecodeTable(e[2]).value;
    assert h < 16 && l < 16;
    assert (((h << 4) + l) & 0xF0) >> 4 == h && ((h << 4) + l) & 0x0F == l;
  }

  /** Encoding undoes decoding exactly on the canonical strings. */
  lemma {:induction false} EncodeDecode(e: seq<Byte>)
    requires InTable(e)
    ensures Encoded(Decoded(e)) == e <==> IsCanonical(e)
  {
    if IsCanonical(e) {
      EncodeDecodeCanonical(e);
    } else if Encoded(Decoded(e)) == e {
      EncodedIsCanonical(Decoded(e));
    }
  }

  lemma {:induction false} EncodeDecodeCanonical(e: seq<Byte>)
    requires InTable(e) && IsCanonical(e)
    ensures Encoded(Decoded(e)) == e
  {
    if e != [] {
      if IsSafe(e[0]) {
        EncodeDecodeCanonical(e[1..]);
      } else {
        EncodeDecodeCanonical(e[3..]);
        TripletIsEncoded(e);
        assert e == e[..3] + e[3..];
      }
    }
  }

  /** An encoded percent sign. */
  predicate IsPercentTriplet(s: seq<Byte>, i: nat) {
    i + 2 < |s| && s[i] == PERCENT && s[i + 1] == 0x32 && s[i + 2] == 0x35
  }

  lemma OnlyPercentTriplet(s: seq<Byte>)
    requires InTable(s) && StartsTriplet(s)
    ensures TripletValue(s) == PERCENT <==> IsPercentTriplet(s, 0)
    ensures s[1] != PERCENT && s[2] != PERCENT
  {
    var h, l := DecodeTable(s[1]).value, DecodeTable(s[2]).value;
    assert h < 16 && l < 16;
    assert (h << 4) + l == PERCENT <==> h == 2 && l == 5;
  }

  /**
   Only encoded percent signs come out as percent signs: one that starts no triplet is dropped, and not
   kept as a comment in the code has it.
   */
  lemma {:induction false} PercentOnlyFromTriplet(s: seq<Byte>)
    requires InTable(s)
    ensures PERCENT in Decoded(s) <==> exists i: nat :: IsPercentTriplet(s, i)
  {
    if s != [] {
      var k := if StartsTriplet(s) then 3 else 1;
      TailInTable(s, k);
      PercentOnlyFromTriplet(s[k..]);
      if StartsTriplet(s) {
        OnlyPercentTriplet(s);
      }
      if i: nat :| IsPercentTriplet(s[k..], i) {
        assert IsPercentTriplet(s, k + i);
      }
      if i: nat :| IsPercentTriplet(s, i) && i > 0 {
        assert IsPercentTriplet(s[k..], i - k);
      }
    }
  }

  // ---------------------------------------------------------------------------------------------
  // The tables and the pieces of a text in plain terms

  /** The character that a byte stands for. */
  function CharOf(c: Byte): char {
    (c as int) as char
  }

  lemma BytesInOrder(a: Byte, b: Byte)
    ensures a <= b <==> CharOf(a) <= CharOf(b)
  {
  }

  lemma SameByte(a: Byte, b: Byte)
    ensures a == b <==> CharOf(a) == CharOf(b)
  {
    BytesInOrder(a, b);
    BytesInOrder(b, a);
  }

  /** The unreserved characters of section 2.3 of RFC 3986: letters, digits, and four others. */
  lemma SafeMeans(c: Byte)
    ensures IsSafe(c) <==>
      var x := CharOf(c);
      x in Text.UPPER_CASE || x in Text.LOWER_CASE || x in "0123456789" || x == '-' || x == '.' || x == '_' || x == '~'
  {
    Text.LettersMean(CharOf(c));
    Text.CharactersMean(CharOf(c));
    SameByte(c, 0x2D);
    SameByte(c, 0x2E);
    SameByte(c, 0x5F);
    SameByte(c, 0x7E);
    BytesInOrder(0x30, c);
    BytesInOrder(c, 0x39);
    BytesInOrder(0x41, c);
    BytesInOrder(c, 0x5A);
    BytesInOrder(0x61, c);
    BytesInOrder(c, 0x7A);
  }

  lemma DigitAt(d: Byte)
    requires d < 16
    ensures CharOf(if d < 10 then 0x30 + d else 0x41 + (d - 10)) == "0123456789ABCDEF"[d as int]
    ensures CharOf(if d < 10 then 0x30 + d else 0x61 + (d - 10)) == "0123456789abcdef"[d as int]
  {
  }

  /** `d` is encoded as the digit with this value, and it is what the digit in either case is decoded to. */
  lemma TablesMean(c: Byte, d: Byte)
    requires c < 128 && d < 16
    ensures CharOf(EncodeTable(d)) == "0123456789ABCDEF"[d as int]
    ensures DecodeTable(c) == Digit(d) <==>
      CharOf(c) == "0123456789ABCDEF"[d as int] || CharOf(c) == "0123456789abcdef"[d as int]
  {
    DigitAt(d);
    SameByte(c, if d < 10 then 0x30 + d else 0x41 + (d - 10));
    SameByte(c, if d < 10 then 0x30 + d else 0x61 + (d - 10));
  }

  /** No triplet starts in `a` that goes on behind it. */
  predicate EndsWhole(a: seq<Byte>) {
    (|a| > 0 ==> a[|a| - 1] != PERCENT) && (|a| > 1 ==> a[|a| - 2] != PERCENT)
  }

  lemma ConcatInTable(a: seq<Byte>, b: seq<Byte>)
    requires InTable(a) && InTable(b) && EndsWhole(a)
    ensures InTable(a + b)
  {
    var s := a + b;
    forall i | 0 <= i < |s| - 2 && s[i] == PERCENT ensures LooksInside(s, i) {
      if i < |a| {
        assert LooksInside(a, i);
      } else {
        assert b[i - |a|] == PERCENT && LooksInside(b, i - |a|);
      }
    }
  }

  lemma FirstPiece(a: seq<Byte>, b: seq<Byte>) returns (first: seq<Byte>, k: nat)
    requires InTable(a) && a != [] && EndsWhole(a) && InTable(a + b)
    ensures 0 < k <= |a| && (a + b)[k..] == a[k..] + b && InTable(a[k..]) && InTable((a + b)[k..]) && EndsWhole(a[k..])
    ensures Decoded(a) == first + Decoded(a[k..]) && Decoded(a + b) == first + Decoded((a + b)[k..])
  {
    k := if StartsTriplet(a) then 3 else 1;
    TailInTable(a, k);
    TailInTable(a + b, k);
    assert StartsTriplet(a + b) == StartsTriplet(a);
    first := if StartsTriplet(a) then [TripletValue(a)]
             else if a[0] == PERCENT then [] else [if a[0] == PLUS then SPACE else a[0]];
  }

  /** Then decoding goes piece by piece. */
  lemma {:induction false} DecodedConcat(a: seq<Byte>, b: seq<Byte>)
    requires InTable(a) && InTable(b) && EndsWhole(a) && InTable(a + b)
    ensures Decoded(a + b) == Decoded(a) + Decoded(b)
    decreases a
  {
    if a == [] {
      assert a + b == b;
    } else {
      var first, k := FirstPiece(a, b);
      TailInTable(a, k);
      TailInTable(a + b, k);
      DecodedConcat(a[k..], b);
      Text.Associative(first, Decoded(a[k..]), Decoded(b));
    }
  }

  /**
   The pieces: a plus sign is a space, a triplet the byte with these two digits, a percent sign that starts none is
   nothing, and any other byte is itself.
   */
  lemma PiecesDecode(c: Byte, h: Byte, l: Byte, high: Byte, low: Byte)
    requires high < 16 && low < 16 && h < 128 && l < 128
    requires DecodeTable(h) == Digit(high) && DecodeTable(l) == Digit(low)
    ensures Decoded([0x2B]) == [0x20]
    ensures c != 0x25 && c != 0x2B ==> Decoded([c]) == [c]
    ensures Decoded([0x25]) == []
    ensures InTable([0x25, h, l]) && Decoded([0x25, h, l]) == [(high << 4) + low]
  {
    var t: seq<Byte> := [0x25, h, l];
    assert LooksInside(t, 0) && t[3..] == [];
    assert [c][1..] == [] && [PLUS][1..] == [] && [PERCENT][1..] == [];
  }

  /** In front of a text that does not start with two digits a percent sign is dropped. */
  lemma StrayPercentIsDropped(s: seq<Byte>)
    requires InTable(s) && InTable([0x25] + s)
    requires |s| >= 2 ==>
      s[0] < 128 && (DecodeTable(s[0]) == NoDigit || (s[1] < 128 && DecodeTable(s[1]) == NoDigit))
    ensures Decoded([0x25] + s) == Decoded(s)
  {
    assert ([PERCENT] + s)[1..] == s;
  }
}
