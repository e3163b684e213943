/** The body length announced by a request (`http_get_content_length`, srclib/http.c). */
module ContentLength {
  import opened Bytes
  import opened HttpSyntax
  import opened HttpText

  /** Matched byte for byte. */
  const CONTENT_LENGTH: seq<Byte> := Ascii("Content-Length")

  const MAX_HEADER_VALUE_LEN: nat := 16

  predicate Space(b: Byte) {
    b == SP || 9 <= b <= 13
  }

  function LeadingDigits(t: seq<Byte>, acc: nat): nat
    decreases |t|
  {
    if t == [] || !Digit(t[0]) then acc else LeadingDigits(t[1..], acc * 10 + DigitValue(t[0]))
  }

  /** Conversion of a long to a 32-bit int. */
  function ToInt(x: int): (i: int)
    ensures -0x8000_0000 <= i < 0x8000_0000
    ensures (x - i) % 0x1_0000_0000 == 0
  {
    (x + 0x8000_0000) % 0x1_0000_0000 - 0x8000_0000
  }

  /** `atoi` on a short text: blanks, an optional sign, digits. */
  function Atoi(t: seq<Byte>): int
    decreases |t|
  {
    if t == [] then 0
    else if Space(t[0]) then Atoi(t[1..])
    else if t[0] == 45 then ToInt(0 - LeadingDigits(t[1..], 0))
    else if t[0] == 43 then ToInt(LeadingDigits(t[1..], 0))
    else ToInt(LeadingDigits(t, 0))
  }

  predicate Named(s: seq<Byte>, h: Header) {
    h.name.Some? && h.name.value.End() <= |s| && Text(s, h.name.value) == CONTENT_LENGTH
  }

  /** Value of one header, cut to the room there is. */
  function ValueOf(s: seq<Byte>, h: Header): int
    requires h.value.End() <= |s|
  {
    var t := Text(s, h.value);
    Atoi(if |t| >= MAX_HEADER_VALUE_LEN then t[..MAX_HEADER_VALUE_LEN - 1] else t)
  }

  predicate InBuffer(s: seq<Byte>, hs: seq<Header>) {
    forall i :: 0 <= i < |hs| ==>
      hs[i].value.End() <= |s| && (hs[i].name.Some? ==> hs[i].name.value.End() <= |s|)
  }

  /** The first header of that name decides; without one the length is zero. */
  function BodyLength(s: seq<Byte>, hs: seq<Header>): int
    requires InBuffer(s, hs)
    decreases |hs|
  {
    if hs == [] then 0
    else if Named(s, hs[0]) then ValueOf(s, hs[0])
    else BodyLength(s, hs[1..])
  }

  lemma SliceCut(s: seq<Byte>, start: nat, full: nat, len: nat)
    requires start + full <= |s| && len <= full
    ensures s[start..start + len] == s[start..start + full][..len]
    ensures len == full ==> s[start..start + len] == s[start..start + full]
  {
    var a, b := s[start..start + len], s[start..start + full];
    forall i | 0 <= i < len
      ensures a[i] == b[..len][i]
    {
      assert a[i] == s[start + i] == b[i];
    }
  }

  method GetContentLength(s: seq<Byte>, hs: seq<Header>) returns (n: int)
    requires InBuffer(s, hs)
    ensures n == BodyLength(s, hs)
  {
    assert hs[0..] == hs;
    for i := 0 to |hs|
      invariant BodyLength(s, hs) == BodyLength(s, hs[i..])
    {
      assert hs[i..][0] == hs[i] && hs[i..][1..] == hs[i + 1..];
      if hs[i].name.Some? && hs[i].name.value.len == 14 {
        if Text(s, hs[i].name.value) == CONTENT_LENGTH {
          var len := hs[i].value.len;
          if len >= MAX_HEADER_VALUE_LEN {
            len := MAX_HEADER_VALUE_LEN - 1;
          }
          var tmp := s[hs[i].value.start..hs[i].value.start + len];
          SliceCut(s, hs[i].value.start, hs[i].value.len, len);
          return Atoi(tmp);
        }
      }
    }
    return 0;
  }

  /** Only the bytes the slices point to matter. */
  lemma {:induction false} BodyLengthExtends(s: seq<Byte>, t: seq<Byte>, hs: seq<Header>)
    requires s <= t && InBuffer(s, hs)
    ensures InBuffer(t, hs) && BodyLength(t, hs) == BodyLength(s, hs)
    decreases |hs|
  {
    if hs != [] {
      var h := hs[0];
      assert Text(s, h.value) == Text(t, h.value);
      if h.name.Some? {
        assert Text(s, h.name.value) == Text(t, h.name.value);
      }
      assert InBuffer(s, hs[1..]);
      BodyLengthExtends(s, t, hs[1..]);
    }
  }

  // ---------------------------------------------------------------- decimal lengths

  lemma {:induction false} LeadingDigitsSnoc(t: seq<Byte>, b: Byte, acc: nat)
    requires Digit(b) && forall i :: 0 <= i < |t| ==> Digit(t[i])
    ensures LeadingDigits(t + [b], acc) == LeadingDigits(t, acc) * 10 + DigitValue(b)
    decreases |t|
  {
    if t == [] {
      assert t + [b] == [b] && [b][1..] == [];
    } else {
      assert (t + [b])[1..] == t[1..] + [b];
      LeadingDigitsSnoc(t[1..], b, acc * 10 + DigitValue(t[0]));
    }
  }

  lemma {:induction false} DecimalReads(n: nat)
    ensures LeadingDigits(Decimal(n), 0) == n
  {
    if n < 10 {
      assert Decimal(n)[1..] == [];
    } else {
      DecimalReads(n / 10);
      LeadingDigitsSnoc(Decimal(n / 10), 48 + n % 10, 0);
    }
  }

  function Pow10(k: nat): (p: nat)
    ensures p > 0
  {
    if k == 0 then 1 else 10 * Pow10(k - 1)
  }

  lemma {:induction false} DecimalSize(n: nat, k: nat)
    requires k > 0 && n < Pow10(k)
    ensures |Decimal(n)| <= k
    decreases n
  {
    if n >= 10 {
      DecimalSize(n / 10, k - 1);
    }
  }

  lemma DigitIsNoSpace(b: Byte)
    requires Digit(b)
    ensures !Space(b) && b != 45 && b != 43 && !Control(b) && !Blank(b)
  {
  }

  /** A decimal body length that fits an int is read back exactly. */
  lemma DecimalLength(n: nat)
    requires n < 0x8000_0000
    ensures Atoi(Decimal(n)) == n && |Decimal(n)| <= 10 && ValueText(Decimal(n))
  {
    hide Space, Digit, Control, Blank;
    DecimalReads(n);
    assert Pow10(5) == 100_000;
    assert Pow10(10) == 100_000 * Pow10(5);
    DecimalSize(n, 10);
    var t := Decimal(n);
    forall i | 0 <= i < |t|
      ensures !Space(t[i]) && t[i] != 45 && t[i] != 43 && !Control(t[i]) && !Blank(t[i])
    {
      DigitIsNoSpace(t[i]);
    }
  }

  /** The white space `atoi` skips. */
  lemma SpaceExact(b: Byte)
    ensures Space(b) <==> b in Ascii(" \t\n\U{B}\U{C}\r")
  {
    assert Ascii(" \t\n\U{B}\U{C}\r") == [32, 9, 10, 11, 12, 13];
  }

  lemma {:induction false} LeadingDigitsStop(t: seq<Byte>, tail: seq<Byte>, acc: nat)
    requires forall i :: 0 <= i < |t| ==> Digit(t[i])
    requires tail == [] || !Digit(tail[0])
    ensures LeadingDigits(t + tail, acc) == LeadingDigits(t, acc)
    decreases |t|
  {
    if t == [] {
      assert t + tail == tail;
    } else {
      assert (t + tail)[1..] == t[1..] + tail;
      LeadingDigitsStop(t[1..], tail, acc * 10 + DigitValue(t[0]));
    }
  }

  lemma {:induction false} AtoiSkips(blanks: seq<Byte>, t: seq<Byte>)
    requires forall i :: 0 <= i < |blanks| ==> Space(blanks[i])
    ensures Atoi(blanks + t) == Atoi(t)
    decreases |blanks|
  {
    hide Space;
    if blanks == [] {
      assert blanks + t == t;
    } else {
      assert (blanks + t)[1..] == blanks[1..] + t;
      AtoiSkips(blanks[1..], t);
    }
  }

  lemma DigitsRead(n: nat, tail: seq<Byte>)
    requires tail == [] || !Digit(tail[0])
    ensures LeadingDigits(Decimal(n) + tail, 0) == n
    ensures Atoi(Decimal(n) + tail) == ToInt(n)
  {
    hide Space, Digit, Decimal;
    DecimalReads(n);
    LeadingDigitsStop(Decimal(n), tail, 0);
    assert (Decimal(n) + tail)[0] == Decimal(n)[0];
    PlainDigits(Decimal(n) + tail);
  }

  lemma SignedRead(b: Byte, t: seq<Byte>)
    requires b == 43 || b == 45
    ensures Atoi([b] + t) == if b == 45 then ToInt(0 - LeadingDigits(t, 0)) else ToInt(LeadingDigits(t, 0))
  {
    hide Space;
    SignIsNoSpace(b);
    assert ([b] + t)[1..] == t;
  }

  /** `atoi` on everything of the form white space, sign, digits, other text. */
  lemma AtoiReads(blanks: seq<Byte>, sign: string, n: nat, tail: seq<Byte>)
    requires forall i :: 0 <= i < |blanks| ==> Space(blanks[i])
    requires sign in ["", "+", "-"]
    requires n < 0x8000_0000 && (tail == [] || !Digit(tail[0]))
    ensures Atoi(blanks + (Ascii(sign) + (Decimal(n) + tail))) == if sign == "-" then 0 - n else n
  {
    hide Space, Digit, Decimal, Atoi;
    var digits := Decimal(n) + tail;
    AtoiSkips(blanks, Ascii(sign) + digits);
    DigitsRead(n, tail);
    if sign == "" {
      assert Ascii(sign) + digits == digits;
    } else {
      assert Ascii(sign) == [if sign == "-" then 45 else 43];
      SignedRead(if sign == "-" then 45 else 43, digits);
    }
  }

  lemma SignIsNoSpace(b: Byte)
    requires b == 43 || b == 45
    ensures !Space(b)
  {
  }

  /** Fifteen digits of a value are read, and the sixteenth is not. */
  lemma LongLengthIsCut(s: seq<Byte>, h: Header, n: nat)
    requires h.value.End() <= |s| && Text(s, h.value) == Decimal(n)
    ensures |Decimal(n)| <= 15 ==> ValueOf(s, h) == ToInt(n)
    ensures |Decimal(n)| == 16 ==> ValueOf(s, h) == ToInt(n / 10)
  {
    hide Space, Digit;
    DecimalReads(n);
    PlainDigits(Decimal(n));
    if |Decimal(n)| == 16 {
      assert Decimal(n)[..15] == Decimal(n / 10);
      DecimalReads(n / 10);
      PlainDigits(Decimal(n / 10));
    }
  }

  lemma PlainDigits(t: seq<Byte>)
    requires t != [] && Digit(t[0])
    ensures Atoi(t) == ToInt(LeadingDigits(t, 0))
  {
    DigitIsNoSpace(t[0]);
  }
}
