/** Chunked transfer decoding (section 4.1 of RFC 7230) as a byte-at-a-time automaton.

    The automaton is the reference against which the in-place decoder of
    srclib/picohttpparser.c is proved. `Step` consumes one byte, `Feed` a byte
    string, and `Call` adds the counters that one invocation of the decoder keeps. */
module ChunkedAutomaton {
  import opened Bytes

  /** The eight decoder states. */
  datatype Phase =
    | Size
    | Ext
    | HeaderLf
    | Data
    | DataCr
    | DataLf
    | TrailerHead
    | TrailerMiddle

  /** The part of the decoder record that steers decoding. */
  datatype Decoder = Decoder(left: nat, consumeTrailer: bool, hexCount: nat, phase: Phase)

  const MAX_HEX_DIGITS: nat := 16

  function Initial(consumeTrailer: bool): Decoder {
    Decoder(0, consumeTrailer, 0, Size)
  }

  function Pow16(n: nat): (p: nat)
    ensures p > 0
  {
    if n == 0 then 1 else 16 * Pow16(n - 1)
  }

  /** What every call of the decoder finds and leaves behind. */
  predicate Valid(d: Decoder) {
    && d.left < TWO64
    && d.hexCount <= MAX_HEX_DIGITS
    && (d.phase.Size? ==> d.left < Pow16(d.hexCount))
    && (!d.phase.Size? ==> d.hexCount == 0)
    && (d.phase.Data? ==> d.left > 0)
    && (d.phase.DataCr? || d.phase.DataLf? || d.phase.TrailerHead? || d.phase.TrailerMiddle? ==> d.left == 0)
  }

  /** Value of a hexadecimal digit, or -1. */
  function DecodeHex(b: Byte): (v: int)
    ensures -1 <= v < 16
  {
    if 48 <= b <= 57 then b - 48
    else if 65 <= b <= 70 then b - 65 + 10
    else if 97 <= b <= 102 then b - 97 + 10
    else -1
  }

  /** Bytes that may follow the digits of a chunk size. */
  predicate EndsSize(b: Byte) {
    b == SP || b == HT || b == SEMICOLON || b == LF || b == CR
  }

  datatype Outcome =
    | Next(d: Decoder, out: seq<Byte>)
    | Last(d: Decoder)
    | Fail(d: Decoder)

  function StepExt(d: Decoder, b: Byte): Outcome {
    if b == CR then Next(d.(phase := HeaderLf), [])
    else if b == LF then Fail(d)
    else Next(d, [])
  }

  function Step(d: Decoder, b: Byte): Outcome {
    match d.phase
    case Size =>
      var v := DecodeHex(b);
      if v != -1 then
        if d.hexCount == MAX_HEX_DIGITS then Fail(d)
        else Next(d.(left := Wrap64(d.left * 16 + v), hexCount := d.hexCount + 1), [])
      else if d.hexCount == 0 || !EndsSize(b) then Fail(d)
      else StepExt(d.(hexCount := 0, phase := Ext), b)
    case Ext => StepExt(d, b)
    case HeaderLf =>
      if b != LF then Fail(d)
      else if d.left > 0 then Next(d.(phase := Data), [])
      else if d.consumeTrailer then Next(d.(phase := TrailerHead), [])
      else Last(d)
    case Data =>
      if d.left <= 1 then Next(d.(left := 0, phase := DataCr), [b])
      else Next(d.(left := d.left - 1), [b])
    case DataCr => if b == CR then Next(d.(phase := DataLf), []) else Fail(d)
    case DataLf => if b == LF then Next(d.(phase := Size), []) else Fail(d)
    case TrailerHead =>
      if b == CR then Next(d, [])
      else if b == LF then Last(d)
      else Next(d.(phase := TrailerMiddle), [])
    case TrailerMiddle =>
      if b == LF then Next(d.(phase := TrailerHead), []) else Next(d, [])
  }

  /** Result of feeding a byte string: the input ran out, the message ended, or a
      byte was refused. `rest` is the input from the stopping point on. */
  datatype Fed =
    | More(d: Decoder, out: seq<Byte>)
    | Finished(d: Decoder, out: seq<Byte>, rest: seq<Byte>)
    | Broken(d: Decoder, out: seq<Byte>, rest: seq<Byte>)
  {
    /** The same result when `earlier` had been decoded before. */
    function After(earlier: seq<Byte>): Fed {
      if earlier == [] then this else this.(out := earlier + out)
    }

    lemma AfterAfter(a: seq<Byte>, b: seq<Byte>)
      ensures After(b).After(a) == After(a + b)
    {
      assert a + (b + out) == (a + b) + out;
    }

    /** The same result when `extra` follows the input of a run that already stopped. */
    function Followed(extra: seq<Byte>): Fed
      requires !More?
    {
      this.(rest := rest + extra)
    }
  }

  function Feed(d: Decoder, s: seq<Byte>): Fed
    decreases |s|
  {
    if s == [] then More(d, [])
    else
      match Step(d, s[0])
      case Next(d1, o) => Feed(d1, s[1..]).After(o)
      case Last(d1) => Finished(d1, [], s[1..])
      case Fail(d1) => Broken(d1, [], s)
  }

  /** One unfolding of `Feed`: only a consumed byte lets it go on. */
  lemma FeedFirst(d: Decoder, s: seq<Byte>)
    requires s != []
    ensures match Step(d, s[0])
            case Next(d1, o) => Feed(d, s) == Feed(d1, s[1..]).After(o)
            case _ => !Feed(d, s).More?
  {
    hide Step;
  }

  /** One step keeps the decoder invariant. The 64-bit accumulator is exact. */
  lemma StepKeepsValid(d: Decoder, b: Byte)
    requires Valid(d)
    ensures Valid(Step(d, b).d)
    ensures d.phase.Size? && DecodeHex(b) != -1 && d.hexCount < MAX_HEX_DIGITS
            ==> Step(d, b).d.left == d.left * 16 + DecodeHex(b)
  {
    if d.phase.Size? && DecodeHex(b) != -1 && d.hexCount < MAX_HEX_DIGITS {
      Pow16Bound(d.hexCount + 1);
    }
  }

  lemma {:induction false} Pow16Bound(n: nat)
    requires n <= MAX_HEX_DIGITS
    ensures Pow16(n) <= TWO64
  {
    assert Pow16(4) == 0x1_0000;
    assert Pow16(8) == 0x1_0000 * Pow16(4);
    assert Pow16(12) == 0x1_0000 * Pow16(8);
    assert Pow16(16) == 0x1_0000 * Pow16(12);
    Pow16Monotone(n, 16);
  }

  lemma {:induction false} Pow16Monotone(m: nat, n: nat)
    requires m <= n
    ensures Pow16(m) <= Pow16(n)
    decreases n
  {
    if m < n {
      Pow16Monotone(m, n - 1);
    }
  }

  lemma {:induction false} FeedKeepsValid(d: Decoder, s: seq<Byte>)
    requires Valid(d)
    ensures Valid(Feed(d, s).d)
    decreases |s|
  {
    if s != [] {
      StepKeepsValid(d, s[0]);
      if Step(d, s[0]).Next? {
        FeedKeepsValid(Step(d, s[0]).d, s[1..]);
      }
    }
  }

  /** Feeding a concatenation: a run that stopped in the first part ignores the second. */
  lemma {:induction false} FeedAppend(d: Decoder, a: seq<Byte>, b: seq<Byte>)
    ensures Feed(d, a + b) ==
            match Feed(d, a)
            case More(d1, o) => Feed(d1, b).After(o)
            case _ => Feed(d, a).Followed(b)
    decreases |a|
  {
    hide Step;
    if a == [] {
      assert a + b == b;
    } else {
      assert (a + b)[1..] == a[1..] + b;
      var step := Step(d, a[0]);
      if step.Next? {
        FeedAppend(step.d, a[1..], b);
        var f := Feed(step.d, a[1..]);
        if f.More? {
          assert step.out + (f.out + Feed(f.d, b).out) == (step.out + f.out) + Feed(f.d, b).out;
        }
      }
    }
  }

  /** The input is split by a stopped run: whatever remains is a suffix of it. */
  lemma {:induction false} FeedRest(d: Decoder, s: seq<Byte>)
    ensures !Feed(d, s).More? ==>
              |Feed(d, s).rest| <= |s| && Feed(d, s).rest == s[|s| - |Feed(d, s).rest|..]
    ensures |Feed(d, s).out| <= |s|
    ensures !Feed(d, s).More? ==> |Feed(d, s).out| + |Feed(d, s).rest| <= |s|
    decreases |s|
  {
    if s != [] && Step(d, s[0]).Next? {
      FeedRest(Step(d, s[0]).d, s[1..]);
    }
  }

  /** The decoder after `k` data bytes of the current chunk. */
  function Skipped(d: Decoder, k: nat): Decoder
    requires k <= d.left
  {
    if k == 0 then d
    else if k == d.left then d.(left := 0, phase := DataCr)
    else d.(left := d.left - k)
  }

  lemma FeedOneData(d: Decoder, s: seq<Byte>)
    requires d.phase.Data? && d.left > 0 && s != []
    ensures Feed(d, s) == Feed(Skipped(d, 1), s[1..]).After([s[0]])
  {
    assert Step(d, s[0]) == Next(Skipped(d, 1), [s[0]]);
  }

  /** A run of data bytes inside one chunk is copied as it stands. */
  lemma {:induction false} FeedData(d: Decoder, s: seq<Byte>, k: nat)
    requires d.phase.Data?
    requires k <= |s| && k <= d.left
    ensures Feed(d, s) == Feed(Skipped(d, k), s[k..]).After(s[..k])
    decreases k
  {
    hide Feed, Step;
    if k == 0 {
      assert s[0..] == s;
    } else {
      FeedOneData(d, s);
      var t := s[1..];
      if k > 1 {
        FeedData(Skipped(d, 1), t, k - 1);
        Feed(Skipped(d, k), t[k - 1..]).AfterAfter([s[0]], t[..k - 1]);
      }
      assert t[k - 1..] == s[k..];
      assert s[..k] == [s[0]] + t[..k - 1];
    }
  }
}
