/** What the return code of the decoder means for the bytes it was given: a message, the
    beginning of one, or neither. */
module ChunkedAnswers {
  import opened Bytes
  import opened ChunkedAutomaton
  import opened ChunkedCalls
  import opened ChunkedCoding

  /** The values of the hexadecimal digits, in both cases, and of nothing else. */
  lemma DecodeHexExact(b: Byte, v: nat)
    requires v < 16
    ensures DecodeHex(b) == v <==> b == Ascii("0123456789abcdef")[v] || b == Ascii("0123456789ABCDEF")[v]
  {
    var lower, upper := "0123456789abcdef", "0123456789ABCDEF";
    if v < 10 {
      assert lower[v] as int == upper[v] as int == 48 + v;
    } else {
      assert lower[v] as int == 87 + v && upper[v] as int == 55 + v;
    }
  }

  // ---------------------------------------------------------------- every open state can be completed

  /** A last chunk, and an empty line for those who want trailers. */
  const LAST: seq<Byte> := [48] + CRLF + [LF]

  lemma LastFinishes(consumeTrailer: bool)
    ensures Feed(Initial(consumeTrailer), LAST).Finished?
  {
    assert LAST == SizeLine([48], []) + [LF];
    assert HexFrom(0, [48]) == 0 by {
      assert [48][1..] == [];
    }
    FeedSizeLine([48], [], consumeTrailer, [LF]);
    LineFeedFinishes(consumeTrailer);
  }

  lemma LineFeedFinishes(consumeTrailer: bool)
    ensures Feed(Decoder(0, consumeTrailer, 0, TrailerHead), [LF]).Finished?
  {
  }

  /** What completes a message once a size line with value `v` has been read. */
  function AfterLine(v: nat): seq<Byte> {
    if v == 0 then [LF] else seq(v, _ => SP) + (CRLF + LAST)
  }

  lemma AfterLineFinishes(v: nat, consumeTrailer: bool)
    ensures AfterSizeLine(v, consumeTrailer, AfterLine(v)).Finished?
  {
    hide Feed, Step;
    LineFeedFinishes(consumeTrailer);
    if v > 0 {
      var fill := seq(v, _ => SP);
      var tail := AfterLine(v);
      FeedData(Decoder(v, consumeTrailer, 0, Data), tail, v);
      assert tail[v..] == CRLF + LAST;
      FeedChunkEnd(consumeTrailer, LAST);
      LastFinishes(consumeTrailer);
    }
  }

  /** What completes a message from a given state. */
  function Completion(d: Decoder): seq<Byte> {
    match d.phase
    case Size => if d.hexCount == 0 then LAST else CRLF + AfterLine(d.left)
    case Ext => CRLF + AfterLine(d.left)
    case HeaderLf => [LF] + AfterLine(d.left)
    case Data => AfterLine(d.left)
    case DataCr => CRLF + LAST
    case DataLf => [LF] + LAST
    case TrailerHead => [LF]
    case TrailerMiddle => [LF, LF]
  }

  lemma HeaderLfStep(d: Decoder, tail: seq<Byte>)
    requires d.phase.HeaderLf? && d.hexCount == 0
    ensures Feed(d, [LF] + tail) == AfterSizeLine(d.left, d.consumeTrailer, tail)
  {
    hide DecodeHex, StepExt;
    assert ([LF] + tail)[1..] == tail;
  }

  lemma DataLfStep(consumeTrailer: bool, tail: seq<Byte>)
    ensures Feed(Decoder(0, consumeTrailer, 0, DataLf), [LF] + tail) == Feed(Initial(consumeTrailer), tail)
  {
    hide DecodeHex, StepExt;
    assert ([LF] + tail)[1..] == tail;
  }

  lemma MiddleStep(d: Decoder)
    requires d.phase.TrailerMiddle?
    ensures Feed(d, [LF, LF]) == Feed(d.(phase := TrailerHead), [LF])
  {
    hide DecodeHex, StepExt;
    assert [LF, LF][1..] == [LF];
  }

  lemma CompletionFinishes(d: Decoder)
    requires Valid(d)
    ensures Feed(d, Completion(d)).Finished?
  {
    hide Feed, Step, AfterLine;
    AfterLineFinishes(d.left, d.consumeTrailer);
    LastFinishes(d.consumeTrailer);
    LineFeedFinishes(d.consumeTrailer);
    match d.phase
    case Size =>
      if d.hexCount > 0 {
        FeedEndsSize(d, CRLF + AfterLine(d.left));
        FeedLineEnd(d.(hexCount := 0, phase := Ext), AfterLine(d.left));
      }
    case Ext => FeedLineEnd(d, AfterLine(d.left));
    case HeaderLf => HeaderLfStep(d, AfterLine(d.left));
    case Data =>
    case DataCr => FeedChunkEnd(d.consumeTrailer, LAST);
    case DataLf => DataLfStep(d.consumeTrailer, LAST);
    case TrailerHead =>
    case TrailerMiddle => MiddleStep(d);
  }

  // ---------------------------------------------------------------- the answer

  /** `s` starts with a whole message. */
  ghost predicate IsMessage(consumeTrailer: bool, s: seq<Byte>) {
    exists out, rest :: Encodes(consumeTrailer, s, out, rest)
  }

  /** More bytes can make `s` start with a whole message. */
  ghost predicate CanBecomeMessage(consumeTrailer: bool, s: seq<Byte>) {
    exists t :: s <= t && IsMessage(consumeTrailer, t)
  }

  lemma MessageExactly(consumeTrailer: bool, s: seq<Byte>)
    ensures IsMessage(consumeTrailer, s) <==> Feed(Initial(consumeTrailer), s).Finished?
  {
    hide Encodes, Feed;
    var f := Feed(Initial(consumeTrailer), s);
    if f.Finished? {
      AcceptsExactlyMessages(consumeTrailer, s, f.out, f.rest);
    }
    if out, rest :| Encodes(consumeTrailer, s, out, rest) {
      AcceptsExactlyMessages(consumeTrailer, s, out, rest);
    }
  }

  /** The automaton goes on exactly on the proper beginnings of messages, and it breaks off
      exactly where no message can come about any more. */
  lemma OpenExactly(consumeTrailer: bool, s: seq<Byte>)
    ensures var f := Feed(Initial(consumeTrailer), s);
            && (f.More? <==> CanBecomeMessage(consumeTrailer, s) && !IsMessage(consumeTrailer, s))
            && (f.Broken? <==> !CanBecomeMessage(consumeTrailer, s))
  {
    hide Feed, IsMessage;
    var d := Initial(consumeTrailer);
    var f := Feed(d, s);
    MessageExactly(consumeTrailer, s);
    if f.More? {
      var t := s + Completion(f.d);
      FeedKeepsValid(d, s);
      CompletionFinishes(f.d);
      FeedAppend(d, s, Completion(f.d));
      MessageExactly(consumeTrailer, t);
      assert s <= t;
    } else if f.Broken? {
      forall t | s <= t
        ensures !IsMessage(consumeTrailer, t)
      {
        assert t == s + t[|s|..];
        FeedAppend(d, s, t[|s|..]);
        MessageExactly(consumeTrailer, t);
      }
    }
  }

  /** The return code `ret` of a first call on `s`, after which the buffer holds `after` with
      `size` decoded bytes in front. Not negative: `s` is a message, decoded to these bytes,
      with exactly `ret` bytes behind it. -1: it is no message, and cannot become one or
      carries 100 KiB of overhead with less than a quarter delivered. Otherwise -2. */
  ghost predicate Answers(consumeTrailer: bool, s: seq<Byte>, ret: int, after: seq<Byte>, size: nat) {
    && size <= |after|
    && -2 <= ret
    && (ret >= 0 <==> IsMessage(consumeTrailer, s))
    && (ret >= 0 ==> size + ret <= |after| && Encodes(consumeTrailer, s, after[..size], after[size..size + ret]))
    && (ret == -1 <==>
          || !CanBecomeMessage(consumeTrailer, s)
          || (!IsMessage(consumeTrailer, s) && |s| - size >= 100 * 1024 && size < |s| / 4))
  }

  lemma CallAnswers(consumeTrailer: bool, s: seq<Byte>, after: seq<Byte>, size: nat)
    requires |s| < TWO64
    requires var r := Call(Fresh(consumeTrailer), s);
             && size == |r.out| && size + |r.rest| <= |after|
             && after[..size] == r.out && after[size..size + |r.rest|] == r.rest
    ensures var r := Call(Fresh(consumeTrailer), s);
            && (r.verdict == Complete ==> Answers(consumeTrailer, s, |r.rest|, after, size))
            && (r.verdict == Incomplete ==> Answers(consumeTrailer, s, -2, after, size))
            && (r.verdict == Error ==> Answers(consumeTrailer, s, -1, after, size))
  {
    hide Feed, IsMessage, Encodes, CanBecomeMessage;
    var f := Feed(Initial(consumeTrailer), s);
    OpenExactly(consumeTrailer, s);
    MessageExactly(consumeTrailer, s);
    OverloadedMeans(consumeTrailer, s);
    if f.Finished? {
      AcceptsExactlyMessages(consumeTrailer, s, f.out, f.rest);
      MessageCanBecome(consumeTrailer, s);
    }
  }

  lemma MessageCanBecome(consumeTrailer: bool, s: seq<Byte>)
    requires IsMessage(consumeTrailer, s)
    ensures CanBecomeMessage(consumeTrailer, s)
  {
    hide IsMessage;
    assert s <= s;
  }
}
