/** The in-place chunked decoder: `phr_decode_chunked` of srclib/picohttpparser.c. */
module ChunkedDecoder {
  import opened Bytes
  import opened ChunkedAutomaton
  import opened ChunkedCalls
  import opened ChunkedAnswers

  /** The integer returned for a verdict. */
  function Code(r: Reply): int {
    match r.verdict
    case Incomplete => -2
    case Error => -1
    case Complete => |r.rest|
  }

  /** How a stretch of decoding ended: go on, or leave with a verdict. */
  datatype Signal = GoOn | Stop(verdict: Verdict)

  /** Copies `n` bytes down inside a buffer, source and target may overlap. */
  method MoveDown(buf: array<Byte>, dst: nat, src: nat, n: nat)
    requires dst <= src && src + n <= buf.Length
    modifies buf
    ensures forall i :: dst <= i < dst + n ==> buf[i] == old(buf[i + (src - dst)])
    ensures forall i :: 0 <= i < dst || dst + n <= i < buf.Length ==> buf[i] == old(buf[i])
  {
    forall i | 0 <= i < n {
      buf[dst + i] := buf[src + i];
    }
  }

  /** Closes the gap between decoded output and the next `n` unread bytes. */
  method ShiftDown(buf: array<Byte>, bufsz: nat, src: nat, dst: nat, n: nat, ghost s: seq<Byte>)
    requires bufsz == |s| <= buf.Length && dst <= src && src + n <= bufsz && buf[src..bufsz] == s[src..]
    modifies buf
    ensures buf[..dst + n] == old(buf[..dst]) + s[src..src + n]
    ensures buf[src + n..bufsz] == s[src + n..]
    ensures buf[bufsz..] == old(buf[bufsz..])
  {
    ghost var was := buf[..];
    if dst != src {
      MoveDown(buf, dst, src, n);
    }
    Shifted(was, buf[..], s, src, dst, n);
  }

  /** What a block move makes of a buffer, byte by byte and as strings. */
  lemma Shifted(was: seq<Byte>, now: seq<Byte>, s: seq<Byte>, src: nat, dst: nat, n: nat)
    requires |s| <= |was| == |now| && dst <= src && src + n <= |s| && was[src..|s|] == s[src..]
    requires forall i :: dst <= i < dst + n ==> now[i] == was[i + (src - dst)]
    requires forall i :: 0 <= i < dst || dst + n <= i < |was| ==> now[i] == was[i]
    ensures now[..dst + n] == was[..dst] + s[src..src + n]
    ensures now[src + n..|s|] == s[src + n..]
    ensures now[|s|..] == was[|s|..]
  {
    forall i | src <= i < |s|
      ensures was[i] == s[i]
    {
      assert was[i] == was[src..|s|][i - src];
    }
    ShiftedFront(was, now, s, src, dst, n);
    var a, b := now[src + n..|s|], s[src + n..];
    forall i | 0 <= i < |a|
      ensures a[i] == b[i]
    {
      assert a[i] == now[src + n + i] == was[src + n + i];
    }
  }

  lemma ShiftedFront(was: seq<Byte>, now: seq<Byte>, s: seq<Byte>, src: nat, dst: nat, n: nat)
    requires |s| <= |was| == |now| && dst <= src && src + n <= |s|
    requires forall i :: src <= i < |s| ==> was[i] == s[i]
    requires forall i :: dst <= i < dst + n ==> now[i] == was[i + (src - dst)]
    requires forall i :: 0 <= i < dst ==> now[i] == was[i]
    ensures now[..dst + n] == was[..dst] + s[src..src + n]
  {
    var joined := was[..dst] + s[src..src + n];
    forall i | 0 <= i < dst + n
      ensures now[i] == joined[i]
    {
      if dst <= i {
        assert joined[i] == s[i + (src - dst)];
      }
    }
  }

  /** Moves the undecoded input up to the decoded bytes. */
  method Compact(buf: array<Byte>, bufsz: nat, src: nat, dst: nat, ghost s: seq<Byte>, ghost out: seq<Byte>)
    requires bufsz == |s| <= buf.Length && dst <= src <= bufsz
    requires buf[..dst] == out && buf[src..bufsz] == s[src..]
    modifies buf
    ensures buf[..dst] == out && buf[dst..dst + (bufsz - src)] == s[src..]
    ensures buf[bufsz..] == old(buf[bufsz..])
  {
    var n := bufsz - src;
    assert s[src..src + n] == s[src..];
    ShiftDown(buf, bufsz, src, dst, n, s);
    assert buf[..dst] == buf[..dst + n][..dst];
    assert buf[dst..dst + n] == buf[..dst + n][dst..];
  }

  lemma SameSuffix(tail: seq<Byte>, s: seq<Byte>, start: nat, src: nat)
    requires start <= src <= |s| && tail == s[start..]
    ensures tail[src - start..] == s[src..]
  {
  }

  lemma Behind(front: seq<Byte>, all: seq<Byte>, size: nat, n: nat)
    requires front <= all && size + n <= |front|
    ensures front[..size] == all[..size] && front[size..size + n] == all[size..size + n]
  {
  }

  class ChunkedDecoder {
    var bytesLeftInChunk: nat
    var consumeTrailer: bool
    var hexCount: nat
    var phase: Phase
    var totalRead: nat
    var totalOverhead: nat

    function Steering(): Decoder
      reads this
    {
      Decoder(bytesLeftInChunk, consumeTrailer, hexCount, phase)
    }

    function State(): Session
      reads this
    {
      Session(Steering(), totalRead, totalOverhead)
    }

    /** A zero-filled record. */
    constructor (consumeTrailer: bool)
      ensures State() == Fresh(consumeTrailer)
    {
      this.consumeTrailer := consumeTrailer;
      bytesLeftInChunk, hexCount, phase, totalRead, totalOverhead := 0, 0, Size, 0, 0;
    }

    /** Mid-call invariant: `goal`, what the automaton makes of the whole input
        `s`, is the output so far plus what it makes of the unread suffix from here. */
    ghost predicate OnTrack(goal: Fed, s: seq<Byte>, src: nat, out: seq<Byte>)
      reads this
    {
      Tracks(Steering(), goal, s, src, out)
    }

    static ghost predicate Tracks(d: Decoder, goal: Fed, s: seq<Byte>, src: nat, out: seq<Byte>) {
      && Valid(d)
      && src <= |s|
      && goal == Feed(d, s[src..]).After(out)
    }

    /** The call is over: `src` is where the automaton stopped. */
    ghost predicate Settled(goal: Fed, s: seq<Byte>, src: nat, out: seq<Byte>, v: Verdict)
      reads this
    {
      && src <= |s|
      && match v
         case Incomplete => src == |s| && goal == More(Steering(), out)
         case Complete => goal == Finished(Steering(), out, s[src..])
         case Error => goal == Broken(Steering(), out, s[src..])
    }

    /** Outcome of a stretch that leaves the output alone. */
    ghost predicate Reached(goal: Fed, s: seq<Byte>, src: nat, out: seq<Byte>, signal: Signal)
      reads this
    {
      if signal.GoOn? then OnTrack(goal, s, src, out) else Settled(goal, s, src, out, signal.verdict)
    }

    /** Nothing left to read. */
    lemma Exhausted(goal: Fed, s: seq<Byte>, src: nat, out: seq<Byte>)
      requires OnTrack(goal, s, src, out) && src == |s|
      ensures Settled(goal, s, src, out, Incomplete)
    {
      assert s[src..] == [];
      assert Feed(Steering(), []) == More(Steering(), []);
      assert out + [] == out;
    }

    /** The automaton refuses the next byte. */
    lemma Refused(d: Decoder, goal: Fed, s: seq<Byte>, src: nat, out: seq<Byte>)
      requires src < |s| && Tracks(d, goal, s, src, out)
      requires Step(d, s[src]) == Fail(Steering())
      ensures Settled(goal, s, src, out, Error)
    {
      assert Feed(d, s[src..]) == Broken(Steering(), [], s[src..]);
      assert out + [] == out;
    }

    /** The next byte ends the message. */
    lemma Ended(goal: Fed, s: seq<Byte>, src: nat, out: seq<Byte>)
      requires src < |s| && OnTrack(goal, s, src, out)
      requires Step(Steering(), s[src]) == Last(Steering())
      ensures Settled(goal, s, src + 1, out, Complete)
    {
      assert s[src..][1..] == s[src + 1..];
      assert Feed(Steering(), s[src..]) == Finished(Steering(), [], s[src + 1..]);
      assert out + [] == out;
    }

    /** The next byte is consumed without output. */
    lemma Consumed(d: Decoder, goal: Fed, s: seq<Byte>, src: nat, out: seq<Byte>)
      requires src < |s| && Tracks(d, goal, s, src, out)
      requires Step(d, s[src]) == Next(Steering(), [])
      ensures OnTrack(goal, s, src + 1, out)
    {
      StepKeepsValid(d, s[src]);
      assert s[src..][1..] == s[src + 1..];
      assert Feed(d, s[src..]) == Feed(Steering(), s[src + 1..]);
    }

    /** The byte behind the digits is handed on to the extension state. */
    lemma SizeLeft(d: Decoder, goal: Fed, s: seq<Byte>, src: nat, out: seq<Byte>)
      requires src < |s| && Tracks(d, goal, s, src, out)
      requires d.phase.Size? && d.hexCount > 0 && DecodeHex(s[src]) == -1 && EndsSize(s[src])
      requires Steering() == d.(hexCount := 0, phase := Ext)
      ensures OnTrack(goal, s, src, out)
    {
      assert Step(d, s[src]) == Step(Steering(), s[src]);
      assert s[src..][0] == s[src];
    }

    /** A block of chunk data is skipped in the input and appended to the output. */
    lemma Copied(d: Decoder, goal: Fed, s: seq<Byte>, src: nat, out: seq<Byte>, n: nat)
      requires src + n <= |s| && Tracks(d, goal, s, src, out)
      requires d.phase.Data? && n <= d.left && Steering() == Skipped(d, n)
      ensures OnTrack(goal, s, src + n, out + s[src..src + n])
    {
      FeedData(d, s[src..], n);
      assert s[src..][n..] == s[src + n..];
      assert s[src..][..n] == s[src..src + n];
      Feed(Steering(), s[src + n..]).AfterAfter(out, s[src..src + n]);
    }

    /** The automaton on one byte of a size. */
    static lemma SizeStep(d: Decoder, b: Byte)
      requires d.phase.Size?
      ensures DecodeHex(b) == -1 && (d.hexCount == 0 || !EndsSize(b)) ==> Step(d, b) == Fail(d)
      ensures DecodeHex(b) != -1 && d.hexCount == MAX_HEX_DIGITS ==> Step(d, b) == Fail(d)
      ensures DecodeHex(b) != -1 && d.hexCount != MAX_HEX_DIGITS ==>
                Step(d, b) == Next(d.(left := Wrap64(d.left * 16 + DecodeHex(b)), hexCount := d.hexCount + 1), [])
    {
      hide DecodeHex, EndsSize, Wrap64;
    }

    /** Reads size digits; leaves in the extension state without consuming the byte
        that ended them. */
    method ReadSize(
      buf: array<Byte>, bufsz: nat, start: nat,
      ghost goal: Fed, ghost s: seq<Byte>, ghost out: seq<Byte>)
      returns (src: nat, signal: Signal)
      requires bufsz == |s| <= buf.Length && start <= bufsz && buf[start..bufsz] == s[start..]
      requires OnTrack(goal, s, start, out) && phase.Size?
      modifies this`bytesLeftInChunk, this`hexCount, this`phase
      ensures start <= src <= bufsz
      ensures Reached(goal, s, src, out, signal)
      ensures signal.GoOn? ==> phase.Ext? && src < bufsz
    {
      hide Feed, Step, DecodeHex, EndsSize, Wrap64, Tracks, Settled;
      src := start;
      while true
        invariant start <= src <= bufsz
        invariant OnTrack(goal, s, src, out) && phase.Size?
        invariant consumeTrailer == old(consumeTrailer)
        decreases bufsz - src
      {
        if src == bufsz {
          Exhausted(goal, s, src, out);
          return src, Stop(Incomplete);
        }
        assert buf[src] == buf[start..bufsz][src - start] == s[src];
        ghost var d := Steering();
        SizeStep(d, s[src]);
        var v := DecodeHex(buf[src]);
        if v == -1 {
          if hexCount == 0 {
            Refused(d, goal, s, src, out);
            return src, Stop(Error);
          }
          if !EndsSize(buf[src]) {
            Refused(d, goal, s, src, out);
            return src, Stop(Error);
          }
          break;
        }
        if hexCount == MAX_HEX_DIGITS {
          Refused(d, goal, s, src, out);
          return src, Stop(Error);
        }
        bytesLeftInChunk := Wrap64(bytesLeftInChunk * 16 + v);
        hexCount := hexCount + 1;
        Consumed(d, goal, s, src, out);
        src := src + 1;
      }
      ghost var d := Steering();
      hexCount := 0;
      phase := Ext;
      SizeLeft(d, goal, s, src, out);
      signal := GoOn;
    }

    /** Skips the chunk extension and the CR behind it. */
    method SkipExt(
      buf: array<Byte>, bufsz: nat, start: nat,
      ghost goal: Fed, ghost s: seq<Byte>, ghost out: seq<Byte>)
      returns (src: nat, signal: Signal)
      requires bufsz == |s| <= buf.Length && start <= bufsz && buf[start..bufsz] == s[start..]
      requires OnTrack(goal, s, start, out) && phase.Ext?
      modifies this`phase
      ensures start <= src <= bufsz
      ensures Reached(goal, s, src, out, signal)
      ensures signal.GoOn? ==> phase.HeaderLf? && start < src
    {
      hide Feed, Tracks, Settled;
      src := start;
      while true
        invariant start <= src <= bufsz
        invariant OnTrack(goal, s, src, out) && phase.Ext?
        decreases bufsz - src
      {
        if src == bufsz {
          Exhausted(goal, s, src, out);
          return src, Stop(Incomplete);
        }
        assert buf[src] == buf[start..bufsz][src - start] == s[src];
        if buf[src] == CR {
          break;
        } else if buf[src] == LF {
          Refused(Steering(), goal, s, src, out);
          return src, Stop(Error);
        }
        Consumed(Steering(), goal, s, src, out);
        src := src + 1;
      }
      ghost var d := Steering();
      phase := HeaderLf;
      Consumed(d, goal, s, src, out);
      src := src + 1;
      signal := GoOn;
    }

    /** Reads the LF that ends a size line. */
    method ReadHeaderLf(
      buf: array<Byte>, bufsz: nat, start: nat,
      ghost goal: Fed, ghost s: seq<Byte>, ghost out: seq<Byte>)
      returns (src: nat, signal: Signal)
      requires bufsz == |s| <= buf.Length && start <= bufsz && buf[start..bufsz] == s[start..]
      requires OnTrack(goal, s, start, out) && phase.HeaderLf?
      modifies this`phase
      ensures start <= src <= bufsz
      ensures Reached(goal, s, src, out, signal)
      ensures signal.GoOn? ==> start < src && (phase.Data? || phase.TrailerHead?)
    {
      src := start;
      if src == bufsz {
        Exhausted(goal, s, src, out);
        return src, Stop(Incomplete);
      }
      assert buf[src] == buf[start..bufsz][0] == s[src];
      ghost var d := Steering();
      if buf[src] != LF {
        Refused(d, goal, s, src, out);
        return src, Stop(Error);
      }
      if bytesLeftInChunk == 0 {
        if consumeTrailer {
          phase := TrailerHead;
          Consumed(d, goal, s, src, out);
          return src + 1, GoOn;
        }
        Ended(goal, s, src, out);
        return src + 1, Stop(Complete);
      }
      phase := Data;
      Consumed(d, goal, s, src, out);
      return src + 1, GoOn;
    }

    /** Reads one expected byte, CR or LF, behind the chunk data. */
    method ReadDataEnd(
      buf: array<Byte>, bufsz: nat, start: nat,
      ghost goal: Fed, ghost s: seq<Byte>, ghost out: seq<Byte>)
      returns (src: nat, signal: Signal)
      requires bufsz == |s| <= buf.Length && start <= bufsz && buf[start..bufsz] == s[start..]
      requires OnTrack(goal, s, start, out) && (phase.DataCr? || phase.DataLf?)
      modifies this`phase
      ensures start <= src <= bufsz
      ensures Reached(goal, s, src, out, signal)
      ensures signal.GoOn? ==> start < src && phase == if old(phase).DataCr? then DataLf else Size
    {
      src := start;
      if src == bufsz {
        Exhausted(goal, s, src, out);
        return src, Stop(Incomplete);
      }
      assert buf[src] == buf[start..bufsz][0] == s[src];
      ghost var d := Steering();
      if buf[src] != (if phase.DataCr? then CR else LF) {
        Refused(d, goal, s, src, out);
        return src, Stop(Error);
      }
      phase := if phase.DataCr? then DataLf else Size;
      Consumed(d, goal, s, src, out);
      return src + 1, GoOn;
    }

    /** Skips CRs at the head of a trailer line and looks at the byte behind them. */
    method ReadTrailerHead(
      buf: array<Byte>, bufsz: nat, start: nat,
      ghost goal: Fed, ghost s: seq<Byte>, ghost out: seq<Byte>)
      returns (src: nat, signal: Signal)
      requires bufsz == |s| <= buf.Length && start <= bufsz && buf[start..bufsz] == s[start..]
      requires OnTrack(goal, s, start, out) && phase.TrailerHead?
      modifies this`phase
      ensures start <= src <= bufsz
      ensures Reached(goal, s, src, out, signal)
      ensures signal.GoOn? ==> start < src && phase.TrailerMiddle?
    {
      hide Feed, Tracks, Settled;
      src := start;
      while true
        invariant start <= src <= bufsz
        invariant OnTrack(goal, s, src, out) && phase.TrailerHead?
        decreases bufsz - src
      {
        if src == bufsz {
          Exhausted(goal, s, src, out);
          return src, Stop(Incomplete);
        }
        assert buf[src] == buf[start..bufsz][src - start] == s[src];
        if buf[src] != CR {
          break;
        }
        Consumed(Steering(), goal, s, src, out);
        src := src + 1;
      }
      if buf[src] == LF {
        Ended(goal, s, src, out);
        return src + 1, Stop(Complete);
      }
      ghost var d := Steering();
      phase := TrailerMiddle;
      Consumed(d, goal, s, src, out);
      return src + 1, GoOn;
    }

    /** Skips the rest of a trailer line. */
    method SkipTrailerLine(
      buf: array<Byte>, bufsz: nat, start: nat,
      ghost goal: Fed, ghost s: seq<Byte>, ghost out: seq<Byte>)
      returns (src: nat, signal: Signal)
      requires bufsz == |s| <= buf.Length && start <= bufsz && buf[start..bufsz] == s[start..]
      requires OnTrack(goal, s, start, out) && phase.TrailerMiddle?
      modifies this`phase
      ensures start <= src <= bufsz
      ensures Reached(goal, s, src, out, signal)
      ensures signal.GoOn? ==> start < src && phase.TrailerHead?
    {
      hide Feed, Tracks, Settled;
      src := start;
      while true
        invariant start <= src <= bufsz
        invariant OnTrack(goal, s, src, out) && phase.TrailerMiddle?
        decreases bufsz - src
      {
        if src == bufsz {
          Exhausted(goal, s, src, out);
          return src, Stop(Incomplete);
        }
        assert buf[src] == buf[start..bufsz][src - start] == s[src];
        if buf[src] == LF {
          break;
        }
        Consumed(Steering(), goal, s, src, out);
        src := src + 1;
      }
      ghost var d := Steering();
      phase := TrailerHead;
      Consumed(d, goal, s, src, out);
      return src + 1, GoOn;
    }

    /** Copies chunk data down over the removed headers, as much as is there. */
    method CopyData(
      buf: array<Byte>, bufsz: nat, src0: nat, dst0: nat,
      ghost goal: Fed, ghost s: seq<Byte>, ghost out0: seq<Byte>)
      returns (src: nat, dst: nat, signal: Signal, ghost out: seq<Byte>)
      requires bufsz == |s| <= buf.Length && dst0 <= src0 <= bufsz && buf[src0..bufsz] == s[src0..]
      requires buf[..dst0] == out0
      requires OnTrack(goal, s, src0, out0) && phase.Data?
      modifies this`bytesLeftInChunk, this`phase, buf
      ensures src0 <= src <= bufsz && dst <= src
      ensures buf[src..bufsz] == s[src..] && buf[bufsz..] == old(buf[bufsz..])
      ensures buf[..dst] == out
      ensures Reached(goal, s, src, out, signal)
      ensures signal.GoOn? ==> src0 < src && phase.DataCr?
    {
      hide Feed, Step, StepExt;
      var avail := bufsz - src0;
      var n := if avail < bytesLeftInChunk then avail else bytesLeftInChunk;
      ghost var d := Steering();
      assert bytesLeftInChunk > 0;
      hide Tracks, Settled, Valid;
      ShiftDown(buf, bufsz, src0, dst0, n, s);
      src, dst := src0 + n, dst0 + n;
      out := out0 + s[src0..src];
      if avail < bytesLeftInChunk {
        bytesLeftInChunk := bytesLeftInChunk - avail;
        Copied(d, goal, s, src0, out0, n);
        Exhausted(goal, s, src, out);
        signal := Stop(Incomplete);
      } else {
        bytesLeftInChunk := 0;
        phase := DataCr;
        Copied(d, goal, s, src0, out0, n);
        signal := GoOn;
      }
    }

    /** Falls through the three states of a size line, from the current one on. */
    method ReadSizeLine(
      buf: array<Byte>, bufsz: nat, start: nat,
      ghost goal: Fed, ghost s: seq<Byte>, ghost out: seq<Byte>)
      returns (src: nat, signal: Signal)
      requires bufsz == |s| <= buf.Length && start <= bufsz && buf[start..bufsz] == s[start..]
      requires OnTrack(goal, s, start, out) && (phase.Size? || phase.Ext? || phase.HeaderLf?)
      modifies this`bytesLeftInChunk, this`hexCount, this`phase
      ensures start <= src <= bufsz
      ensures Reached(goal, s, src, out, signal)
      ensures signal.GoOn? ==> start < src && (phase.Data? || phase.TrailerHead?)
    {
      src := start;
      if phase.Size? {
        src, signal := ReadSize(buf, bufsz, src, goal, s, out);
        if signal.Stop? { return; }
        SameSuffix(buf[start..bufsz], s, start, src);
      }
      if phase.Ext? {
        src, signal := SkipExt(buf, bufsz, src, goal, s, out);
        if signal.Stop? { return; }
        SameSuffix(buf[start..bufsz], s, start, src);
      }
      src, signal := ReadHeaderLf(buf, bufsz, src, goal, s, out);
    }

    /** Falls through the two line-end states behind chunk data. */
    method ReadDataLineEnd(
      buf: array<Byte>, bufsz: nat, start: nat,
      ghost goal: Fed, ghost s: seq<Byte>, ghost out: seq<Byte>)
      returns (src: nat, signal: Signal)
      requires bufsz == |s| <= buf.Length && start <= bufsz && buf[start..bufsz] == s[start..]
      requires OnTrack(goal, s, start, out) && (phase.DataCr? || phase.DataLf?)
      modifies this`phase
      ensures start <= src <= bufsz
      ensures Reached(goal, s, src, out, signal)
      ensures signal.GoOn? ==> start < src && phase.Size?
    {
      src := start;
      if phase.DataCr? {
        src, signal := ReadDataEnd(buf, bufsz, src, goal, s, out);
        if signal.Stop? { return; }
        SameSuffix(buf[start..bufsz], s, start, src);
      }
      src, signal := ReadDataEnd(buf, bufsz, src, goal, s, out);
    }

    /** Falls through the two trailer states. */
    method ReadTrailer(
      buf: array<Byte>, bufsz: nat, start: nat,
      ghost goal: Fed, ghost s: seq<Byte>, ghost out: seq<Byte>)
      returns (src: nat, signal: Signal)
      requires bufsz == |s| <= buf.Length && start <= bufsz && buf[start..bufsz] == s[start..]
      requires OnTrack(goal, s, start, out) && (phase.TrailerHead? || phase.TrailerMiddle?)
      modifies this`phase
      ensures start <= src <= bufsz
      ensures Reached(goal, s, src, out, signal)
      ensures signal.GoOn? ==> start < src && phase.TrailerHead?
    {
      src := start;
      if phase.TrailerHead? {
        src, signal := ReadTrailerHead(buf, bufsz, src, goal, s, out);
        if signal.Stop? { return; }
        SameSuffix(buf[start..bufsz], s, start, src);
      }
      src, signal := SkipTrailerLine(buf, bufsz, src, goal, s, out);
    }

    /** The part of an iteration that deals with chunks: falls through from the
        current state to the end of a chunk, or to the trailer section. */
    method ReadChunk(
      buf: array<Byte>, bufsz: nat, src0: nat, dst0: nat,
      ghost goal: Fed, ghost s: seq<Byte>, ghost out0: seq<Byte>)
      returns (src: nat, dst: nat, signal: Signal, ghost out: seq<Byte>)
      requires bufsz == |s| <= buf.Length && dst0 <= src0 <= bufsz && buf[src0..bufsz] == s[src0..]
      requires buf[..dst0] == out0
      requires OnTrack(goal, s, src0, out0) && !phase.TrailerHead? && !phase.TrailerMiddle?
      modifies this`bytesLeftInChunk, this`hexCount, this`phase, buf
      ensures src0 <= src <= bufsz && dst <= src
      ensures buf[src..bufsz] == s[src..] && buf[bufsz..] == old(buf[bufsz..])
      ensures buf[..dst] == out
      ensures Reached(goal, s, src, out, signal)
      ensures signal.GoOn? ==> src0 < src
    {
      hide Feed, Step, Valid, StepExt, Tracks;
      src, dst, out := src0, dst0, out0;
      if phase.Size? || phase.Ext? || phase.HeaderLf? {
        src, signal := ReadSizeLine(buf, bufsz, src, goal, s, out);
        SameSuffix(buf[src0..bufsz], s, src0, src);
        if signal.Stop? || phase.TrailerHead? { return; }
      }
      if phase.Data? {
        src, dst, signal, out := CopyData(buf, bufsz, src, dst, goal, s, out);
        if signal.Stop? { return; }
      }
      ghost var mid := src;
      src, signal := ReadDataLineEnd(buf, bufsz, src, goal, s, out);
      SameSuffix(buf[mid..bufsz], s, mid, src);
    }

    /** The decoding loop: every iteration consumes input or ends the call. */
    method Run(buf: array<Byte>, bufsz: nat, ghost s: seq<Byte>)
      returns (src: nat, dst: nat, verdict: Verdict, ghost out: seq<Byte>)
      requires bufsz == |s| <= buf.Length && buf[..bufsz] == s
      requires Valid(Steering())
      modifies this`bytesLeftInChunk, this`hexCount, this`phase, buf
      ensures dst <= src <= bufsz
      ensures buf[..dst] == out && buf[src..bufsz] == s[src..] && buf[bufsz..] == old(buf[bufsz..])
      ensures Settled(Feed(old(Steering()), s), s, src, out, verdict)
    {
      ghost var goal := Feed(Steering(), s);
      var signal := GoOn;
      src, dst, out := 0, 0, [];
      assert s[0..] == s && buf[0..bufsz] == s;
      while signal.GoOn?
        invariant dst <= src <= bufsz
        invariant buf[..dst] == out && buf[src..bufsz] == s[src..] && buf[bufsz..] == old(buf[bufsz..])
        invariant Reached(goal, s, src, out, signal)
        decreases signal.GoOn?, bufsz - src
      {
        if phase.TrailerHead? || phase.TrailerMiddle? {
          ghost var start := src;
          src, signal := ReadTrailer(buf, bufsz, src, goal, s, out);
          SameSuffix(buf[start..bufsz], s, start, src);
        } else {
          src, dst, signal, out := ReadChunk(buf, bufsz, src, dst, goal, s, out);
        }
      }
      verdict := signal.verdict;
    }

    /** Counters, guard and return code at the end of a call. */
    method Account(
      bufsz: nat, src: nat, dst: nat, verdict: Verdict,
      ghost f: Fed, ghost s: seq<Byte>, ghost out: seq<Byte>)
      returns (ret: int)
      requires bufsz == |s| && dst == |out| && src <= bufsz
      requires Settled(f, s, src, out, verdict)
      modifies this`totalRead, this`totalOverhead
      ensures var r := Judge(old(State()), bufsz, f);
              State() == r.session && ret == Code(r)
    {
      totalRead := Wrap64(totalRead + bufsz);
      match verdict
      case Incomplete =>
        totalOverhead := Wrap64(totalOverhead + (bufsz - dst));
        ret := if Trips(totalRead, totalOverhead) then -1 else -2;
      case Error => ret := -1;
      case Complete => ret := bufsz - src;
    }

    /** The body of a call, proved against the reference `Call`. */
    method DecodeCall(buf: array<Byte>, bufsz: nat) returns (ret: int, size: nat)
      requires bufsz <= buf.Length && Valid(Steering())
      modifies this, buf
      ensures consumeTrailer == old(consumeTrailer)
      ensures var r := Call(old(State()), old(buf[..bufsz]));
              && State() == r.session
              && ret == Code(r)
              && size == |r.out| && size + |r.rest| <= bufsz
              && buf[..size] == r.out
              && buf[size..size + |r.rest|] == r.rest
      ensures buf[bufsz..] == old(buf[bufsz..])
    {
      hide Feed, Step, Valid, Trips, Wrap64;
      ghost var s := buf[..bufsz];
      ghost var z := State();
      ghost var out: seq<Byte>;
      var src, verdict;
      src, size, verdict, out := Run(buf, bufsz, s);
      Compact(buf, bufsz, src, size, s, out);
      ret := Account(bufsz, src, size, verdict, Feed(z.dec, s), s, out);
      Delivered(z, s, src, out, verdict);
    }

    /** One call of the decoder. The buffer ends up holding the decoded bytes and,
        right behind them, the input from the stopping point on; the record and the
        returned code are those of the reference `Call`. For a fresh record the code says
        whether the input is a message, the beginning of one, or neither. */
    method Decode(buf: array<Byte>, bufsz: nat) returns (ret: int, size: nat)
      requires bufsz <= buf.Length && Sound(State())
      modifies this, buf
      ensures Sound(State())
      ensures var r := Call(old(State()), old(buf[..bufsz]));
              && State() == r.session
              && ret == Code(r)
              && size == |r.out| && size + |r.rest| <= bufsz
              && buf[..size] == r.out
              && buf[size..size + |r.rest|] == r.rest
      ensures buf[bufsz..] == old(buf[bufsz..])
      ensures totalRead == Wrap64(old(totalRead) + bufsz) && consumeTrailer == old(consumeTrailer)
      ensures ret >= 0 ==> totalOverhead == old(totalOverhead)
      ensures ret == -2 ==> totalOverhead == Wrap64(old(totalOverhead) + (bufsz - size))
      ensures old(State()) == Fresh(old(consumeTrailer)) && bufsz < TWO64 ==>
                Answers(old(consumeTrailer), old(buf[..bufsz]), ret, buf[..bufsz], size)
    {
      hide Call, Valid, Answers, Wrap64;
      ghost var s := buf[..bufsz];
      ghost var z := State();
      ret, size := DecodeCall(buf, bufsz);
      CallCounts(z, s);
      CallKeepsSound(z, s);
      if z == Fresh(consumeTrailer) && bufsz < TWO64 {
        Behind(buf[..bufsz], buf[..], size, |Call(z, s).rest|);
        CallAnswers(consumeTrailer, s, buf[..bufsz], size);
      }
    }

    /** Output, remainder and verdict of a settled call are those of the reference. */
    lemma Delivered(z: Session, s: seq<Byte>, src: nat, out: seq<Byte>, verdict: Verdict)
      requires Settled(Feed(z.dec, s), s, src, out, verdict)
      ensures var r := Call(z, s);
              && r == Judge(z, |s|, Feed(z.dec, s)) && r.out == out && r.rest == s[src..]
    {
      hide Feed, Trips, Wrap64;
    }
  }
}
