/** Calls of the chunked decoder: the counters kept across calls, the overhead
    guard, and independence of how the stream was cut into buffers. */
module ChunkedCalls {
  import opened Bytes
  import opened ChunkedAutomaton

  /** The whole decoder record: steering part plus the two 64-bit counters. */
  datatype Session = Session(dec: Decoder, totalRead: nat, totalOverhead: nat)

  predicate Sound(z: Session) {
    Valid(z.dec) && z.totalRead < TWO64 && z.totalOverhead < TWO64
  }

  function Fresh(consumeTrailer: bool): Session {
    Session(Initial(consumeTrailer), 0, 0)
  }

  datatype Verdict = Incomplete | Error | Complete

  /** What one call delivers: `out` decoded bytes, then `rest`, the input from the
      point where decoding stopped. */
  datatype Reply = Reply(verdict: Verdict, session: Session, out: seq<Byte>, rest: seq<Byte>)

  const OVERHEAD_LIMIT: nat := 100 * 1024

  /** The guard, on unsigned 64-bit counters. */
  predicate Trips(totalRead: nat, totalOverhead: nat) {
    && totalOverhead >= OVERHEAD_LIMIT
    && Wrap64(totalRead - totalOverhead) < totalRead / 4
  }

  /** Verdict and counters of a call on `n` bytes that the automaton took to `f`. */
  function Judge(z: Session, n: nat, f: Fed): Reply {
    var read := Wrap64(z.totalRead + n);
    match f
    case More(d, out) =>
      var overhead := Wrap64(z.totalOverhead + (n - |out|));
      Reply(if Trips(read, overhead) then Error else Incomplete, Session(d, read, overhead), out, [])
    case Finished(d, out, rest) => Reply(Complete, Session(d, read, z.totalOverhead), out, rest)
    case Broken(d, out, rest) => Reply(Error, Session(d, read, z.totalOverhead), out, rest)
  }

  /** One call of the decoder on a buffer holding `s`. */
  function Call(z: Session, s: seq<Byte>): Reply {
    Judge(z, |s|, Feed(z.dec, s))
  }

  function Concat(pieces: seq<seq<Byte>>): seq<Byte> {
    if pieces == [] then [] else pieces[0] + Concat(pieces[1..])
  }

  /** Successive calls on successive buffers until one does not ask for more. The
      buffers not yet handed over count as undecoded remainder. */
  function Calls(z: Session, pieces: seq<seq<Byte>>): Reply
    decreases |pieces|
  {
    if pieces == [] then Reply(Incomplete, z, [], [])
    else
      var r := Call(z, pieces[0]);
      if r.verdict == Incomplete then
        var later := Calls(r.session, pieces[1..]);
        later.(out := r.out + later.out)
      else r.(rest := r.rest + Concat(pieces[1..]))
  }

  /** A property of the bytes read so far only: decoding them is incomplete and the
      overhead they carry is over the limit. */
  predicate Overloaded(z: Session, s: seq<Byte>) {
    && Feed(z.dec, s).More?
    && Call(z, s).verdict == Error
  }

  /** Some buffer boundary before the last one falls where the guard trips. */
  ghost predicate CutTrips(z: Session, pieces: seq<seq<Byte>>) {
    exists i :: 0 < i < |pieces| && Overloaded(z, Concat(pieces[..i]))
  }

  lemma CallKeepsSound(z: Session, s: seq<Byte>)
    requires Sound(z)
    ensures Sound(Call(z, s).session)
  {
    FeedKeepsValid(z.dec, s);
    FeedRest(z.dec, s);
  }

  /** Two calls are one call on the joined input, counters included. */
  ghost predicate Joins(first: Reply, second: Reply, joined: Reply) {
    && joined.verdict == second.verdict
    && joined.out == first.out + second.out
    && joined.rest == second.rest
    && joined.session.dec == second.session.dec
    && (second.verdict == Incomplete ==> joined.session == second.session)
  }

  lemma JudgeAppend(z: Session, a: nat, b: nat, fa: Fed, fb: Fed)
    requires fa.More? && |fa.out| <= a && |fb.out| <= b
    ensures Joins(Judge(z, a, fa), Judge(Judge(z, a, fa).session, b, fb), Judge(z, a + b, fb.After(fa.out)))
  {
    hide Wrap64;
    var joined := fb.After(fa.out);
    assert joined.out == fa.out + fb.out;
    var z1 := Judge(z, a, fa).session;
    assert Wrap64(z1.totalRead + b) == Wrap64(z.totalRead + (a + b)) by {
      ModAdd(z.totalRead, a, b);
    }
    assert Wrap64(z1.totalOverhead + (b - |fb.out|)) == Wrap64(z.totalOverhead + (a + b - |joined.out|)) by {
      ModAdd(z.totalOverhead, a - |fa.out|, b - |fb.out|);
      assert (a - |fa.out|) + (b - |fb.out|) == a + b - |joined.out|;
    }
  }

  /** What a call does to the counters. */
  lemma CallCounts(z: Session, s: seq<Byte>)
    ensures var r := Call(z, s);
            && r.session.totalRead == Wrap64(z.totalRead + |s|)
            && (r.verdict == Complete ==> r.session.totalOverhead == z.totalOverhead)
            && (r.verdict == Incomplete ==>
                  r.session.totalOverhead == Wrap64(z.totalOverhead + (|s| - |r.out|)))
  {
    hide Feed, Trips, Wrap64;
  }

  lemma CallDec(z: Session, a: seq<Byte>)
    requires Feed(z.dec, a).More?
    ensures Call(z, a).session.dec == Feed(z.dec, a).d
  {
    hide Feed, Trips;
  }

  lemma CallAppend(z: Session, a: seq<Byte>, b: seq<Byte>)
    requires Feed(z.dec, a).More?
    ensures Joins(Call(z, a), Call(Call(z, a).session, b), Call(z, a + b))
    ensures Feed(z.dec, a + b).More? <==> Feed(Call(z, a).session.dec, b).More?
  {
    hide Feed, Judge, Joins, Trips;
    CallDec(z, a);
    var fa := Feed(z.dec, a);
    var fb := Feed(fa.d, b);
    FeedAppend(z.dec, a, b);
    FeedRest(z.dec, a);
    FeedRest(fa.d, b);
    JudgeAppend(z, |a|, |b|, fa, fb);
  }

  lemma ModAdd(x: nat, a: nat, b: nat)
    ensures Wrap64(Wrap64(x + a) + b) == Wrap64(x + (a + b))
  {
  }

  /** Cut invariance. Unless the guard trips at an inner buffer boundary, the calls
      give the verdict of one call on the whole stream, and, unless that is an
      error, the same decoded bytes, the same remainder and the same decoder. If the
      guard does trip there, the calls end in an error. */
  lemma {:induction false} CutInvariance(z: Session, pieces: seq<seq<Byte>>)
    requires pieces != []
    ensures var whole := Call(z, Concat(pieces));
            var cut := Calls(z, pieces);
            if CutTrips(z, pieces) then cut.verdict == Error
            else
              && cut.verdict == whole.verdict
              && (whole.verdict != Error ==>
                    cut.out == whole.out && cut.rest == whole.rest
                    && cut.session.dec == whole.session.dec)
              && (whole.verdict == Incomplete ==> cut.session == whole.session)
    decreases |pieces|
  {
    var p, tail := pieces[0], pieces[1..];
    var first := Call(z, p);
    assert Concat(pieces) == p + Concat(tail);
    if !Feed(z.dec, p).More? {
      StoppedAtOnce(z, pieces);
    } else {
      CutTripsUnfold(z, pieces);
      CallAppend(z, p, Concat(tail));
      if tail == [] {
        assert p + Concat(tail) == p;
      } else if first.verdict == Incomplete {
        CutInvariance(first.session, tail);
      }
    }
  }

  /** A run stopped by its first buffer: the later boundaries cannot matter. */
  lemma {:induction false} StoppedAtOnce(z: Session, pieces: seq<seq<Byte>>)
    requires pieces != [] && !Feed(z.dec, pieces[0]).More?
    ensures !CutTrips(z, pieces)
    ensures Call(z, Concat(pieces)).verdict == Calls(z, pieces).verdict == Call(z, pieces[0]).verdict
    ensures Call(z, Concat(pieces)).out == Calls(z, pieces).out
    ensures Call(z, Concat(pieces)).rest == Calls(z, pieces).rest
    ensures Call(z, Concat(pieces)).session.dec == Calls(z, pieces).session.dec
  {
    FeedAppend(z.dec, pieces[0], Concat(pieces[1..]));
    forall i | 0 < i < |pieces|
      ensures !Overloaded(z, Concat(pieces[..i]))
    {
      assert pieces[..i][1..] == pieces[1..i];
      FeedAppend(z.dec, pieces[0], Concat(pieces[1..i]));
    }
  }

  lemma {:induction false} CutTripsUnfold(z: Session, pieces: seq<seq<Byte>>)
    requires pieces != [] && Feed(z.dec, pieces[0]).More?
    ensures CutTrips(z, pieces) <==>
              |pieces| > 1 && (Overloaded(z, pieces[0]) || CutTrips(Call(z, pieces[0]).session, pieces[1..]))
  {
    var p, tail := pieces[0], pieces[1..];
    var z1 := Call(z, p).session;
    forall i | 0 < i < |pieces|
      ensures Overloaded(z, Concat(pieces[..i])) <==>
                if i == 1 then Overloaded(z, p) else Overloaded(z1, Concat(tail[..i - 1]))
    {
      assert pieces[..i][1..] == tail[..i - 1];
      assert Concat(pieces[..i]) == p + Concat(tail[..i - 1]);
      if i == 1 {
        assert p + Concat(tail[..0]) == p;
      } else {
        CallAppend(z, p, Concat(tail[..i - 1]));
      }
    }
    if |pieces| > 1 && Overloaded(z, p) {
      assert Overloaded(z, Concat(pieces[..1]));
    }
    if CutTrips(z1, tail) {
      var j :| 0 < j < |tail| && Overloaded(z1, Concat(tail[..j]));
      assert Overloaded(z, Concat(pieces[..j + 1]));
    }
  }

  /** The two verdicts agree exactly when no inner boundary trips the guard, or the
      stream is refused anyway. */
  lemma CutVerdictExact(z: Session, pieces: seq<seq<Byte>>)
    requires pieces != []
    ensures Calls(z, pieces).verdict == Call(z, Concat(pieces)).verdict <==>
              !CutTrips(z, pieces) || Call(z, Concat(pieces)).verdict == Error
  {
    CutInvariance(z, pieces);
  }

  /** For a fresh decoder and counters that have not wrapped, the guard's condition
      in plain terms: 100 KiB of overhead, and less than a quarter delivered. */
  lemma OverloadedMeans(consumeTrailer: bool, s: seq<Byte>)
    requires |s| < TWO64
    ensures var f := Feed(Initial(consumeTrailer), s);
            Overloaded(Fresh(consumeTrailer), s) <==>
              f.More? && |s| - |f.out| >= 100 * 1024 && |f.out| < |s| / 4
  {
    FeedRest(Initial(consumeTrailer), s);
    hide Feed;
  }

  lemma {:induction false} ConcatPrefix(pieces: seq<seq<Byte>>, i: nat)
    requires i <= |pieces|
    ensures |Concat(pieces[..i])| <= |Concat(pieces)|
    ensures Concat(pieces[..i]) == Concat(pieces)[..|Concat(pieces[..i])|]
    decreases i
  {
    if i > 0 {
      assert pieces[..i][1..] == pieces[1..][..i - 1];
      ConcatPrefix(pieces[1..], i - 1);
    }
  }

  /** All cuts of a stream get the verdict of the uncut stream exactly when that is
      an error or no prefix of the stream is overloaded. */
  lemma EveryCutAgrees(z: Session, s: seq<Byte>)
    ensures (forall pieces: seq<seq<Byte>> :: pieces != [] && Concat(pieces) == s ==>
               Calls(z, pieces).verdict == Call(z, s).verdict)
            <==> Call(z, s).verdict == Error || forall i :: 0 <= i <= |s| ==> !Overloaded(z, s[..i])
  {
    hide Call, Calls, Overloaded;
    var whole := Call(z, s).verdict;
    forall pieces: seq<seq<Byte>> | pieces != [] && Concat(pieces) == s
      ensures Calls(z, pieces).verdict == whole || (whole != Error && CutTrips(z, pieces))
      ensures CutTrips(z, pieces) ==> exists i :: 0 <= i <= |s| && Overloaded(z, s[..i])
    {
      CutVerdictExact(z, pieces);
      if CutTrips(z, pieces) {
        var i :| 0 < i < |pieces| && Overloaded(z, Concat(pieces[..i]));
        ConcatPrefix(pieces, i);
        assert Overloaded(z, s[..|Concat(pieces[..i])|]);
      }
    }
    if i :| 0 <= i <= |s| && Overloaded(z, s[..i]) {
      var cut := [s[..i], s[i..]];
      CutInTwo(s, i);
      assert CutTrips(z, cut) by {
        assert Overloaded(z, Concat(cut[..1]));
      }
      CutVerdictExact(z, cut);
    }
  }

  lemma CutInTwo(s: seq<Byte>, i: nat)
    requires i <= |s|
    ensures var cut := [s[..i], s[i..]];
            Concat(cut) == s && Concat(cut[..1]) == s[..i]
  {
    var a, b := s[..i], s[i..];
    assert [a, b][1..] == [b];
    calc {
      Concat([a, b]);
      a + Concat([b]);
      a + (b + Concat([]));
      s;
    }
    assert [a, b][..1] == [a];
    assert Concat([a]) == a + Concat([]) == a;
  }

  /** No cut of a stream below the overhead limit can be told from the uncut stream. */
  lemma ShortStreamsCutFreely(consumeTrailer: bool, pieces: seq<seq<Byte>>)
    requires pieces != [] && |Concat(pieces)| < 100 * 1024
    ensures var whole := Call(Fresh(consumeTrailer), Concat(pieces));
            var cut := Calls(Fresh(consumeTrailer), pieces);
            && cut.verdict == whole.verdict
            && (whole.verdict != Error ==> cut.out == whole.out && cut.rest == whole.rest)
  {
    hide Call, Calls, Overloaded;
    CutInvariance(Fresh(consumeTrailer), pieces);
    forall i | 0 < i < |pieces|
      ensures !Overloaded(Fresh(consumeTrailer), Concat(pieces[..i]))
    {
      ConcatPrefix(pieces, i);
      OverloadedMeans(consumeTrailer, Concat(pieces[..i]));
    }
  }

  /** Overhead accounting over every run of calls that all asked for more: read minus
      overhead is the number of bytes delivered, so such a run has little overhead or
      has delivered a quarter of what it read. */
  lemma {:induction false} OverheadAccounting(consumeTrailer: bool, pieces: seq<seq<Byte>>)
    requires Calls(Fresh(consumeTrailer), pieces).verdict == Incomplete
    ensures var r := Calls(Fresh(consumeTrailer), pieces);
            var n := |Concat(pieces)|;
            && |r.out| <= n
            && r.session.totalRead == Wrap64(n)
            && r.session.totalOverhead == Wrap64(n - |r.out|)
            && (n < TWO64 ==> r.session.totalRead - r.session.totalOverhead == |r.out|)
            && (n < TWO64 ==> n - |r.out| < 100 * 1024 || |r.out| >= n / 4)
  {
    if pieces != [] {
      var z := Fresh(consumeTrailer);
      CutInvariance(z, pieces);
      FeedRest(z.dec, Concat(pieces));
    }
  }
}
