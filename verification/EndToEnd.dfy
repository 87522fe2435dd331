// The input half of basic_socket_streambuf as a value, and a writer stream joined to a reader
// stream by a reliable byte channel that may fragment and delay arbitrarily.
module EndToEnd {
  import opened Subsequence
  import opened WriterSpec

  const PUTBACK_MAX: nat := 8

  // `avail` is [gptr, egptr); `delivered` is everything recv ever handed over.
  datatype Reader = Reader(avail: seq<char>, delivered: seq<char>)

  // underflow: eof without touching the socket when characters are still available; otherwise one
  // receive of at most the get buffer minus the putback reserve. An empty chunk is eof or an error.
  predicate UnderflowStep(r: Reader, res: IntType, r': Reader) {
    if r.avail != [] then
      res == Eof && r' == r
    else
      && r.delivered <= r'.delivered
      && r'.avail == r'.delivered[|r.delivered|..]
      && |r'.avail| <= BUFFER_SIZE - PUTBACK_MAX
      && res == if r'.avail == [] then Eof else Char(r'.avail[0])
  }

  datatype ReadOp = Sgetc | Sbumpc
  datatype ReadEvent = ReadEvent(op: ReadOp, res: IntType)

  predicate ReadStep(r: Reader, e: ReadEvent, r': Reader) {
    if r.avail != [] then
      && e.res == Char(r.avail[0])
      && r' == if e.op.Sgetc? then r else r.(avail := r.avail[1..])
    else
      && r.delivered <= r'.delivered
      && var received := r'.delivered[|r.delivered|..];
      && UnderflowStep(r, e.res, Reader(received, r'.delivered))
      && r'.avail == if e.op.Sbumpc? && received != [] then received[1..] else received
  }

  // underflow by itself: eof with characters still available, and nothing is touched; otherwise the
  // first of at most 504 characters that were received and are now available, or eof if none were.
  lemma UnderflowAnswers(r: Reader, res: IntType, r': Reader)
    requires UnderflowStep(r, res, r')
    ensures r.avail != [] ==> res == Eof && r' == r
    ensures r.avail == [] ==>
              && r'.delivered == r.delivered + r'.avail && |r'.avail| <= 504
              && res == if r'.avail == [] then Eof else Char(r'.avail[0])
  {
  }

  // The character a call removed from the stream.
  ghost function Consumed(e: ReadEvent): seq<char> {
    if e.op.Sbumpc? && e.res.Char? then [e.res.c] else []
  }

  // Forward reads neither lose nor invent: what one call consumes plus what stays available is
  // what was available plus what the call received.
  lemma ReadConserves(base: seq<char>, r: Reader, e: ReadEvent, r': Reader)
    requires r.delivered == base + r.avail && ReadStep(r, e, r')
    ensures r.delivered <= r'.delivered
    ensures r'.delivered == base + Consumed(e) + r'.avail
  {
    if r.avail != [] {
      if e.op.Sbumpc? { assert r.avail == Consumed(e) + r'.avail; }
    } else {
      var received := r'.delivered[|r.delivered|..];
      assert r.delivered == base;
      assert r'.delivered == base + received;
      assert received == Consumed(e) + r'.avail;
      assert base + received == base + Consumed(e) + r'.avail;
    }
  }

  ghost predicate ReadRun(rs: seq<Reader>, es: seq<ReadEvent>) {
    |rs| == |es| + 1 && forall i :: 0 <= i < |es| ==> ReadStep(rs[i], es[i], rs[i + 1])
  }

  ghost function AllConsumed(es: seq<ReadEvent>): seq<char> {
    if es == [] then [] else AllConsumed(es[..|es| - 1]) + Consumed(es[|es| - 1])
  }

  // Over any number of reads: what was available or received is what was consumed and what is still
  // available, in order.
  lemma {:induction false} ReadRunConserves(rs: seq<Reader>, es: seq<ReadEvent>)
    requires ReadRun(rs, es)
    ensures rs[0].delivered <= rs[|es|].delivered
    ensures rs[0].avail + rs[|es|].delivered[|rs[0].delivered|..] == AllConsumed(es) + rs[|es|].avail
    decreases |es|
  {
    if es != [] {
      hide ReadStep, Consumed;
      var n := |es| - 1;
      ReadRunConserves(rs[..n + 1], es[..n]);
      OneReadConserves(rs[n], es[n], rs[n + 1]);
      ReceivedInTurn(rs[0].delivered, rs[n].delivered, rs[n + 1].delivered);
      Chain(rs[0].avail, rs[n].delivered[|rs[0].delivered|..], AllConsumed(es[..n]), rs[n].avail,
            rs[n + 1].delivered[|rs[n].delivered|..], Consumed(es[n]), rs[n + 1].avail);
    }
  }

  lemma ReceivedInTurn(first: seq<char>, before: seq<char>, after: seq<char>)
    requires first <= before <= after
    ensures before[|first|..] + after[|before|..] == after[|first|..]
  {
  }

  lemma Chain(a: seq<char>, r: seq<char>, c: seq<char>, b: seq<char>, r': seq<char>, c': seq<char>, b': seq<char>)
    requires a + r == c + b && b + r' == c' + b'
    ensures a + (r + r') == c + c' + b'
  {
    assert a + (r + r') == a + r + r' == c + (b + r');
  }

  lemma OneReadConserves(r: Reader, e: ReadEvent, r': Reader)
    requires ReadStep(r, e, r')
    ensures r.delivered <= r'.delivered
    ensures r.avail + r'.delivered[|r.delivered|..] == Consumed(e) + r'.avail
    // Either call answers with the first character there is, and only sbumpc takes it.
    ensures var all := r.avail + r'.delivered[|r.delivered|..];
            && e.res == (if all == [] then Eof else Char(all[0]))
            && (e.op.Sgetc? ==> r'.avail == all)
  {
    if r.avail != [] {
      if e.op.Sbumpc? { assert r.avail == Consumed(e) + r'.avail; }
    }
  }

  datatype System = System(w: Writer, flight: seq<char>, r: Reader)
  datatype SystemEvent = Write(we: Event) | Read(re: ReadEvent)

  // What the writer sends joins the tail of the channel; what the reader receives is a prefix of it.
  ghost predicate SystemStep(s: System, e: SystemEvent, s': System) {
    match e
    case Write(we) =>
      && Step(s.w, we, s'.w) && s'.r == s.r
      && s.w.sent <= s'.w.sent && s'.flight == s.flight + s'.w.sent[|s.w.sent|..]
    case Read(re) =>
      && ReadStep(s.r, re, s'.r) && s'.w == s.w
      && s.r.delivered <= s'.r.delivered && s.flight == s'.r.delivered[|s.r.delivered|..] + s'.flight
  }

  ghost predicate SystemRun(ss: seq<System>, es: seq<SystemEvent>) {
    && |ss| == |es| + 1
    && ss[0] == System(FRESH_WRITER, [], Reader([], []))
    && forall i :: 0 <= i < |es| ==> SystemStep(ss[i], es[i], ss[i + 1])
  }

  ghost function Written(es: seq<SystemEvent>): seq<char> {
    if es == [] then [] else Written(es[..|es| - 1]) + WrittenBy(es[|es| - 1])
  }

  ghost function ReadBack(es: seq<SystemEvent>): seq<char> {
    if es == [] then [] else ReadBack(es[..|es| - 1]) + ReadBy(es[|es| - 1])
  }

  // No flush failed with two or more characters pending.
  ghost predicate HarmlessWrites(ss: seq<System>, es: seq<SystemEvent>)
    requires |ss| == |es| + 1
  {
    forall i :: 0 <= i < |es| && es[i].Write? ==> Harmless(ss[i].w, es[i].we)
  }

  // What holds between the two ends at every moment of every run; `flushed` is the part of the
  // written characters that has left the put area.
  ghost predicate Linked(s: System, flushed: seq<char>, written: seq<char>, readBack: seq<char>) {
    && WellFormed(s.w)
    && s.w.sent == s.r.delivered + s.flight
    && s.r.delivered == readBack + s.r.avail
    && written == flushed + s.w.pending
    && Subseq(flushed, s.w.sent)
  }

  ghost function WrittenBy(e: SystemEvent): seq<char> {
    if e.Write? then Taken(e.we) else []
  }

  ghost function ReadBy(e: SystemEvent): seq<char> {
    if e.Read? then Consumed(e.re) else []
  }

  lemma WriteLink(s: System, we: Event, s': System,
                  flushed: seq<char>, written: seq<char>, readBack: seq<char>) returns (flushed': seq<char>)
    requires Linked(s, flushed, written, readBack) && SystemStep(s, Write(we), s')
    ensures Linked(s', flushed', written + Taken(we), readBack)
    ensures flushed == s.w.sent && Harmless(s.w, we) ==> flushed' == s'.w.sent
  {
    flushed' := StepConserves(flushed, s.w, we, s'.w);
    assert s'.w.sent == s'.r.delivered + s'.flight by {
      var news := s'.w.sent[|s.w.sent|..];
      assert s'.w.sent == s.w.sent + news;
      assert s.r.delivered + s.flight + news == s.r.delivered + (s.flight + news);
    }
  }

  lemma ReadLink(s: System, re: ReadEvent, s': System,
                 flushed: seq<char>, written: seq<char>, readBack: seq<char>)
    requires Linked(s, flushed, written, readBack) && SystemStep(s, Read(re), s')
    ensures Linked(s', flushed, written, readBack + Consumed(re)) && s'.w == s.w
  {
    ReadConserves(readBack, s.r, re, s'.r);
    var chunk := s'.r.delivered[|s.r.delivered|..];
    assert s'.r.delivered == s.r.delivered + chunk;
    assert s.w.sent == s.r.delivered + (chunk + s'.flight) == s'.r.delivered + s'.flight;
  }

  lemma StartLinked()
    ensures Linked(System(FRESH_WRITER, [], Reader([], [])), [], [], [])
  {
  }

  lemma {:induction false} Link(ss: seq<System>, es: seq<SystemEvent>) returns (flushed: seq<char>)
    requires SystemRun(ss, es)
    ensures Linked(ss[|es|], flushed, Written(es), ReadBack(es))
    ensures HarmlessWrites(ss, es) ==> flushed == ss[|es|].w.sent
    decreases |es|
  {
    hide SystemStep, Linked, Harmless, Taken, Consumed;
    if es == [] {
      flushed := [];
      assert Linked(ss[0], [], [], []) by { StartLinked(); }
    } else {
      var n := |es| - 1;
      assert SystemRun(ss[..n + 1], es[..n]);
      var before := Link(ss[..n + 1], es[..n]);
      match es[n] {
        case Write(we) =>
          flushed := WriteLink(ss[n], we, ss[n + 1], before, Written(es[..n]), ReadBack(es[..n]));
          assert ReadBack(es) == ReadBack(es[..n]);
        case Read(re) =>
          flushed := before;
          ReadLink(ss[n], re, ss[n + 1], flushed, Written(es[..n]), ReadBack(es[..n]));
          assert Written(es) == Written(es[..n]);
      }
    }
  }

  // Whatever fails and however the bytes are split: everything written is still present, in order,
  // in read ++ get area ++ in flight ++ put area.
  lemma EndToEndNothingLost(ss: seq<System>, es: seq<SystemEvent>)
    requires SystemRun(ss, es)
    ensures var s := ss[|es|];
            Subseq(Written(es), ReadBack(es) + s.r.avail + s.flight + s.w.pending)
  {
    var s := ss[|es|];
    var flushed := Link(ss, es);
    SubseqAppendBoth(flushed, s.w.sent, s.w.pending);
  }

  // As long as no flush failed with two or more characters pending, the two ends form one FIFO, so
  // the reader has seen a prefix of what was written.
  lemma EndToEndFifo(ss: seq<System>, es: seq<SystemEvent>)
    requires SystemRun(ss, es) && HarmlessWrites(ss, es)
    ensures Written(es) == ReadBack(es) + ss[|es|].r.avail + ss[|es|].flight + ss[|es|].w.pending
    ensures ReadBack(es) <= Written(es)
  {
    var flushed := Link(ss, es);
  }
}
