// The output half of basic_socket_streambuf as a value, the effect of each protected virtual on it,
// and what holds of every run of those effects.
//
// `sent` is everything the kernel has ever taken from this stream, `pending` is [pbase, pptr),
// `room` is epptr - pptr. The socket is adversarial: a step relation admits every split of a
// send, every error and every expiry.
module WriterSpec {
  import opened Subsequence

  const BUFFER_SIZE: nat := 512

  // int_type: a character or traits_type::eof().
  datatype IntType = Eof | Char(c: char)

  datatype Writer = Writer(buffered: bool, pending: seq<char>, room: nat, sent: seq<char>)

  predicate WellFormed(w: Writer) {
    && (!w.buffered ==> w.pending == [] && w.room == 0)
    && |w.pending| + w.room <= BUFFER_SIZE
  }

  const FRESH_WRITER := Writer(true, [], BUFFER_SIZE, [])

  // What a send loop over `out` can do to the wire: it transmits a prefix of `out`,
  // and it reports success exactly when that prefix is all of it.
  predicate SendOutcome(out: seq<char>, before: seq<char>, after: seq<char>, ok: bool) {
    && before <= after
    && after[|before|..] <= out
    && (ok <==> after[|before|..] == out)
  }

  // Sending turns `before` followed by `out` into `after` followed by what is left of `out`.
  lemma SendProgress(out: seq<char>, before: seq<char>, after: seq<char>, rest: seq<char>)
    requires before + out == after + rest && |rest| <= |out|
    ensures SendOutcome(out, before, after, rest == [])
  {
    assert before == (before + out)[..|before|] == after[..|before|];
    assert out == (before + out)[|before|..] == after[|before|..] + rest;
  }

  // overflow(c): the whole put area, or the one character of an unbuffered stream, goes to the
  // socket; only if all of it does is the put area reset and c stored.
  predicate OverflowStep(w: Writer, c: IntType, w': Writer, ok: bool) {
    && w'.buffered == w.buffered
    && SendOutcome(if w.buffered then w.pending else if c.Eof? then [] else [c.c], w.sent, w'.sent, ok)
    && (if !ok || !w.buffered then
          w'.pending == w.pending && w'.room == w.room
        else if c.Eof? then
          w'.pending == [] && w'.room == BUFFER_SIZE
        else
          w'.pending == [c.c] && w'.room == BUFFER_SIZE - 1)
  }

  datatype Op = Sputc(c: char) | Sync | Setbuf(isNull: bool, n: int)

  // One call and whether it reported success.
  datatype Event = Event(op: Op, ok: bool)

  // sputc stores into the put area while there is room and calls overflow otherwise;
  // sync is overflow(eof); setbuf accepts only (0, 0) on an empty put area.
  predicate Step(w: Writer, e: Event, w': Writer) {
    match e.op
    case Sputc(c) =>
      if w.room > 0 then
        e.ok && w' == w.(pending := w.pending + [c], room := w.room - 1)
      else
        OverflowStep(w, Char(c), w', e.ok)
    case Sync =>
      OverflowStep(w, Eof, w', e.ok)
    case Setbuf(isNull, n) =>
      if w.pending == [] && isNull && n == 0 then
        e.ok && w' == w.(buffered := false, room := 0)
      else
        !e.ok && w' == w
  }

  predicate Run(ws: seq<Writer>, es: seq<Event>) {
    && |ws| == |es| + 1
    && forall i :: 0 <= i < |es| ==> Step(ws[i], es[i], ws[i + 1])
  }

  // What one call made the stream responsible for.
  ghost function Taken(e: Event): seq<char> {
    if e.op.Sputc? && e.ok then [e.op.c] else []
  }

  // What one call put on the wire while reporting failure.
  ghost function Wasted(w: Writer, e: Event, w': Writer): int {
    if e.ok then 0 else |w'.sent| - |w.sent|
  }

  // A call that cannot leave part of the put area on the wire and in the put area at once: it
  // succeeds, is a refused setbuf, or has at most one character to flush.
  predicate Harmless(w: Writer, e: Event) {
    e.ok || e.op.Setbuf? || |w.pending| <= 1
  }

  // The characters the caller was told were taken, in order.
  ghost function Accepted(es: seq<Event>): seq<char> {
    if es == [] then [] else Accepted(es[..|es| - 1]) + Taken(es[|es| - 1])
  }

  // How many characters calls that reported failure had nevertheless put on the wire.
  ghost function SentByFailedCalls(ws: seq<Writer>, es: seq<Event>): int
    requires |ws| == |es| + 1
    decreases |es|
  {
    if es == [] then 0
    else
      var n := |es| - 1;
      SentByFailedCalls(ws[..n + 1], es[..n]) + Wasted(ws[n], es[n], ws[n + 1])
  }

  // One step extends the flushed part of the accepted characters and keeps it embedded in the wire.
  lemma FlushStep(flushed: seq<char>, w: Writer, c: IntType, w': Writer, ok: bool) returns (flushed': seq<char>)
    requires WellFormed(w) && Subseq(flushed, w.sent)
    requires OverflowStep(w, c, w', ok)
    ensures WellFormed(w') && w.sent <= w'.sent
    ensures flushed' + w'.pending == flushed + w.pending + (if ok && c.Char? then [c.c] else [])
    ensures Subseq(flushed', w'.sent)
    ensures |w'.sent| + |w'.pending| ==
            |w.sent| + |w.pending| +
            (if !ok then |w'.sent| - |w.sent| else if c.Char? then 1 else 0)
  {
    var news := w'.sent[|w.sent|..];
    assert w'.sent == w.sent + news;
    if !ok {
      SubseqGrowRight(flushed, w.sent, news);
      flushed' := flushed;
    } else {
      SubseqAppendBoth(flushed, w.sent, news);
      flushed' := flushed + news;
    }
  }

  lemma StepConserves(flushed: seq<char>, w: Writer, e: Event, w': Writer) returns (flushed': seq<char>)
    requires WellFormed(w) && Subseq(flushed, w.sent) && Step(w, e, w')
    ensures WellFormed(w') && w.sent <= w'.sent
    ensures flushed' + w'.pending == flushed + w.pending + Taken(e)
    ensures Subseq(flushed', w'.sent)
    ensures |w'.sent| + |w'.pending| == |w.sent| + |w.pending| + |Taken(e)| + Wasted(w, e, w')
    ensures flushed == w.sent && Harmless(w, e) ==> flushed' == w'.sent
  {
    match e.op {
      case Sputc(c) =>
        if w.room > 0 {
          flushed' := flushed;
        } else {
          flushed' := FlushStep(flushed, w, Char(c), w', e.ok);
        }
      case Sync =>
        flushed' := FlushStep(flushed, w, Eof, w', e.ok);
      case Setbuf(_, _) =>
        flushed' := flushed;
    }
    SubseqLength(flushed', w'.sent);
  }

  lemma {:induction false} RunConserves(ws: seq<Writer>, es: seq<Event>) returns (flushed: seq<char>)
    requires Run(ws, es) && WellFormed(ws[0])
    ensures WellFormed(ws[|es|]) && ws[0].sent <= ws[|es|].sent
    ensures flushed + ws[|es|].pending == ws[0].sent + ws[0].pending + Accepted(es)
    ensures Subseq(flushed, ws[|es|].sent)
    ensures |ws[|es|].sent| + |ws[|es|].pending| ==
            |ws[0].sent| + |ws[0].pending| + |Accepted(es)| + SentByFailedCalls(ws, es)
    decreases |es|
  {
    if es == [] {
      flushed := ws[0].sent;
      SubseqRefl(flushed);
    } else {
      var n := |es| - 1;
      var before := RunConserves(ws[..n + 1], es[..n]);
      flushed := StepConserves(before, ws[n], es[n], ws[n + 1]);
      assert ws[0].sent + ws[0].pending + Accepted(es) ==
             ws[0].sent + ws[0].pending + Accepted(es[..n]) + Taken(es[n]);
    }
  }

  // On every run, whatever the socket does: characters accepted before and during the run are a
  // subsequence of wire + put area, and the excess is exactly what failed calls had already sent.
  lemma NoAcceptedCharacterLost(ws: seq<Writer>, es: seq<Event>)
    requires Run(ws, es) && WellFormed(ws[0])
    ensures Subseq(ws[0].sent + ws[0].pending + Accepted(es), ws[|es|].sent + ws[|es|].pending)
    ensures |ws[|es|].sent| + |ws[|es|].pending| ==
            |ws[0].sent| + |ws[0].pending| + |Accepted(es)| + SentByFailedCalls(ws, es)
  {
    var flushed := RunConserves(ws, es);
    SubseqAppendBoth(flushed, ws[|es|].sent, ws[|es|].pending);
  }

  lemma {:induction false} SubseqRefl(a: seq<char>)
    ensures Subseq(a, a)
  {
    SubseqAppendBoth<char>([], [], a);
    assert [] + a == a;
  }

  ghost predicate AllHarmless(ws: seq<Writer>, es: seq<Event>)
    requires |ws| == |es| + 1
  {
    forall i :: 0 <= i < |es| ==> Harmless(ws[i], es[i])
  }

  ghost predicate IsQueue(ws: seq<Writer>, es: seq<Event>)
    requires |ws| == |es| + 1
  {
    ws[|es|].sent + ws[|es|].pending == ws[0].sent + ws[0].pending + Accepted(es)
  }

  // Harmless calls that fail have put nothing on the wire.
  lemma {:induction false} NothingResent(ws: seq<Writer>, es: seq<Event>)
    requires Run(ws, es) && WellFormed(ws[0]) && AllHarmless(ws, es)
    ensures SentByFailedCalls(ws, es) == 0
    decreases |es|
  {
    hide Step, Harmless, WellFormed, Wasted, Accepted;
    if es != [] {
      var n := |es| - 1;
      NothingResent(ws[..n + 1], es[..n]);
      var _ := RunConserves(ws[..n + 1], es[..n]);
      HarmlessWastesNothing(ws[n], es[n], ws[n + 1]);
    }
  }

  lemma HarmlessWastesNothing(w: Writer, e: Event, w': Writer)
    requires WellFormed(w) && Step(w, e, w') && Harmless(w, e)
    ensures Wasted(w, e, w') == 0
  {
  }

  lemma QueueIffNothingResent(ws: seq<Writer>, es: seq<Event>)
    requires Run(ws, es) && WellFormed(ws[0])
    ensures IsQueue(ws, es) <==> SentByFailedCalls(ws, es) == 0
  {
    hide Step, Accepted, SentByFailedCalls, Subseq;
    NoAcceptedCharacterLost(ws, es);
    var all, out := ws[0].sent + ws[0].pending + Accepted(es), ws[|es|].sent + ws[|es|].pending;
    SubseqLength(all, out);
    assert |all| == |ws[0].sent| + |ws[0].pending| + |Accepted(es)|;
    assert |out| == |ws[|es|].sent| + |ws[|es|].pending|;
  }

  // The stream is exactly a queue, wire + put area == everything accepted, as long as no flush
  // fails with two or more characters pending. Calls on an unbuffered stream never do.
  lemma ExactQueue(ws: seq<Writer>, es: seq<Event>)
    requires Run(ws, es) && WellFormed(ws[0]) && AllHarmless(ws, es)
    ensures IsQueue(ws, es)
  {
    NothingResent(ws, es);
    QueueIffNothingResent(ws, es);
  }

  // Nothing is ever pending in an unbuffered stream, so every call on it is harmless and it stays
  // unbuffered, whichever way it became so.
  lemma {:induction false} UnbufferedIsHarmless(ws: seq<Writer>, es: seq<Event>, i: nat, j: nat)
    requires Run(ws, es) && WellFormed(ws[0]) && i <= j <= |es| && !ws[i].buffered
    ensures !ws[j].buffered && ws[j].pending == []
    decreases j
  {
    var _ := RunConserves(ws[..j + 1], es[..j]);
    if i < j {
      UnbufferedIsHarmless(ws, es, i, j - 1);
      assert Step(ws[j - 1], es[j - 1], ws[j]);
    }
  }

  // setbuf(0, 0) can be had whenever nothing is pending, and never otherwise; from then on every
  // character that is accepted is on the wire when the call returns.
  lemma UnbufferedIsImmediate(w: Writer, ok: bool, w': Writer, c: char, ok': bool, w'': Writer)
    requires WellFormed(w) && Step(w, Event(Setbuf(true, 0), ok), w') && Step(w', Event(Sputc(c), ok'), w'')
    ensures ok <==> w.pending == []
    ensures ok ==> w''.sent == (if ok' then w.sent + [c] else w.sent) && w''.pending == []
    ensures !ok ==> w' == w
  {
    if ok {
      assert w''.sent == w'.sent + w''.sent[|w'.sent|..];
    }
  }

  // Any other setbuf is refused and changes nothing.
  lemma OtherSetbufsAreRefused(w: Writer, isNull: bool, n: int, ok: bool, w': Writer)
    requires Step(w, Event(Setbuf(isNull, n), ok), w') && !(isNull && n == 0)
    ensures !ok && w' == w
  {
  }

  // ---- Whether a run stays a queue is up to the socket only if some flush fails with two or more
  // characters pending. ----

  // The put areas, as opposed to the wire.
  predicate SameArea(v: Writer, w: Writer) {
    v.buffered == w.buffered && v.pending == w.pending && v.room == w.room
  }

  // What a call has to send.
  function ToSend(w: Writer, op: Op): seq<char> {
    match op
    case Sputc(c) => if w.room > 0 then [] else if w.buffered then w.pending else [c]
    case Sync => w.pending
    case Setbuf(_, _) => []
  }

  // The same call on a stream with the same put area over the worst possible socket: a flush that
  // fails gets one character out, if it has more than one.
  function Worst(v: Writer, e: Event, w': Writer): Writer {
    var out := ToSend(v, e.op);
    w'.(sent := v.sent + if e.ok then out else if |out| >= 2 then out[..1] else [])
  }

  lemma WorstIsStep(v: Writer, w: Writer, e: Event, w': Writer)
    requires WellFormed(w) && Step(w, e, w') && SameArea(v, w)
    ensures Step(v, e, Worst(v, e, w')) && SameArea(Worst(v, e, w'), w')
    ensures Wasted(v, e, Worst(v, e, w')) >= if Harmless(w, e) then 0 else 1
  {
    var out, v' := ToSend(v, e.op), Worst(v, e, w');
    assert v'.sent[|v.sent|..] == if e.ok then out else if |out| >= 2 then out[..1] else [];
  }

  // Calls and their results determine the put area, whatever the socket did.
  lemma {:induction false} EventsFixAreas(ws: seq<Writer>, ws': seq<Writer>, es: seq<Event>, i: nat)
    requires Run(ws, es) && Run(ws', es) && SameArea(ws[0], ws'[0]) && i <= |es|
    ensures SameArea(ws[i], ws'[i])
    decreases i
  {
    if i > 0 {
      EventsFixAreas(ws, ws', es, i - 1);
      assert Step(ws[i - 1], es[i - 1], ws[i]) && Step(ws'[i - 1], es[i - 1], ws'[i]);
    }
  }

  lemma NoCallsAreHarmless(ws: seq<Writer>)
    requires |ws| == 1
    ensures AllHarmless(ws, [])
  {
  }

  lemma AllHarmlessMore(ws: seq<Writer>, es: seq<Event>)
    requires |ws| == |es| + 1 && es != []
    ensures var n := |es| - 1;
            AllHarmless(ws, es) <==> AllHarmless(ws[..n + 1], es[..n]) && Harmless(ws[n], es[n])
  {
    hide Harmless;
    var n := |es| - 1;
    assert forall i :: 0 <= i < n ==> ws[..n + 1][i] == ws[i] && es[..n][i] == es[i];
    if AllHarmless(ws[..n + 1], es[..n]) && Harmless(ws[n], es[n]) {
      forall i | 0 <= i < |es|
        ensures Harmless(ws[i], es[i])
      {
        assert i < n ==> Harmless(ws[..n + 1][i], es[..n][i]);
      }
    }
    if AllHarmless(ws, es) {
      forall i | 0 <= i < n
        ensures Harmless(ws[..n + 1][i], es[..n][i])
      {
        assert Harmless(ws[i], es[i]);
      }
    }
  }

  lemma {:induction false} WorstRun(ws: seq<Writer>, es: seq<Event>) returns (vs: seq<Writer>)
    requires Run(ws, es) && WellFormed(ws[0])
    ensures Run(vs, es) && vs[0] == ws[0] && SameArea(vs[|es|], ws[|es|])
    ensures SentByFailedCalls(vs, es) >= 0
    ensures !AllHarmless(ws, es) ==> SentByFailedCalls(vs, es) > 0
    decreases |es|
  {
    hide Step, Worst, Wasted, Harmless, WellFormed, AllHarmless, Accepted;
    if es == [] {
      vs := ws;
      NoCallsAreHarmless(ws);
    } else {
      var n := |es| - 1;
      AllHarmlessMore(ws, es);
      var before := WorstRun(ws[..n + 1], es[..n]);
      var _ := RunConserves(ws[..n + 1], es[..n]);
      assert Step(ws[n], es[n], ws[n + 1]);
      WorstIsStep(before[n], ws[n], es[n], ws[n + 1]);
      vs := before + [Worst(before[n], es[n], ws[n + 1])];
      assert vs[..n + 1] == before;
    }
  }

  // For given calls with given results: every way the socket can produce them keeps the queue if
  // and only if no flush failed with two or more characters pending.
  lemma AlwaysQueueIffHarmless(ws: seq<Writer>, es: seq<Event>)
    requires Run(ws, es) && WellFormed(ws[0])
    ensures (forall vs :: Run(vs, es) && vs[0] == ws[0] ==> IsQueue(vs, es)) <==> AllHarmless(ws, es)
  {
    hide Step, Accepted, SentByFailedCalls, IsQueue;
    if AllHarmless(ws, es) {
      forall vs | Run(vs, es) && vs[0] == ws[0]
        ensures IsQueue(vs, es)
      {
        forall i | 0 <= i < |es|
          ensures Harmless(vs[i], es[i])
        {
          EventsFixAreas(ws, vs, es, i);
        }
        ExactQueue(vs, es);
      }
    } else {
      var vs := WorstRun(ws, es);
      QueueIffNothingResent(vs, es);
    }
  }

  // Equality is not promised in general: a flush that sent one of two characters and failed is
  // repeated from the start, so "ab" reaches the wire as "aab".
  lemma FailedFlushResendsPrefix()
    ensures exists ws: seq<Writer>, es: seq<Event> ::
      && Run(ws, es) && ws[0] == FRESH_WRITER
      && Accepted(es) == "ab" && ws[|es|].sent == "aab" && ws[|es|].pending == ""
  {
    var w0 := FRESH_WRITER;
    var w1 := w0.(pending := "a", room := 511);
    var w2 := w0.(pending := "ab", room := 510);
    var w3 := w2.(sent := "a");
    var w4 := FRESH_WRITER.(sent := "aab");
    var ws := [w0, w1, w2, w3, w4];
    var es := [Event(Sputc('a'), true), Event(Sputc('b'), true), Event(Sync, false), Event(Sync, true)];
    assert w0.pending + ['a'] == w1.pending && w1.pending + ['b'] == w2.pending;
    assert OverflowStep(w2, Eof, w3, false);
    assert OverflowStep(w3, Eof, w4, true);
    assert Step(w2, es[2], w3) && Step(w3, es[3], w4);
    assert es[..3][..2][..1] == [es[0]] && es[..3][..2] == es[..2];
    calc {
      Accepted(es);
      Accepted(es[..3]) + [];
      { assert es[..3][..2] == es[..2] && es[..3][2] == es[2]; }
      Accepted(es[..2]);
      { assert es[..2][..1] == es[..1] && es[..2][1] == es[1]; }
      Accepted(es[..1]) + ['b'];
      { assert es[..1][..0] == [] && es[..1][0] == es[0]; }
      "ab";
    }
    assert Run(ws, es);
  }

  // close: flush, close the socket, and reset the put area if closing it reported no error.
  // Whether the flush succeeded does not reach the caller.
  predicate CloseStep(w: Writer, flushed: bool, closed: bool, w': Writer) {
    && SendOutcome(w.pending, w.sent, w'.sent, flushed)
    && w'.buffered == w.buffered
    && (if w.buffered && (flushed || closed) then w'.pending == [] && w'.room == BUFFER_SIZE
        else w'.pending == w.pending && w'.room == w.room)
  }

  // Whatever happens, close keeps the stream well formed and sends no more than the put area; unless
  // it reports success after a failed flush, everything is still on the wire or in the put area.
  lemma CloseStepKeeps(w: Writer, flushed: bool, closed: bool, w': Writer)
    requires WellFormed(w) && CloseStep(w, flushed, closed, w')
    ensures WellFormed(w') && w.sent <= w'.sent <= w.sent + w.pending
    ensures flushed || !closed ==> Subseq(w.sent + w.pending, w'.sent + w'.pending)
  {
    SubseqRefl(w.sent);
    var news := w'.sent[|w.sent|..];
    SubseqAppendBoth(w.sent, w.sent, w.pending);
    assert w'.sent == w.sent + news;
    assert w.pending == news + w.pending[|news|..];
    assert w.sent + w.pending == w'.sent + w.pending[|news|..];
    if !flushed && !closed {
      SubseqGrowRight(w.sent, w.sent, news);
      SubseqAppendBoth(w.sent, w'.sent, w.pending);
    }
  }

  // Some characters are neither on the wire nor in the put area any more.
  predicate Lost(w: Writer, w': Writer) {
    w'.sent + w'.pending < w.sent + w.pending
  }

  // A close that reports success can lose characters if and only if some are pending, and losing
  // the end of them is the only way in which it fails to keep wire + put area.
  lemma SuccessfulCloseCanLose(w: Writer)
    requires WellFormed(w)
    ensures (exists flushed, w' :: CloseStep(w, flushed, true, w') && Lost(w, w')) <==> w.pending != []
    ensures forall flushed, w' :: CloseStep(w, flushed, true, w') ==>
              w'.sent + w'.pending == w.sent + w.pending || Lost(w, w')
  {
    if w.pending != [] {
      var w' := w.(pending := [], room := BUFFER_SIZE);
      assert w'.sent[|w.sent|..] == [];
      assert CloseStep(w, false, true, w') && w'.sent + w'.pending == w.sent;
    }
    forall flushed, w' | CloseStep(w, flushed, true, w')
      ensures w'.sent + w'.pending == w.sent + w.pending || Lost(w, w')
      ensures w.pending == [] ==> !Lost(w, w')
    {
      CloseStepKeeps(w, flushed, true, w');
      assert w'.sent + w'.pending == w'.sent;
    }
  }

  // Seeing sync succeed before closing is enough: then close loses nothing, whatever it reports.
  lemma SyncBeforeCloseLosesNothing(w: Writer, w1: Writer, flushed: bool, closed: bool, w2: Writer)
    requires WellFormed(w) && Step(w, Event(Sync, true), w1) && CloseStep(w1, flushed, closed, w2)
    ensures w2.sent + w2.pending == w.sent + w.pending
  {
    SubseqRefl(w.sent);
    var _ := FlushStep(w.sent, w, Eof, w1, true);
    assert w1.pending == [] && w1.sent == w.sent + w.pending;
    assert w2.sent == w1.sent && w2.pending == [];
  }

  // Move assignment first closes the stream it overwrites and then drops its put area, whether the
  // flush succeeded or not: characters can be lost if and only if some are pending.
  lemma MoveAssignmentCanLose(w: Writer)
    requires WellFormed(w)
    ensures (exists flushed, wire :: SendOutcome(w.pending, w.sent, wire, flushed) && wire < w.sent + w.pending) <==>
            w.pending != []
    ensures forall flushed, wire :: SendOutcome(w.pending, w.sent, wire, flushed) ==> wire <= w.sent + w.pending
  {
    assert w.sent[|w.sent|..] == [];
    if w.pending != [] {
      assert SendOutcome(w.pending, w.sent, w.sent, false) && w.sent < w.sent + w.pending;
    }
    forall flushed, wire | SendOutcome(w.pending, w.sent, wire, flushed)
      ensures wire <= w.sent + w.pending && (w.pending == [] ==> wire == w.sent)
    {
      assert wire == w.sent + wire[|w.sent|..];
    }
  }

  // Moving from a stream keeps its buffers but restarts the put area at pptr, which forgets
  // whatever was between pbase and pptr.
  function MovedFrom(w: Writer): Writer {
    w.(pending := [])
  }

  // A move keeps wire + put area exactly when the put area was empty.
  lemma MoveKeepsQueueIffEmpty(w: Writer)
    requires WellFormed(w)
    ensures WellFormed(MovedFrom(w))
    ensures MovedFrom(w).sent + MovedFrom(w).pending == w.sent + w.pending <==> w.pending == []
  {
  }
}
