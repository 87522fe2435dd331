// A stream over its whole life, moves included: what is lost is exactly what was pending at each move.
module Moves {
  import opened Subsequence
  import opened WriterSpec

  // A call, or the stream moving on to another object.
  datatype Life = Call(e: Event) | Moved

  predicate LifeStep(w: Writer, l: Life, w': Writer) {
    match l
    case Call(e) => Step(w, e, w')
    case Moved => w' == MovedFrom(w)
  }

  predicate LifeRun(ws: seq<Writer>, ls: seq<Life>) {
    && |ws| == |ls| + 1
    && forall i :: 0 <= i < |ls| ==> LifeStep(ws[i], ls[i], ws[i + 1])
  }

  ghost function TakenBy(l: Life): seq<char> {
    if l.Call? then Taken(l.e) else []
  }

  ghost function WastedBy(w: Writer, l: Life, w': Writer): int {
    if l.Call? then Wasted(w, l.e, w') else 0
  }

  ghost function DroppedBy(w: Writer, l: Life): seq<char> {
    if l.Moved? then w.pending else []
  }

  // Everything the stream was made responsible for.
  ghost function AllTaken(w: Writer, ls: seq<Life>): seq<char> {
    if ls == [] then w.sent + w.pending else AllTaken(w, ls[..|ls| - 1]) + TakenBy(ls[|ls| - 1])
  }

  // The same without what was pending at each move, which is always the end of it.
  ghost function Remaining(ws: seq<Writer>, ls: seq<Life>): seq<char>
    requires |ws| == |ls| + 1
    decreases |ls|
  {
    if ls == [] then ws[0].sent + ws[0].pending
    else
      var n := |ls| - 1;
      var before := Remaining(ws[..n + 1], ls[..n]);
      if ls[n].Moved? && |ws[n].pending| <= |before| then before[..|before| - |ws[n].pending|]
      else before + TakenBy(ls[n])
  }

  ghost function Dropped(ws: seq<Writer>, ls: seq<Life>): seq<char>
    requires |ws| == |ls| + 1
    decreases |ls|
  {
    if ls == [] then []
    else
      var n := |ls| - 1;
      Dropped(ws[..n + 1], ls[..n]) + DroppedBy(ws[n], ls[n])
  }

  ghost function WastedInAll(ws: seq<Writer>, ls: seq<Life>): int
    requires |ws| == |ls| + 1
    decreases |ls|
  {
    if ls == [] then 0
    else
      var n := |ls| - 1;
      WastedInAll(ws[..n + 1], ls[..n]) + WastedBy(ws[n], ls[n], ws[n + 1])
  }

  lemma {:induction false} SubseqOfPrefix<T>(a: seq<T>, b: seq<T>, k: nat)
    requires Subseq(a, b) && k <= |a|
    ensures Subseq(a[..k], b)
    decreases |b|
  {
    if a == [] || k == |a| {
      assert a[..k] == a;
    } else if Subseq(a, b[..|b| - 1]) {
      SubseqOfPrefix(a, b[..|b| - 1], k);
    } else {
      var front := a[..|a| - 1];
      SubseqOfPrefix(front, b[..|b| - 1], k);
      assert front[..k] == a[..k];
    }
  }

  lemma LifeKeeps(flushed: seq<char>, w: Writer, l: Life, w': Writer) returns (flushed': seq<char>)
    requires WellFormed(w) && Subseq(flushed, w.sent) && LifeStep(w, l, w')
    ensures WellFormed(w') && Subseq(flushed', w'.sent)
    ensures flushed' + w'.pending == if l.Moved? then flushed else flushed + w.pending + TakenBy(l)
    ensures |w'.sent| + |w'.pending| ==
            |w.sent| + |w.pending| + |TakenBy(l)| + WastedBy(w, l, w') - |DroppedBy(w, l)|
  {
    hide Step, Subseq;
    if l.Moved? {
      flushed' := flushed;
    } else {
      flushed' := StepConserves(flushed, w, l.e, w');
    }
  }

  lemma {:induction false} LifeConserves(ws: seq<Writer>, ls: seq<Life>) returns (flushed: seq<char>)
    requires LifeRun(ws, ls) && WellFormed(ws[0])
    ensures WellFormed(ws[|ls|]) && Subseq(flushed, ws[|ls|].sent)
    ensures flushed + ws[|ls|].pending == Remaining(ws, ls)
    ensures Subseq(Remaining(ws, ls), AllTaken(ws[0], ls))
    ensures |Remaining(ws, ls)| + |Dropped(ws, ls)| == |AllTaken(ws[0], ls)|
    ensures |ws[|ls|].sent| + |ws[|ls|].pending| == |Remaining(ws, ls)| + WastedInAll(ws, ls)
    decreases |ls|
  {
    hide LifeStep, WellFormed, TakenBy, WastedBy, Subseq;
    if ls == [] {
      flushed := ws[0].sent;
      SubseqRefl(flushed);
      SubseqRefl(flushed + ws[0].pending);
    } else {
      var n := |ls| - 1;
      var before := LifeConserves(ws[..n + 1], ls[..n]);
      flushed := LifeKeeps(before, ws[n], ls[n], ws[n + 1]);
      var kept, all := Remaining(ws[..n + 1], ls[..n]), AllTaken(ws[0], ls[..n]);
      if ls[n].Moved? {
        MoveTakesNothing(ws[n], ls[n], ws[n + 1]);
        assert kept[..|kept| - |ws[n].pending|] == before;
        SubseqOfPrefix(kept, all, |before|);
        assert all + [] == all;
      } else {
        SubseqAppendBoth(kept, all, TakenBy(ls[n]));
      }
    }
  }

  lemma MoveTakesNothing(w: Writer, l: Life, w': Writer)
    requires l.Moved?
    ensures TakenBy(l) == [] && WastedBy(w, l, w') == 0
  {
  }

  // Over every life of a stream, whatever the socket does: nothing is lost except what was pending at
  // each move, and that is lost; what remains is on the wire or in the put area, in order.
  lemma MovesDropExactlyWhatIsPending(ws: seq<Writer>, ls: seq<Life>)
    requires LifeRun(ws, ls) && WellFormed(ws[0])
    ensures Subseq(Remaining(ws, ls), ws[|ls|].sent + ws[|ls|].pending)
    ensures Subseq(Remaining(ws, ls), AllTaken(ws[0], ls))
    ensures |AllTaken(ws[0], ls)| - |Remaining(ws, ls)| == |Dropped(ws, ls)|
    ensures Remaining(ws, ls) == AllTaken(ws[0], ls) <==> EmptyMoves(ws, ls)
  {
    var flushed := LifeConserves(ws, ls);
    SubseqAppendBoth(flushed, ws[|ls|].sent, ws[|ls|].pending);
    SubseqLength(Remaining(ws, ls), AllTaken(ws[0], ls));
    NothingDropped(ws, ls);
  }

  predicate EmptyMove(w: Writer, l: Life) {
    l.Moved? ==> w.pending == []
  }

  // Nothing was pending at any move.
  ghost predicate EmptyMoves(ws: seq<Writer>, ls: seq<Life>)
    requires |ws| == |ls| + 1
  {
    forall i :: 0 <= i < |ls| ==> EmptyMove(ws[i], ls[i])
  }

  lemma {:induction false} NothingDropped(ws: seq<Writer>, ls: seq<Life>)
    requires |ws| == |ls| + 1
    ensures Dropped(ws, ls) == [] <==> EmptyMoves(ws, ls)
    decreases |ls|
  {
    hide EmptyMoves, DroppedBy;
    if ls == [] {
      NoMoves(ws);
    } else {
      var n := |ls| - 1;
      NothingDropped(ws[..n + 1], ls[..n]);
      MoreEmptyMoves(ws, ls);
    }
  }

  lemma NoMoves(ws: seq<Writer>)
    requires |ws| == 1
    ensures EmptyMoves(ws, [])
  {
  }

  lemma MoreEmptyMoves(ws: seq<Writer>, ls: seq<Life>)
    requires |ws| == |ls| + 1 && ls != []
    ensures var n := |ls| - 1;
            EmptyMoves(ws, ls) <==> EmptyMoves(ws[..n + 1], ls[..n]) && DroppedBy(ws[n], ls[n]) == []
  {
    hide EmptyMove, DroppedBy;
    var n := |ls| - 1;
    EmptyMoveDropsNothing(ws[n], ls[n]);
    assert forall i :: 0 <= i < n ==> ls[..n][i] == ls[i] && ws[..n + 1][i] == ws[i];
    if EmptyMoves(ws, ls) {
      assert EmptyMove(ws[n], ls[n]);
      forall i | 0 <= i < n
        ensures EmptyMove(ws[..n + 1][i], ls[..n][i])
      {
        assert EmptyMove(ws[i], ls[i]);
      }
    }
    if EmptyMoves(ws[..n + 1], ls[..n]) && EmptyMove(ws[n], ls[n]) {
      forall i | 0 <= i < |ls|
        ensures EmptyMove(ws[i], ls[i])
      {
        assert i < n ==> EmptyMove(ws[..n + 1][i], ls[..n][i]);
      }
    }
  }

  lemma EmptyMoveDropsNothing(w: Writer, l: Life)
    ensures DroppedBy(w, l) == [] <==> EmptyMove(w, l)
  {
  }
}
