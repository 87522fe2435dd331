// Targets that hold wrappers of their own. Destroying a wrapper releases its target, which destroys
// the wrappers captured in it, and so on.
module Captures {
  import opened Sets
  import opened HandlerSpec

  // Who owns a target: a wrapper that is not inside any target, or one captured in a target. By linear
  // ownership there is exactly one owner.
  datatype Owner = Outside(w: Name) | Captured(host: TargetId)

  type Ownership = map<TargetId, Owner>

  // The targets whose wrappers are captured in t.
  function Inside(h: Ownership, t: TargetId): set<TargetId> {
    set u | u in h && h[u] == Captured(t)
  }

  // Release the targets in `work` and everything in them.
  ghost function Cascade(h: Ownership, work: set<TargetId>): Ownership
    decreases |h|, |work|
  {
    if work == {} then h
    else
      var t := OneOf(work);
      if t !in h then Cascade(h, work - {t})
      else
        assert |h - {t}| < |h| by { Smaller(h, t); }
        Cascade(h - {t}, work - {t} + Inside(h, t))
  }

  lemma Smaller(h: Ownership, t: TargetId)
    requires t in h
    ensures |h - {t}| < |h|
  {
    assert (h - {t}).Keys == h.Keys - {t};
    assert |h.Keys| == |h| && |(h - {t}).Keys| == |h - {t}|;
  }

  // The targets of the wrappers that are not inside any target.
  function Held(h: Ownership): set<TargetId> {
    set t | t in h && h[t].Outside?
  }

  // What is left when every such wrapper has been destroyed.
  ghost function Leaked(h: Ownership): Ownership {
    Cascade(h, Held(h))
  }

  // Each target of a cycle is captured in the next, and the last one in the first.
  predicate IsCycle(h: Ownership, c: seq<TargetId>) {
    c != [] && forall i :: 0 <= i < |c| ==> c[i] in h && h[c[i]] == Captured(Next(c, i))
  }

  function Next(c: seq<TargetId>, i: nat): TargetId
    requires i < |c|
  {
    if i + 1 < |c| then c[i + 1] else c[0]
  }

  ghost predicate Acyclic(h: Ownership) {
    forall c :: !IsCycle(h, c)
  }

  // ---- A cascade takes everything that hangs on what is released, and nothing else. ----

  // The owner of every target in `doomed` or left over is there itself.
  ghost predicate OwnersStay(h: Ownership, doomed: set<TargetId>) {
    forall t :: t in h && t !in doomed ==> h[t].Captured? && h[t].host in h
  }

  lemma {:induction false} CascadeLeavesOwned(h: Ownership, work: set<TargetId>)
    requires OwnersStay(h, work)
    ensures Cascade(h, work).Keys <= h.Keys && OwnersStay(Cascade(h, work), {})
    ensures forall t :: t in Cascade(h, work) ==> Cascade(h, work)[t] == h[t]
    decreases |h|, |work|
  {
    if work != {} {
      var t := OneOf(work);
      if t !in h {
        CascadeLeavesOwned(h, work - {t});
      } else {
        Smaller(h, t);
        CascadeLeavesOwned(h - {t}, work - {t} + Inside(h, t));
      }
    }
  }

  // Targets that own each other are out of reach.
  lemma {:induction false} CascadeSparesClosed(h: Ownership, work: set<TargetId>, closed: set<TargetId>)
    requires closed <= h.Keys && closed !! work
    requires forall t :: t in closed ==> h[t].Captured? && h[t].host in closed
    ensures closed <= Cascade(h, work).Keys
    decreases |h|, |work|
  {
    if work != {} {
      var t := OneOf(work);
      if t !in h {
        CascadeSparesClosed(h, work - {t}, closed);
      } else {
        Smaller(h, t);
        CascadeSparesClosed(h - {t}, work - {t} + Inside(h, t), closed);
      }
    }
  }

  // ---- Walking from owner to owner. ----

  ghost predicate OwnedWithin(h: Ownership) {
    forall t :: t in h ==> h[t].Captured? && h[t].host in h
  }

  // The first n targets on the way from t to its owner, its owner's owner, and so on.
  ghost function Walk(h: Ownership, t: TargetId, n: nat): (ts: seq<TargetId>)
    requires OwnedWithin(h) && t in h
    ensures |ts| == n && forall i :: 0 <= i < n ==> ts[i] in h
    ensures n > 0 ==> ts[0] == t
    ensures forall i :: 0 <= i < n - 1 ==> h[ts[i]] == Captured(ts[i + 1])
    decreases n
  {
    if n == 0 then [] else [t] + Walk(h, h[t].host, n - 1)
  }

  // More places than values: some value comes twice.
  lemma {:induction false} Pigeonhole(ts: seq<TargetId>, values: set<TargetId>) returns (i: nat, j: nat)
    requires |ts| > |values| && forall k :: 0 <= k < |ts| ==> ts[k] in values
    ensures i < j < |ts| && ts[i] == ts[j]
    decreases |ts|
  {
    var n := |ts| - 1;
    if k :| 0 <= k < n && ts[k] == ts[n] {
      i, j := k, n;
    } else {
      i, j := Pigeonhole(ts[..n], values - {ts[n]});
    }
  }

  lemma OwnedWithinHasCycle(h: Ownership) returns (c: seq<TargetId>)
    requires OwnedWithin(h) && h != map[]
    ensures IsCycle(h, c)
  {
    hide IsCycle, Walk;
    var t := OneOf(h.Keys);
    var ts := Walk(h, t, |h.Keys| + 1);
    var i, j := Pigeonhole(ts, h.Keys);
    c := ts[i..j];
    CutIsCycle(h, ts, i, j);
  }

  // Between two visits to the same target a walk goes round.
  lemma CutIsCycle(h: Ownership, ts: seq<TargetId>, i: nat, j: nat)
    requires i < j < |ts| && ts[i] == ts[j]
    requires forall k :: 0 <= k < |ts| ==> ts[k] in h
    requires forall k :: 0 <= k < |ts| - 1 ==> h[ts[k]] == Captured(ts[k + 1])
    ensures IsCycle(h, ts[i..j])
  {
    var c := ts[i..j];
    forall k | 0 <= k < |c|
      ensures c[k] in h && h[c[k]] == Captured(Next(c, k))
    {
      assert c[k] == ts[i + k] && h[ts[i + k]] == Captured(ts[i + k + 1]);
    }
  }

  // Every captured wrapper sits in a target that exists.
  ghost predicate Closed(h: Ownership) {
    forall t :: t in h && h[t].Captured? ==> h[t].host in h
  }

  // Once every wrapper outside has been destroyed no target is left, if and only if no targets capture
  // each other's wrappers in a circle.
  lemma NothingLeaksIffAcyclic(h: Ownership)
    requires Closed(h)
    ensures Leaked(h) == map[] <==> Acyclic(h)
  {
    CascadeLeavesOwned(h, Held(h));
    var left := Leaked(h);
    if left != map[] {
      var c := OwnedWithinHasCycle(left);
      assert IsCycle(h, c);
    }
    if c :| IsCycle(h, c) {
      var closed := set i | 0 <= i < |c| :: c[i];
      assert c[0] in closed;
      forall t | t in closed
        ensures t in h && h[t].Captured? && h[t].host in closed
      {
        var i :| 0 <= i < |c| && c[i] == t;
        var next := if i + 1 < |c| then i + 1 else 0;
        assert Next(c, i) == c[next] && c[next] in closed;
      }
      CascadeSparesClosed(h, Held(h), closed);
      assert c[0] in left;
    }
  }
}
