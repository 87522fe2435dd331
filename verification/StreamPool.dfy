// Any number of streams that are created, moved and assigned to each other: no two of them ever
// share a socket or a buffer.
module StreamPool {
  import opened Kernel
  import opened WriterSpec
  import opened EndToEnd
  import opened Streambuf

  ghost predicate Apart(s: SocketStreambuf, t: SocketStreambuf)
    reads s, t
  {
    s.Repr() !! t.Repr()
  }

  class StreamPool {
    var streams: seq<SocketStreambuf>

    ghost predicate Valid()
      reads this, streams
    {
      && (forall i :: 0 <= i < |streams| ==> streams[i].Valid())
      && (forall i, j :: 0 <= i < j < |streams| ==> Apart(streams[i], streams[j]))
    }

    constructor ()
      ensures Valid() && streams == []
    {
      streams := [];
    }

    // A stream on a socket of its own.
    method Open()
      requires Valid()
      modifies this
      ensures Valid() && |streams| == |old(streams)| + 1 && streams[..|old(streams)|] == old(streams)
      ensures fresh(streams[|old(streams)|].Repr())
    {
      hide SocketStreambuf.Out, SocketStreambuf.In;
      var sock := new Socket();
      var s := new SocketStreambuf(sock);
      streams := streams + [s];
    }

    method MoveConstruct(i: nat)
      requires Valid() && i < |streams|
      modifies this, streams[i]
      ensures Valid() && |streams| == |old(streams)| + 1 && streams[..|old(streams)|] == old(streams)
      ensures streams[|old(streams)|].Out() == MovedFrom(old(streams[i].Out()))
      ensures streams[|old(streams)|].In() == old(streams[i].In())
      ensures streams[i].Out() == FRESH_WRITER && streams[i].In() == Reader([], [])
      ensures forall k :: 0 <= k < |old(streams)| && k != i ==>
                streams[k].Out() == old(streams[k].Out()) && streams[k].In() == old(streams[k].In())
    {
      hide SocketStreambuf.Out, SocketStreambuf.In;
      var s := new SocketStreambuf.MoveFrom(streams[i]);
      streams := streams + [s];
    }

    method MoveAssign(i: nat, j: nat)
      requires Valid() && i < |streams| && j < |streams| && i != j
      modifies streams[i], streams[j], streams[i].sock, streams[i].putBuffer
      ensures Valid()
      ensures streams[i].Out() == MovedFrom(old(streams[j].Out())) && streams[i].In() == old(streams[j].In())
      ensures streams[j].Out() == FRESH_WRITER && streams[j].In() == Reader([], [])
      ensures forall k :: 0 <= k < |streams| && k != i && k != j ==>
                streams[k].Out() == old(streams[k].Out()) && streams[k].In() == old(streams[k].In())
    {
      hide SocketStreambuf.Out, SocketStreambuf.In;
      ghost var flushed := streams[i].MoveAssign(streams[j]);
    }
  }
}
