/** The receiver's loop and its tasks, updating the window and the output variables in
    place; each is proved against its step of the transition system. */
module ReceiverLoops {
  import opened Wrappers
  import opened ParamDeriv
  import opened SymbolStore
  import opened Segments
  import opened SegStates
  import opened SegStateSets
  import opened Receiver
  import opened FileHistory
  import opened ReceiverInvariant

  class ReceiverLoop {
    const window: SegStateSet
    var outFd: int
    var started: bool
    var writeOk: bool
    var recvFileNbr: int
    var readyFd: int

    // history
    ghost var files: map<int, FileLog>
    ghost var openLog: seq<int>

    ghost function Abs(): State
      reads this, window
    {
      State(window.minFileNbr, window.segs, started, writeOk, outFd, recvFileNbr, readyFd, files, openLog)
    }

    ghost function Repr(): set<object>
      reads this, window
    {
      {this} + window.Repr()
    }

    ghost predicate Valid()
      reads this, window, window.states, window.Repr()
    {
      window.Valid() && this !in window.Repr()
    }

    constructor (readyFd: int)
      ensures Valid() && fresh(Repr())
      ensures Abs() == Init(readyFd)
    {
      hide SegState.Valid, Segment.Valid, SegStateSet.Valid;
      window := new SegStateSet(0);
      outFd := -1;
      started := false;
      writeOk := false;
      recvFileNbr := -1;
      this.readyFd := readyFd;
      files := map[];
      openLog := [];
    }

    /** Open the head's output if the head is ready; open is what open() returns. */
    method TaskStartWrite(open: int, dec: Decoder)
      requires Valid() && outFd == -1
      modifies Repr()
      ensures Valid() && fresh(Repr() - old(Repr()))
      ensures Abs() == StartWrite(old(Abs()), open, dec)
    {
      hide SegState.Valid, Segment.Valid, SegStateSet.Valid;
      ghost var file := Abs().FileOf(window.minFileNbr);
      var fileNbr := window.minFileNbr;
      var (status, s) := window.Get(fileNbr);
      if status.Uninitialized? || s.mode != ReadyToWrite {
        return;
      }
      if open < 0 {
        return;
      }
      window.SegValid(fileNbr);
      if status.Ok? {
        HeadNotOpen(window.segs[fileNbr]);
        window.PrepareHead(open, dec);
        files := files[fileNbr := file.(dec := Some(dec))];
        openLog := openLog + [fileNbr];
        outFd := open;
      } else {
        // no packets at all: the first test has already excluded it
        assert false;
      }
    }

    /** Continue writing the head; n is what write() returns. */
    method TaskWrite(n: int, open: int, dec: Decoder)
      requires Valid() && outFd != -1
      requires CanWrite(Abs(), n)
      modifies Repr()
      ensures Valid() && fresh(Repr() - old(Repr()))
      ensures Abs() == Receiver.TaskWrite(old(Abs()), n, open, dec)
    {
      hide SegState.Valid, Segment.Valid, SegStateSet.Valid, StartWrite, Segment.WriteMore, Segment.Written;
      ghost var file, min, segs := Abs().FileOf(window.minFileNbr), window.minFileNbr, window.segs;
      var more, written := window.WriteHead(n, dec);
      files := files[min := file.(out := file.out + written, failed := file.failed || n < 0)];
      if !more {
        assert window.segs - {min} == segs - {min};
        FinishFile(open, dec);
      }
    }

    /** The head is finished: close it and see whether the next one is ready. */
    method FinishFile(open: int, dec: Decoder)
      requires Valid() && window.minFileNbr in window.segs
      modifies Repr()
      ensures Valid() && fresh(Repr() - old(Repr()))
      ensures Abs() == var s := old(Abs());
                       StartWrite(s.(min := s.min + 1, segs := s.segs - {s.min}, outFd := -1), open, dec)
    {
      hide SegState.Valid, Segment.Valid, SegStateSet.Valid, StartWrite;
      window.DropHead();
      outFd := -1;
      TaskStartWrite(open, dec);
    }

    /** Set up the segment of a file's first packet; false if its size is refused. */
    method BeginSegment(f: int, tos: UInt32) returns (ok: bool)
      requires Valid() && window.Get(f).0.Uninitialized?
      modifies Repr()
      ensures Valid() && fresh(Repr() - old(Repr()))
      ensures ok <==> DeriveParams(Int32Nat(tos)).Some?
      ensures ok ==> Abs() == Begin(old(Abs()), f, tos, DeriveParams(Int32Nat(tos)).value)
    {
      hide SegState.Valid, Segment.Valid, SegStateSet.Valid, NewSegment, DeriveParams;
      ok := window.SetUp(f, tos);
      if ok {
        started := true;
        files := files[f := FileLog(tos, [], None, [], false)];
      }
    }

    /** A file beyond all earlier ones: mark those ready and start writing if possible. */
    method AdvanceTo(f: int, open: int, dec: Decoder)
      requires Valid()
      modifies Repr()
      ensures Valid() && fresh(Repr() - old(Repr()))
      ensures Abs() == Advance(old(Abs()), f, open, dec)
    {
      hide SegState.Valid, Segment.Valid, SegStateSet.Valid;
      if f > recvFileNbr {
        recvFileNbr := f;
        window.MarkReadyToWrite(f);
        if writeOk && outFd == -1 {
          TaskStartWrite(open, dec);
        }
      }
    }

    /** Add the packet to its segment; true if an assertion of the source fails. */
    method DeliverPacket(pkt: Packet) returns (aborted: bool)
      requires Valid() && pkt.header.toi in window.segs
      requires Inv(Abs())
      modifies Repr()
      ensures Valid() && fresh(Repr() - old(Repr()))
      ensures aborted <==> Deliver(old(Abs()), pkt).Aborted?
      ensures !aborted ==> Running(Abs()) == Deliver(old(Abs()), pkt)
    {
      hide SegState.Valid, Segment.Valid, SegStateSet.Valid;
      var f := pkt.header.toi;
      var (_, s) := window.Get(f);
      OneBlockShape(Abs(), f);
      if !(pkt.header.tos == s.fileLen && s.P.nCb == 1 && s.mode == Receiving && |pkt.payload| <= s.P.T) {
        return true;
      }
      HashInRange(pkt.header);
      ghost var file := files[f];
      window.AddPacket(f, pkt);
      files := files[f := file.(pkts := file.pkts + [pkt])];
      return false;
    }

    /** A datagram arrived. */
    method RecvTask(pkt: Packet, open: int, dec: Decoder) returns (aborted: bool)
      requires Valid() && Inv(Abs())
      modifies Repr()
      ensures Valid() && fresh(Repr() - old(Repr()))
      ensures aborted <==> TaskRecv(old(Abs()), pkt, open, dec).Aborted?
      ensures !aborted ==> Running(Abs()) == TaskRecv(old(Abs()), pkt, open, dec)
    {
      hide SegState.Valid, Segment.Valid, SegStateSet.Valid, DeriveParams, Begin, Advance, Deliver, Inv;
      var f := pkt.header.toi;
      var (status, _) := window.Get(f);
      match status {
        case BelowMin => return false;
        case AboveMax => return false;
        case Ok => aborted := DeliverPacket(pkt);
        case Uninitialized =>
          ghost var s0 := Abs();
          var ok := BeginSegment(f, pkt.header.tos);
          if !ok {
            return true;
          }
          AdvanceTo(f, open, dec);
          NewSegmentReached(s0, pkt, open, dec);
          aborted := DeliverPacket(pkt);
      }
    }

    /** One iteration of the loop; true if the program aborts. */
    method Iterate(e: Event) returns (aborted: bool)
      requires Valid() && Inv(Abs()) && Enabled(Abs(), e)
      modifies Repr()
      ensures Valid() && fresh(Repr() - old(Repr()))
      ensures aborted <==> Step(old(Abs()), e).Aborted?
      ensures !aborted ==> Running(Abs()) == Step(old(Abs()), e)
    {
      hide SegState.Valid, Segment.Valid, SegStateSet.Valid, Inv, TaskRecv, Receiver.TaskWrite, StartWrite;
      aborted := false;
      match e {
        case Recv(pkt, open, dec) => aborted := RecvTask(pkt, open, dec);
        case Timeout(open, dec) =>
          writeOk := true;
          TaskStartWrite(open, dec);
        case Writable(n, open, dec) => TaskWrite(n, open, dec);
        case SignalReady => readyFd := -1;
      }
    }

    /** The loop, over what select() and the calls it leads to report: it stops when all
        files are written or the program aborts. */
    method ReceiveWrite(nSegments: int, events: seq<Event>) returns (aborted: bool, handled: nat)
      requires Valid() && Abs() == Init(readyFd)
      requires Reported(nSegments, Abs(), events)
      modifies Repr()
      ensures Valid() && handled <= |events|
      ensures aborted <==> Exec(nSegments, old(Abs()), events[..handled]).Aborted?
      ensures !aborted ==>
                && Exec(nSegments, old(Abs()), events[..handled]) == Running(Abs()) && Inv(Abs())
                && (handled == |events| || window.minFileNbr == nSegments)
    {
      hide SegState.Valid, Segment.Valid, SegStateSet.Valid, Inv, Step;
      ghost var s0 := Abs();
      InitInv(readyFd);
      assert events[..0] == [];
      handled := 0;
      while handled < |events| && window.minFileNbr != nSegments
        invariant 0 <= handled <= |events|
        invariant Valid() && fresh(Repr() - old(Repr())) && Inv(Abs())
        invariant Exec(nSegments, s0, events[..handled]) == Running(Abs())
      {
        assert events[..handled + 1][..handled] == events[..handled];
        StepInv(Abs(), events[handled]);
        aborted := Iterate(events[handled]);
        handled := handled + 1;
        if aborted {
          return;
        }
      }
      aborted := false;
    }
  }

  /** Every event is one that can be reported in the state it finds. */
  ghost predicate Reported(nSegments: int, s: State, es: seq<Event>) {
    forall i :: 0 <= i < |es| ==>
      var r := Exec(nSegments, s, es[..i]);
      r.Running? && r.s.min != nSegments ==> Enabled(r.s, es[i])
  }

  lemma HeadNotOpen(seg: Segment)
    requires seg.Valid() && seg.mode == ReadyToWrite
    ensures seg.outFd == -1
  {
  }

  lemma OneBlockShape(s: State, f: int)
    requires FilesInv(s) && f in s.segs
    ensures var seg := s.segs[f];
            && f in s.files && seg.fileNbr == f
            && 1 <= seg.fileLen <= MAX_FILE_SIZE
            && DeriveParams(Int32(seg.fileLen)) == Some(seg.P)
            && |seg.stores| == 1 && seg.stores[0].T == seg.P.T > 0
  {
    assert SegInv(s.segs[f], s.files[f], f);
    AcceptedParams(s.files[f].tos);
    StoreOfValid(s.files[f], f);
  }

  /** After a file has begun, its packet finds its segment, and the invariant holds. */
  lemma NewSegmentReached(s: State, pkt: Packet, open: int, dec: Decoder)
    requires Inv(s)
    requires var f := pkt.header.toi; f !in s.segs && s.min <= f < s.min + SEGSTATE_SET_N
    requires DeriveParams(Int32Nat(pkt.header.tos)).Some?
    ensures var f := pkt.header.toi;
            var a := Advance(Begin(s, f, pkt.header.tos, DeriveParams(Int32Nat(pkt.header.tos)).value), f, open, dec);
            Inv(a) && f in a.segs
  {
    var f := pkt.header.toi;
    AcceptedSizes(pkt.header.tos);
    BeginAdvanceInv(s, f, pkt.header.tos, open, dec);
    AdvanceKeepsFiles(Begin(s, f, pkt.header.tos, ParamsOf(pkt.header.tos)), f, open, dec);
  }

  lemma AdvanceKeepsFiles(s: State, f: int, open: int, dec: Decoder)
    ensures Advance(s, f, open, dec).segs.Keys == s.segs.Keys
  {
    assert MarkReady(s.segs, f).Keys == s.segs.Keys;
  }
}
