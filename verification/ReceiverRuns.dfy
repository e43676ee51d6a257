/** What whole runs of the receiver's loop guarantee. */
module ReceiverRuns {
  import opened Bytes
  import opened ParamDeriv
  import opened SymbolStore
  import opened Segments
  import opened Receiver
  import opened FileHistory
  import opened ReceiverInvariant

  // ----- the output

  /** What was written to each of the first n files. */
  ghost function Outs(s: State, n: nat): (o: seq<seq<Byte>>)
    ensures |o| == n && forall f :: 0 <= f < n ==> o[f] == s.FileOf(f).out
  {
    seq(n, f => s.FileOf(f).out)
  }

  /** All that was written, file after file. */
  ghost function Output(s: State): seq<Byte> {
    Join(Outs(s, Max0(s.min + 1)))
  }

  /** The contents of the first n files, one after the other. */
  ghost function Contents(s: State, n: nat): seq<Byte> {
    Join(ContentList(s, n))
  }

  ghost function ContentList(s: State, n: nat): (c: seq<seq<Byte>>)
    ensures |c| == n && forall f :: 0 <= f < n ==> c[f] == FinalContent(s.FileOf(f), f)
  {
    seq(n, f => FinalContent(s.FileOf(f), f))
  }

  ghost predicate NoFailedWrite(es: seq<Event>) {
    forall i :: 0 <= i < |es| && es[i].Writable? ==> es[i].n >= 0
  }

  ghost predicate NoneFailed(s: State) {
    forall f :: f in s.files ==> !s.files[f].failed
  }

  lemma StartWriteNoneFailed(s: State, open: int, dec: Decoder)
    requires NoneFailed(s)
    ensures NoneFailed(StartWrite(s, open, dec))
  {
  }

  lemma TaskWriteNoneFailed(s: State, n: nat, open: int, dec: Decoder)
    requires NoneFailed(s) && CanWrite(s, n)
    ensures NoneFailed(TaskWrite(s, n, open, dec))
  {
    var (seg', more) := s.segs[s.min].WriteMore(n, dec);
    var file' := s.FileOf(s.min).(out := s.FileOf(s.min).out + s.segs[s.min].Written(n));
    if !more {
      StartWriteNoneFailed(Leave(s, file'), open, dec);
    }
  }

  lemma TaskRecvNoneFailed(s: State, pkt: Packet, open: int, dec: Decoder)
    requires NoneFailed(s)
    ensures TaskRecv(s, pkt, open, dec).Running? ==> NoneFailed(TaskRecv(s, pkt, open, dec).s)
  {
    var f := pkt.header.toi;
    if f !in s.segs && DeriveParams(Int32Nat(pkt.header.tos)).Some? {
      var b := Begin(s, f, pkt.header.tos, DeriveParams(Int32Nat(pkt.header.tos)).value);
      assert NoneFailed(b);
      StartWriteNoneFailed(b.(recvFileNbr := f, segs := MarkReady(b.segs, f)), open, dec);
    }
  }

  lemma StepNoneFailed(s: State, e: Event)
    requires Enabled(s, e) && NoneFailed(s)
    requires e.Writable? ==> e.n >= 0
    ensures Step(s, e).Running? ==> NoneFailed(Step(s, e).s)
  {
    match e
    case Recv(pkt, open, dec) => TaskRecvNoneFailed(s, pkt, open, dec);
    case Timeout(open, dec) => StartWriteNoneFailed(s.(writeOk := true), open, dec);
    case Writable(n, open, dec) => TaskWriteNoneFailed(s, n, open, dec);
    case SignalReady =>
  }

  lemma {:induction false} ExecNoneFailed(nSegments: int, readyFd: int, es: seq<Event>)
    requires NoFailedWrite(es)
    ensures var r := Exec(nSegments, Init(readyFd), es);
            r.Running? ==> Inv(r.s) && NoneFailed(r.s)
  {
    ExecInv(nSegments, readyFd, es);
    if |es| > 0 {
      var front := es[..|es| - 1];
      ExecNoneFailed(nSegments, readyFd, front);
      ExecInv(nSegments, readyFd, front);
      if Exec(nSegments, Init(readyFd), es).Running? {
        StepNoneFailed(Exec(nSegments, Init(readyFd), front).s, es[|es| - 1]);
      }
    }
  }

  /** In every run in which no write fails, the output so far is the contents of the files
      below the head in full, in order, followed by a prefix of the head's content if the
      head is being written, and nothing else. */
  lemma {:induction false} WholeRunOutput(nSegments: int, readyFd: int, es: seq<Event>)
    requires NoFailedWrite(es)
    ensures var r := Exec(nSegments, Init(readyFd), es);
            r.Running? ==>
              && 0 <= r.s.min
              && Output(r.s) == Contents(r.s, r.s.min) + r.s.FileOf(r.s.min).out
              && (if r.s.outFd != -1
                  then r.s.FileOf(r.s.min).out <= FinalContent(r.s.FileOf(r.s.min), r.s.min)
                  else r.s.FileOf(r.s.min).out == [])
              && (forall f :: f > r.s.min ==> r.s.FileOf(f).out == [])
  {
    var r := Exec(nSegments, Init(readyFd), es);
    if r.Running? {
      var s := r.s;
      ExecNoneFailed(nSegments, readyFd, es);
      ExecNoStrays(nSegments, readyFd, es);
      OutputSplits(s);
      if s.outFd != -1 {
        assert SegInv(s.segs[s.min], s.files[s.min], s.min);
      }
    }
  }

  lemma OutputSplits(s: State)
    requires 0 <= s.min && PastInv(s.min, s.files) && NoneFailed(s)
    ensures Output(s) == Contents(s, s.min) + s.FileOf(s.min).out
  {
    var outs, contents := Outs(s, s.min + 1), ContentList(s, s.min);
    forall f | 0 <= f < s.min
      ensures outs[f] == contents[f]
    {
      assert DoneInv(s.files[f], f);
    }
    assert outs[..s.min] == contents;
  }

  /** Only files that left the window or are in it have a history. */
  ghost predicate NoStrays(s: State) {
    forall f :: f in s.files ==> f < s.min || (f in s.segs && (s.files[f].out == [] || s.segs[f].mode == Writing))
  }

  lemma StartWriteNoStrays(s: State, open: int, dec: Decoder)
    requires NoStrays(s)
    ensures NoStrays(StartWrite(s, open, dec))
  {
  }

  lemma TaskWriteNoStrays(s: State, n: int, open: int, dec: Decoder)
    requires NoStrays(s) && CanWrite(s, n)
    ensures NoStrays(TaskWrite(s, n, open, dec))
  {
    var (seg', more) := s.segs[s.min].WriteMore(n, dec);
    var file' := s.FileOf(s.min).(out := s.FileOf(s.min).out + s.segs[s.min].Written(n), failed := s.FileOf(s.min).failed || n < 0);
    if !more {
      StartWriteNoStrays(Leave(s, file'), open, dec);
    }
  }

  lemma DeliverNoStrays(s: State, pkt: Packet)
    requires NoStrays(s)
    ensures Deliver(s, pkt).Running? ==> NoStrays(Deliver(s, pkt).s)
  {
  }

  lemma AdvanceNoStrays(s: State, f: int, open: int, dec: Decoder)
    requires NoStrays(s)
    ensures NoStrays(Advance(s, f, open, dec))
  {
    hide StartWrite;
    StartWriteNoStrays(s.(recvFileNbr := f, segs := MarkReady(s.segs, f)), open, dec);
  }

  lemma TaskRecvNoStrays(s: State, pkt: Packet, open: int, dec: Decoder)
    requires NoStrays(s)
    ensures TaskRecv(s, pkt, open, dec).Running? ==> NoStrays(TaskRecv(s, pkt, open, dec).s)
  {
    hide Deliver, Advance;
    DeliverNoStrays(s, pkt);
    var f := pkt.header.toi;
    if f !in s.segs && DeriveParams(Int32Nat(pkt.header.tos)).Some? {
      var b := Begin(s, f, pkt.header.tos, DeriveParams(Int32Nat(pkt.header.tos)).value);
      assert NoStrays(b);
      AdvanceNoStrays(b, f, open, dec);
      DeliverNoStrays(Advance(b, f, open, dec), pkt);
    }
  }

  lemma StepNoStrays(s: State, e: Event)
    requires Enabled(s, e) && NoStrays(s)
    ensures Step(s, e).Running? ==> NoStrays(Step(s, e).s)
  {
    match e
    case Recv(pkt, open, dec) => TaskRecvNoStrays(s, pkt, open, dec);
    case Timeout(open, dec) => StartWriteNoStrays(s.(writeOk := true), open, dec);
    case Writable(n, open, dec) => TaskWriteNoStrays(s, n, open, dec);
    case SignalReady =>
  }

  lemma {:induction false} ExecNoStrays(nSegments: int, readyFd: int, es: seq<Event>)
    ensures var r := Exec(nSegments, Init(readyFd), es); r.Running? ==> Inv(r.s) && NoStrays(r.s)
  {
    ExecInv(nSegments, readyFd, es);
    if |es| > 0 {
      var front := es[..|es| - 1];
      ExecNoStrays(nSegments, readyFd, front);
      if Exec(nSegments, Init(readyFd), es).Running? {
        StepNoStrays(Exec(nSegments, Init(readyFd), front).s, es[|es| - 1]);
      }
    }
  }

  // ----- opening

  /** Whatever the order of packets, a file is open exactly while the head segment is being
      written, and files have been opened one after the other, each once. */
  lemma {:induction false} OpenedInOrder(nSegments: int, readyFd: int, es: seq<Event>)
    ensures var r := Exec(nSegments, Init(readyFd), es);
            r.Running? ==>
              && (r.s.outFd != -1 <==> r.s.HeadWriting())
              && (forall f :: f in r.s.segs && r.s.segs[f].mode == Writing ==> f == r.s.min)
              && (r.s.outFd != -1 ==> r.s.writeOk)
              && |r.s.openLog| == r.s.min + (if r.s.outFd != -1 then 1 else 0)
              && (forall i :: 0 <= i < |r.s.openLog| ==> r.s.openLog[i] == i)
  {
    ExecInv(nSegments, readyFd, es);
  }

  /** Even when writes fail, and whatever the order of packets: what was written of any file
      is a prefix of its content, and all of it once the file is behind and none failed. */
  lemma {:induction false} OutputsArePrefixes(nSegments: int, readyFd: int, es: seq<Event>, f: nat)
    ensures var r := Exec(nSegments, Init(readyFd), es);
            r.Running? ==>
              && r.s.FileOf(f).out <= FinalContent(r.s.FileOf(f), f)
              && (f < r.s.min && !r.s.FileOf(f).failed ==> r.s.FileOf(f).out == FinalContent(r.s.FileOf(f), f))
  {
    var r := Exec(nSegments, Init(readyFd), es);
    if r.Running? {
      ExecNoStrays(nSegments, readyFd, es);
      var s := r.s;
      if f < s.min {
        assert DoneInv(s.files[f], f);
      } else if f in s.segs {
        assert SegInv(s.segs[f], s.files[f], f);
      }
    }
  }

  // ----- a file of which nothing arrives

  ghost predicate NothingFor(es: seq<Event>, f: int) {
    forall i :: 0 <= i < |es| && es[i].Recv? ==> es[i].pkt.header.toi != f
  }

  /** s' waits for the same head file as s, and nothing was written in between. */
  ghost predicate StillWaits(s: State, s': State) {
    && s'.min == s.min && s'.min !in s'.segs && s'.outFd == -1
    && forall f :: f <= s.min ==> s'.FileOf(f).out == s.FileOf(f).out
  }

  lemma RecvStalls(s: State, pkt: Packet, open: int, dec: Decoder)
    requires s.min !in s.segs && s.outFd == -1 && pkt.header.toi != s.min
    ensures TaskRecv(s, pkt, open, dec).Running? ==> StillWaits(s, TaskRecv(s, pkt, open, dec).s)
  {
    var f := pkt.header.toi;
    if f !in s.segs && f >= s.min && DeriveParams(Int32Nat(pkt.header.tos)).Some? {
      var b := Begin(s, f, pkt.header.tos, DeriveParams(Int32Nat(pkt.header.tos)).value);
      assert StillWaits(s, b);
      assert StillWaits(s, Advance(b, f, open, dec));
      hide Advance;
      DeliverStalls(Advance(b, f, open, dec), pkt);
    } else {
      DeliverStalls(s, pkt);
    }
  }

  lemma DeliverStalls(s: State, pkt: Packet)
    requires s.min !in s.segs && s.outFd == -1 && pkt.header.toi != s.min
    ensures Deliver(s, pkt).Running? ==> StillWaits(s, Deliver(s, pkt).s)
  {
  }

  lemma StepStalls(s: State, e: Event)
    requires s.min !in s.segs && s.outFd == -1 && Enabled(s, e)
    requires e.Recv? ==> e.pkt.header.toi != s.min
    ensures Step(s, e).Running? ==> StillWaits(s, Step(s, e).s)
  {
    match e
    case Recv(pkt, open, dec) => RecvStalls(s, pkt, open, dec);
    case Timeout(open, dec) =>
    case SignalReady =>
  }

  /** While nothing arrives for the head file, nothing at all is written, whatever arrives
      of later files and however long the receiver waits. */
  lemma {:induction false} LostFileStalls(nSegments: int, s: State, es: seq<Event>)
    requires s.min !in s.segs && s.outFd == -1 && NothingFor(es, s.min)
    ensures var r := Exec(nSegments, s, es);
            r.Running? ==> StillWaits(s, r.s) && Output(r.s) == Output(s)
  {
    if |es| > 0 {
      var front, e := es[..|es| - 1], es[|es| - 1];
      LostFileStalls(nSegments, s, front);
      if Exec(nSegments, s, es).Running? {
        StepStalls(Exec(nSegments, s, front).s, e);
      }
    }
    var r := Exec(nSegments, s, es);
    if r.Running? {
      assert StillWaits(s, r.s) ==> Outs(r.s, Max0(s.min + 1)) == Outs(s, Max0(s.min + 1));
    }
  }

  // ----- the loop does not finish

  ghost predicate KnownFiles(es: seq<Event>, nSegments: int) {
    forall i :: 0 <= i < |es| && es[i].Recv? ==> es[i].pkt.header.toi < nSegments
  }

  /** Only a packet changes the newest file number, and to its own. */
  lemma StepNewest(s: State, e: Event)
    requires Enabled(s, e) && Step(s, e).Running?
    ensures Step(s, e).s.recvFileNbr == s.recvFileNbr
         || (e.Recv? && Step(s, e).s.recvFileNbr == e.pkt.header.toi)
  {
  }

  lemma {:induction false} NewestKnown(nSegments: int, readyFd: int, es: seq<Event>)
    requires KnownFiles(es, nSegments)
    ensures var r := Exec(nSegments, Init(readyFd), es);
            r.Running? ==> Inv(r.s) && (r.s.recvFileNbr < nSegments || r.s.recvFileNbr == -1)
  {
    ExecInv(nSegments, readyFd, es);
    if |es| > 0 {
      var front, e := es[..|es| - 1], es[|es| - 1];
      NewestKnown(nSegments, readyFd, front);
      var r := Exec(nSegments, Init(readyFd), front);
      if r.Running? && r.s.min != nSegments && Enabled(r.s, e) && Step(r.s, e).Running? {
        StepNewest(r.s, e);
      }
    }
  }

  /** The highest file received stays in the window, so with packets of the listed files
      only, the loop ends exactly when there is no file at all. */
  lemma {:induction false} LoopEndsOnlyEmpty(nSegments: nat, readyFd: int, es: seq<Event>)
    requires KnownFiles(es, nSegments)
    ensures var r := Exec(nSegments, Init(readyFd), es);
            r.Running? ==> (r.s.min == nSegments <==> nSegments == 0)
  {
    NewestKnown(nSegments, readyFd, es);
  }

  // ----- packets in order

  /** Every packet's size is that of its file, an acceptable one, and its payload fits. */
  ghost predicate SizeHonest(pkt: Packet, size: int -> UInt32) {
    && pkt.header.tos == size(pkt.header.toi)
    && 1 <= pkt.header.tos <= MAX_FILE_SIZE
    && |pkt.payload| <= PD_T
  }

  ghost predicate AllSizeHonest(es: seq<Event>, size: int -> UInt32) {
    forall i :: 0 <= i < |es| && es[i].Recv? ==> SizeHonest(es[i].pkt, size)
  }

  /** Packets arrive with non-decreasing file numbers. */
  ghost predicate InOrder(es: seq<Event>) {
    forall i, j :: 0 <= i < j < |es| && es[i].Recv? && es[j].Recv? ==>
      es[i].pkt.header.toi <= es[j].pkt.header.toi
  }

  /** Only the newest segment is still receiving, and sizes are as announced. */
  ghost predicate OrderlyInv(s: State, size: int -> UInt32) {
    && (forall f :: f in s.segs && s.segs[f].mode == Receiving ==> f == s.recvFileNbr)
    && (forall f :: f in s.segs ==> s.segs[f].fileLen == size(f))
  }

  /** The segments of the window as a receiver of single-block files has them. */
  ghost predicate Shape(s: State) {
    forall f :: f in s.segs ==>
      && s.min <= f < s.min + SEGSTATE_SET_N && f in s.files
      && s.segs[f].fileNbr == f
      && |s.segs[f].stores| == 1 && s.segs[f].stores[0].T == PD_T
      && s.segs[f].P.T == PD_T && s.segs[f].P.nCb == 1
  }

  lemma InvShape(s: State)
    requires FilesInv(s)
    ensures Shape(s)
  {
    forall f | f in s.segs
      ensures |s.segs[f].stores| == 1 && s.segs[f].stores[0].T == PD_T
      ensures s.segs[f].P.T == PD_T && s.segs[f].P.nCb == 1 && s.segs[f].fileNbr == f
    {
      var file := s.files[f];
      assert SegInv(s.segs[f], file, f);
      AcceptedParams(file.tos);
      StoreOfValid(file, f);
    }
  }

  /** An in-order packet is added to its own segment, or is too far ahead; it is never
      late, and no assertion fails. */
  lemma OrderlyRecv(s: State, pkt: Packet, open: int, dec: Decoder, size: int -> UInt32)
    requires Shape(s) && OrderInv(s) && OrderlyInv(s, size)
    requires SizeHonest(pkt, size) && s.recvFileNbr <= pkt.header.toi
    ensures var f, r := pkt.header.toi, TaskRecv(s, pkt, open, dec);
            && r.Running? && s.min <= f
            && OrderlyInv(r.s, size)
            && (f >= s.min + SEGSTATE_SET_N ==> r.s == s)
            && (f < s.min + SEGSTATE_SET_N ==>
                  && f in r.s.segs && r.s.recvFileNbr == f
                  && r.s.FileOf(f).pkts == (if f in s.segs then s.FileOf(f).pkts else []) + [pkt])
  {
    var f := pkt.header.toi;
    if s.min <= f < s.min + SEGSTATE_SET_N {
      if f in s.segs {
        assert s.segs[f].Accepts(pkt);
      } else {
        AcceptedParams(pkt.header.tos);
        var p := ParamsOf(pkt.header.tos);
        OrderlyAdvance(s, f, pkt.header.tos, p, open, dec, size);
      }
    }
  }

  lemma OrderlyAdvance(s: State, f: int, tos: UInt32, p: CodingParams, open: int, dec: Decoder, size: int -> UInt32)
    requires Shape(s) && OrderInv(s) && OrderlyInv(s, size)
    requires f !in s.segs && s.recvFileNbr <= f && s.min <= f && tos == size(f)
    requires p.nCb == 1 && p.T == PD_T
    ensures var a := Advance(Begin(s, f, tos, p), f, open, dec);
            && OrderlyInv(a, size) && a.recvFileNbr == f
            && f in a.segs && a.segs[f] == NewSegment(f, tos, p)
            && f in a.files && a.files[f].pkts == []
  {
    var b := Begin(s, f, tos, p);
    var s' := b.(recvFileNbr := f, segs := MarkReady(b.segs, f));
    assert OrderlyInv(s', size);
    StartWriteOrderly(s', f, open, dec, size);
  }

  lemma StartWriteOrderly(s: State, f: int, open: int, dec: Decoder, size: int -> UInt32)
    requires OrderlyInv(s, size)
    ensures var s' := StartWrite(s, open, dec);
            && OrderlyInv(s', size)
            && (f in s.segs && s.segs[f].mode == Receiving ==> f in s'.segs && s'.segs[f] == s.segs[f])
            && (f in s.files ==> f in s'.files && s'.files[f].pkts == s.files[f].pkts)
  {
  }

  lemma TaskWriteOrderly(s: State, n: int, open: int, dec: Decoder, size: int -> UInt32)
    requires CanWrite(s, n) && OrderlyInv(s, size)
    ensures OrderlyInv(TaskWrite(s, n, open, dec), size)
  {
    var (seg', more) := s.segs[s.min].WriteMore(n, dec);
    var file' := s.FileOf(s.min).(out := s.FileOf(s.min).out + s.segs[s.min].Written(n), failed := s.FileOf(s.min).failed || n < 0);
    if !more {
      StartWriteOrderly(Leave(s, file'), s.min, open, dec, size);
    }
  }

  lemma OrderlyStep(s: State, e: Event, size: int -> UInt32)
    requires Shape(s) && OrderInv(s) && Enabled(s, e) && OrderlyInv(s, size)
    requires e.Recv? ==> SizeHonest(e.pkt, size) && s.recvFileNbr <= e.pkt.header.toi
    ensures Step(s, e).Running? && OrderlyInv(Step(s, e).s, size)
  {
    match e
    case Recv(pkt, open, dec) => OrderlyRecv(s, pkt, open, dec, size);
    case Timeout(open, dec) => StartWriteOrderly(s.(writeOk := true), s.min, open, dec, size);
    case Writable(n, open, dec) => TaskWriteOrderly(s, n, open, dec, size);
    case SignalReady =>
  }

  /** The newest file so far is one that a packet named. */
  ghost predicate NewestSeen(s: State, es: seq<Event>) {
    s.recvFileNbr == -1 || exists i :: 0 <= i < |es| && es[i].Recv? && es[i].pkt.header.toi == s.recvFileNbr
  }

  /** In-order packets of honest size never abort the receiver, whatever the losses,
      timeouts, write results and open results. */
  lemma {:induction false} InOrderNeverAborts(nSegments: int, readyFd: int, es: seq<Event>, size: int -> UInt32)
    requires InOrder(es) && AllSizeHonest(es, size)
    ensures var r := Exec(nSegments, Init(readyFd), es);
            && !r.Aborted?
            && (r.Running? ==> Inv(r.s) && OrderlyInv(r.s, size) && NewestSeen(r.s, es))
  {
    ExecInv(nSegments, readyFd, es);
    if |es| > 0 {
      var front, e := es[..|es| - 1], es[|es| - 1];
      InOrderNeverAborts(nSegments, readyFd, front, size);
      ExecInv(nSegments, readyFd, front);
      var r := Exec(nSegments, Init(readyFd), front);
      if r.Running? && r.s.min != nSegments && Enabled(r.s, e) {
        if e.Recv? {
          NewestIsOlder(r.s, es);
        }
        InvShape(r.s);
        OrderlyStep(r.s, e, size);
        StepNewest(r.s, e);
        NewestStays(r.s, Step(r.s, e).s, es);
      }
    }
  }

  lemma NewestIsOlder(s: State, es: seq<Event>)
    requires |es| > 0 && InOrder(es) && es[|es| - 1].Recv?
    requires NewestSeen(s, es[..|es| - 1])
    ensures s.recvFileNbr <= es[|es| - 1].pkt.header.toi
  {
    if s.recvFileNbr != -1 {
      var i :| 0 <= i < |es| - 1 && es[i].Recv? && es[i].pkt.header.toi == s.recvFileNbr;
    }
  }

  lemma NewestStays(s: State, s': State, es: seq<Event>)
    requires |es| > 0 && NewestSeen(s, es[..|es| - 1])
    requires s'.recvFileNbr == s.recvFileNbr
      || (es[|es| - 1].Recv? && s'.recvFileNbr == es[|es| - 1].pkt.header.toi)
    ensures NewestSeen(s', es)
  {
    if s'.recvFileNbr == s.recvFileNbr != -1 {
      var i :| 0 <= i < |es| - 1 && es[i].Recv? && es[i].pkt.header.toi == s.recvFileNbr;
      assert es[i].Recv?;
    }
  }

  /** In an in-order run every packet that does not end it is added to its own segment's
      store, or is at least four files ahead of the head and ignored; it is never late. */
  lemma {:induction false} InOrderPacketFate(nSegments: int, readyFd: int, es: seq<Event>, size: int -> UInt32, i: nat)
    requires InOrder(es) && AllSizeHonest(es, size)
    requires i < |es| && es[i].Recv?
    requires Exec(nSegments, Init(readyFd), es[..i]).Running?
    requires Exec(nSegments, Init(readyFd), es[..i]).s.min != nSegments
    ensures var s := Exec(nSegments, Init(readyFd), es[..i]).s;
            var r := Exec(nSegments, Init(readyFd), es[..i + 1]);
            var f := es[i].pkt.header.toi;
            && r.Running? && s.min <= f
            && (f >= s.min + 4 ==> r.s == s)
            && (f < s.min + 4 ==>
                  f in r.s.segs
                  && r.s.FileOf(f).pkts == (if f in s.segs then s.FileOf(f).pkts else []) + [es[i].pkt])
  {
    var front := es[..i + 1];
    assert front[..i] == es[..i] && front[i] == es[i];
    var s := Exec(nSegments, Init(readyFd), es[..i]).s;
    InOrderNeverAborts(nSegments, readyFd, es[..i], size);
    NewestIsOlder(s, front);
    InvShape(s);
    OrderlyRecv(s, es[i].pkt, es[i].open, es[i].dec, size);
  }

  /** The packets of file f that a run took in: those that came while f was the head or less
      than four files ahead of it. */
  ghost function Accepted(nSegments: int, readyFd: int, es: seq<Event>, f: int): seq<Packet> {
    if |es| == 0 then []
    else
      var front, e := es[..|es| - 1], es[|es| - 1];
      var r := Exec(nSegments, Init(readyFd), front);
      Accepted(nSegments, readyFd, front, f) +
      (if r.Running? && e.Recv? && e.pkt.header.toi == f && r.s.min <= f < r.s.min + 4 then [e.pkt] else [])
  }

  ghost predicate SameLog(s: State, s': State, f: int) {
    s'.FileOf(f).pkts == s.FileOf(f).pkts
  }

  lemma StartWriteLogs(s: State, open: int, dec: Decoder, f: int)
    ensures SameLog(s, StartWrite(s, open, dec), f)
  {
  }

  lemma TaskWriteLogs(s: State, n: int, open: int, dec: Decoder, f: int)
    requires CanWrite(s, n)
    ensures SameLog(s, TaskWrite(s, n, open, dec), f)
  {
    hide StartWrite;
    var (seg', more) := s.segs[s.min].WriteMore(n, dec);
    var file' := s.FileOf(s.min).(out := s.FileOf(s.min).out + s.segs[s.min].Written(n), failed := s.FileOf(s.min).failed || n < 0);
    if !more {
      StartWriteLogs(Leave(s, file'), open, dec, f);
    }
  }

  lemma AdvanceLogs(s: State, g: int, open: int, dec: Decoder, f: int)
    ensures SameLog(s, Advance(s, g, open, dec), f)
  {
    hide StartWrite;
    StartWriteLogs(s.(recvFileNbr := g, segs := MarkReady(s.segs, g)), open, dec, f);
  }

  lemma TaskRecvLogs(s: State, pkt: Packet, open: int, dec: Decoder, f: int)
    requires f != pkt.header.toi
    ensures TaskRecv(s, pkt, open, dec).Running? ==> SameLog(s, TaskRecv(s, pkt, open, dec).s, f)
  {
    var g := pkt.header.toi;
    if g !in s.segs && DeriveParams(Int32Nat(pkt.header.tos)).Some? {
      AdvanceLogs(Begin(s, g, pkt.header.tos, DeriveParams(Int32Nat(pkt.header.tos)).value), g, open, dec, f);
    }
  }

  /** A step touches no log but that of its packet's file. */
  lemma StepLogs(s: State, e: Event, f: int)
    requires Enabled(s, e) && Step(s, e).Running?
    requires e.Recv? ==> f != e.pkt.header.toi
    ensures SameLog(s, Step(s, e).s, f)
  {
    hide TaskRecv, TaskWrite, StartWrite;
    match e
    case Recv(pkt, open, dec) => TaskRecvLogs(s, pkt, open, dec, f);
    case Timeout(open, dec) => StartWriteLogs(s.(writeOk := true), open, dec, f);
    case Writable(n, open, dec) => TaskWriteLogs(s, n, open, dec, f);
    case SignalReady =>
  }

  /** A packet of a file in the window is appended to that file's log; any other changes
      nothing at all. */
  lemma RecvLogs(s: State, pkt: Packet, open: int, dec: Decoder)
    requires NoStrays(s)
    ensures var f, r := pkt.header.toi, TaskRecv(s, pkt, open, dec);
            && (r.Running? ==>
                  r.s.FileOf(f).pkts == s.FileOf(f).pkts + (if s.min <= f < s.min + 4 then [pkt] else []))
            && (!(s.min <= f < s.min + 4) ==> r == Running(s))
  {
    var f, tos := pkt.header.toi, pkt.header.tos;
    if s.min <= f < s.min + 4 && f !in s.segs && DeriveParams(Int32Nat(tos)).Some? {
      AdvanceLogs(Begin(s, f, tos, DeriveParams(Int32Nat(tos)).value), f, open, dec, f);
    }
  }

  /** In every run, whatever the order of packets, a file's history consists of exactly its
      packets that came while it was in the window, in order of arrival. */
  lemma {:induction false} LogIsAccepted(nSegments: int, readyFd: int, es: seq<Event>, f: int)
    ensures var r := Exec(nSegments, Init(readyFd), es);
            r.Running? ==> r.s.FileOf(f).pkts == Accepted(nSegments, readyFd, es, f)
  {
    if |es| > 0 && Exec(nSegments, Init(readyFd), es).Running? {
      var front, e := es[..|es| - 1], es[|es| - 1];
      LogIsAccepted(nSegments, readyFd, front, f);
      ExecNoStrays(nSegments, readyFd, front);
      var s := Exec(nSegments, Init(readyFd), front).s;
      if e.Recv? && e.pkt.header.toi == f {
        RecvLogs(s, e.pkt, e.open, e.dec);
      } else {
        StepLogs(s, e, f);
      }
    }
  }

  // ----- runs one after the other

  /** A run that goes on is the run of the rest from the state reached. */
  lemma {:induction false} ExecGoesOn(nSegments: int, s: State, es: seq<Event>, more: seq<Event>)
    ensures var r := Exec(nSegments, s, es);
            Exec(nSegments, s, es + more) == if r.Running? then Exec(nSegments, r.s, more) else r
    decreases |more|
  {
    if |more| == 0 {
      assert es + more == es;
    } else {
      var front := more[..|more| - 1];
      ExecGoesOn(nSegments, s, es, front);
      assert (es + more)[..|es + more| - 1] == es + front;
    }
  }

  ghost predicate NoPackets(es: seq<Event>) {
    forall i :: 0 <= i < |es| ==> !es[i].Recv?
  }

  /** Events that are not packets take in none. */
  lemma {:induction false} NothingMoreAccepted(nSegments: int, readyFd: int, es: seq<Event>, more: seq<Event>, f: int)
    requires NoPackets(more)
    ensures Accepted(nSegments, readyFd, es + more, f) == Accepted(nSegments, readyFd, es, f)
    decreases |more|
  {
    if |more| == 0 {
      assert es + more == es;
    } else {
      var front := more[..|more| - 1];
      NothingMoreAccepted(nSegments, readyFd, es, front, f);
      assert (es + more)[..|es + more| - 1] == es + front;
      assert (es + more)[|es + more| - 1] == more[|more| - 1];
    }
  }

  // ----- packets out of order

  /** Every segment has the announced size of its file. */
  ghost predicate SizesAgree(s: State, size: int -> UInt32) {
    forall f :: f in s.segs ==> s.segs[f].fileLen == size(f)
  }

  /** A segment that has just begun is still receiving when its first packet is added. */
  lemma NewStaysReceiving(b: State, f: int, open: int, dec: Decoder)
    requires f in b.segs && b.segs[f].mode == Receiving && b.segs[f].fileNbr == f
    ensures var a := Advance(b, f, open, dec);
            f in a.segs && a.segs[f] == b.segs[f]
  {
  }

  lemma OlderNotReceiving(b: State, f: int, g: int, open: int, dec: Decoder)
    requires f in b.segs && b.segs[f].fileNbr == f < g && b.recvFileNbr < g
    ensures var a := Advance(b, g, open, dec);
            f in a.segs && a.segs[f].mode != Receiving && a.min == b.min
  {
  }

  /** The packet can be added where the window has its file, or can begin its file. */
  ghost predicate Welcome(s: State, pkt: Packet) {
    && |pkt.payload| <= PD_T
    && (if pkt.header.toi in s.segs
        then s.segs[pkt.header.toi].mode == Receiving && pkt.header.tos == s.segs[pkt.header.toi].fileLen
        else 1 <= pkt.header.tos <= MAX_FILE_SIZE)
  }

  /** Any packet at all aborts the receiver exactly when its file number is in the window
      and it is unwelcome there. */
  lemma AbortsExactlyWhen(s: State, pkt: Packet, open: int, dec: Decoder)
    requires Inv(s)
    ensures TaskRecv(s, pkt, open, dec).Aborted?
       <==> s.min <= pkt.header.toi < s.min + SEGSTATE_SET_N && !Welcome(s, pkt)
  {
    var f, tos := pkt.header.toi, pkt.header.tos;
    InvShape(s);
    AcceptedSizes(tos);
    if s.min <= f < s.min + SEGSTATE_SET_N && f !in s.segs && 1 <= tos <= MAX_FILE_SIZE {
      AcceptedParams(tos);
      NewStaysReceiving(Begin(s, f, tos, ParamsOf(tos)), f, open, dec);
    }
  }

  /** In any order, a packet of honest size aborts the receiver exactly when its file is in
      the window and no longer receiving. */
  lemma AbortsExactlyWhenLate(s: State, pkt: Packet, open: int, dec: Decoder, size: int -> UInt32)
    requires Inv(s) && SizesAgree(s, size) && SizeHonest(pkt, size)
    ensures TaskRecv(s, pkt, open, dec).Aborted?
       <==> pkt.header.toi in s.segs && s.segs[pkt.header.toi].mode != Receiving
  {
    hide TaskRecv;
    InvShape(s);
    AbortsExactlyWhen(s, pkt, open, dec);
  }

  /** Packets of two files that overtake each other abort the receiver: once a later file
      has begun, the next packet of an earlier file that is still in the window does. */
  lemma OvertakenFileAborts(s: State, newer: Packet, late: Packet, open: int, dec: Decoder, size: int -> UInt32)
    requires Inv(s) && SizesAgree(s, size) && SizeHonest(newer, size) && SizeHonest(late, size)
    requires late.header.toi in s.segs
    requires s.recvFileNbr < newer.header.toi < s.min + SEGSTATE_SET_N
    ensures var r := TaskRecv(s, newer, open, dec);
            && r.Running?
            && TaskRecv(r.s, late, open, dec).Aborted?
  {
    InvShape(s);
    NewerBegins(s, newer, late.header.toi, open, dec, size);
    NotReceivingAborts(TaskRecv(s, newer, open, dec).s, late, open, dec);
  }

  lemma NewerBegins(s: State, newer: Packet, f: int, open: int, dec: Decoder, size: int -> UInt32)
    requires Shape(s) && SizeHonest(newer, size) && f in s.segs
    requires forall g :: g in s.segs ==> g <= s.recvFileNbr
    requires s.recvFileNbr < newer.header.toi < s.min + SEGSTATE_SET_N
    ensures var r := TaskRecv(s, newer, open, dec);
            && r.Running? && r.s.min == s.min
            && f in r.s.segs && r.s.segs[f].mode != Receiving
  {
    var g := newer.header.toi;
    AcceptedParams(newer.header.tos);
    var b := Begin(s, g, newer.header.tos, ParamsOf(newer.header.tos));
    hide Advance, Begin;
    assert b.segs == s.segs[g := NewSegment(g, newer.header.tos, ParamsOf(newer.header.tos))]
        && b.min == s.min && b.recvFileNbr == s.recvFileNbr by { BeginFields(s, g, newer.header.tos, ParamsOf(newer.header.tos)); }
    NewStaysReceiving(b, g, open, dec);
    OlderNotReceiving(b, f, g, open, dec);
  }

  lemma BeginFields(s: State, f: int, tos: UInt32, p: CodingParams)
    ensures var b := Begin(s, f, tos, p);
            b.segs == s.segs[f := NewSegment(f, tos, p)] && b.min == s.min && b.recvFileNbr == s.recvFileNbr
  {
  }

  lemma NotReceivingAborts(s: State, pkt: Packet, open: int, dec: Decoder)
    requires var f := pkt.header.toi;
             s.min <= f < s.min + SEGSTATE_SET_N && f in s.segs && s.segs[f].mode != Receiving
    ensures TaskRecv(s, pkt, open, dec).Aborted?
  {
  }

  // ----- draining the ready segments

  /** Bytes still to be written of a segment that is ready or being written. */
  ghost function LeftOf(segs: map<int, Segment>, f: int): int {
    if f !in segs || segs[f].mode == Receiving then 0
    else if segs[f].mode == ReadyToWrite then segs[f].fileLen
    else segs[f].fileLen - segs[f].outOffs
  }

  ghost function Pending(s: State): int {
    LeftOf(s.segs, s.min) + LeftOf(s.segs, s.min + 1) + LeftOf(s.segs, s.min + 2) + LeftOf(s.segs, s.min + 3)
  }

  /** The first file from f on, below hi, that has no segment or is still receiving. */
  ghost function FirstBlocked(segs: map<int, Segment>, f: int, hi: int): int
    decreases hi - f
  {
    if f >= hi || f !in segs || segs[f].mode == Receiving then f else FirstBlocked(segs, f + 1, hi)
  }

  ghost function Blocked(s: State): int {
    FirstBlocked(s.segs, s.min, s.min + SEGSTATE_SET_N)
  }

  ghost predicate SameModes(segs: map<int, Segment>, segs': map<int, Segment>, f: int, hi: int) {
    forall g :: f <= g < hi ==>
      ((g in segs && segs[g].mode != Receiving) <==> (g in segs' && segs'[g].mode != Receiving))
  }

  lemma {:induction false} SameBlocked(segs: map<int, Segment>, segs': map<int, Segment>, f: int, hi: int)
    requires SameModes(segs, segs', f, hi)
    ensures FirstBlocked(segs, f, hi) == FirstBlocked(segs', f, hi)
    decreases hi - f
  {
    if f < hi {
      SameBlocked(segs, segs', f + 1, hi);
    }
  }

  lemma {:induction false} BlockedWider(segs: map<int, Segment>, f: int, hi: int)
    requires f <= hi && hi !in segs
    ensures FirstBlocked(segs, f, hi) == FirstBlocked(segs, f, hi + 1)
    decreases hi - f
  {
    if f < hi {
      BlockedWider(segs, f + 1, hi);
    }
  }

  lemma StartWriteModes(s: State, open: int, dec: Decoder)
    ensures var s' := StartWrite(s, open, dec);
            && s'.min == s.min && s'.writeOk == s.writeOk
            && (forall f :: LeftOf(s'.segs, f) == LeftOf(s.segs, f))
            && SameModes(s.segs, s'.segs, s.min, s.min + SEGSTATE_SET_N)
  {
  }

  lemma StartWriteKeepsPending(s: State, open: int, dec: Decoder)
    ensures Pending(StartWrite(s, open, dec)) == Pending(s)
    ensures Blocked(StartWrite(s, open, dec)) == Blocked(s)
    ensures StartWrite(s, open, dec).writeOk == s.writeOk
  {
    StartWriteModes(s, open, dec);
    SameBlocked(s.segs, StartWrite(s, open, dec).segs, s.min, s.min + SEGSTATE_SET_N);
  }

  lemma HeadWriteLeft(s: State, n: nat, dec: Decoder)
    requires Inv(s) && s.outFd != -1 && CanWrite(s, n)
    ensures var (seg', more) := s.segs[s.min].WriteMore(n, dec);
            && s.segs[s.min].outOffs + n <= s.segs[s.min].fileLen
            && (more ==> seg'.mode == Writing && seg'.fileLen == s.segs[s.min].fileLen
                         && seg'.outOffs == s.segs[s.min].outOffs + n)
            && (!more ==> s.segs[s.min].outOffs + n == s.segs[s.min].fileLen)
  {
    var seg, file := s.segs[s.min], s.files[s.min];
    assert SegInv(seg, file, s.min);
    AcceptedParams(file.tos);
    BlockEnd(seg, 0);
    assert seg.P.SymsBefore(0) == 0;
  }

  /** A write of n bytes leaves n bytes less, and the same file blocked. */
  lemma WriteDrains(s: State, n: nat, open: int, dec: Decoder)
    requires Inv(s) && s.outFd != -1 && CanWrite(s, n)
    ensures Pending(TaskWrite(s, n, open, dec)) == Pending(s) - n
    ensures Blocked(TaskWrite(s, n, open, dec)) == Blocked(s)
    ensures TaskWrite(s, n, open, dec).writeOk == s.writeOk
  {
    HeadWriteLeft(s, n, dec);
    InvShape(s);
    HeadWriteDrains(s, n, open, dec);
  }

  lemma HeadWriteDrains(s: State, n: nat, open: int, dec: Decoder)
    requires Shape(s) && CanWrite(s, n)
    requires var (seg', more) := s.segs[s.min].WriteMore(n, dec);
             && (more ==> seg'.mode == Writing && seg'.fileLen == s.segs[s.min].fileLen
                          && seg'.outOffs == s.segs[s.min].outOffs + n)
             && (!more ==> s.segs[s.min].outOffs + n == s.segs[s.min].fileLen)
    ensures Pending(TaskWrite(s, n, open, dec)) == Pending(s) - n
    ensures Blocked(TaskWrite(s, n, open, dec)) == Blocked(s)
    ensures TaskWrite(s, n, open, dec).writeOk == s.writeOk
  {
    var (seg', more) := s.segs[s.min].WriteMore(n, dec);
    var file' := s.FileOf(s.min).(out := s.FileOf(s.min).out + s.segs[s.min].Written(n), failed := s.FileOf(s.min).failed || n < 0);
    if more {
      KeepPending(s, seg', file');
    } else {
      LeavePending(s, file');
      StartWriteKeepsPending(Leave(s, file'), open, dec);
    }
  }

  lemma KeepPending(s: State, seg': Segment, file': FileLog)
    requires s.HeadWriting() && seg'.mode == Writing
    ensures var s' := s.(segs := s.segs[s.min := seg'], files := s.files[s.min := file']);
            && Pending(s') == Pending(s) - LeftOf(s.segs, s.min) + LeftOf(s'.segs, s.min)
            && Blocked(s') == Blocked(s)
  {
    SameBlocked(s.segs, s.segs[s.min := seg'], s.min, s.min + SEGSTATE_SET_N);
  }

  lemma LeavePending(s: State, file': FileLog)
    requires s.HeadWriting() && forall f :: f in s.segs ==> f < s.min + SEGSTATE_SET_N
    ensures Pending(Leave(s, file')) == Pending(s) - LeftOf(s.segs, s.min)
    ensures Blocked(Leave(s, file')) == Blocked(s)
  {
    var hi := s.min + SEGSTATE_SET_N;
    assert hi !in s.segs;
    BlockedWider(s.segs, s.min + 1, hi);
    SameBlocked(s.segs, s.segs - {s.min}, s.min + 1, hi + 1);
  }

  ghost predicate PositiveWrites(es: seq<Event>) {
    forall i :: 0 <= i < |es| ==> es[i].Writable? && es[i].n > 0 && es[i].open >= 0
  }

  ghost function BytesWritten(es: seq<Event>): int
  {
    if |es| == 0 then 0
    else BytesWritten(es[..|es| - 1]) + (if es[|es| - 1].Writable? then es[|es| - 1].n else 0)
  }

  /** With no further packets, writes of at least one byte account exactly for the bytes
      left in ready segments; so there are at most that many. */
  lemma {:induction false} DrainAccounts(nSegments: int, s: State, es: seq<Event>)
    requires Inv(s) && Awake(s) && PositiveWrites(es)
    ensures var r := Exec(nSegments, s, es);
            r.Running? ==>
              && Inv(r.s) && Awake(r.s) && r.s.writeOk == s.writeOk
              && Pending(r.s) == Pending(s) - BytesWritten(es)
              && BytesWritten(es) >= |es|
              && Blocked(r.s) == Blocked(s)
  {
    if |es| > 0 {
      var front, e := es[..|es| - 1], es[|es| - 1];
      DrainAccounts(nSegments, s, front);
      var r := Exec(nSegments, s, front);
      if Exec(nSegments, s, es).Running? {
        TaskWriteInv(r.s, e.n, e.open, e.dec);
        WriteDrains(r.s, e.n, e.open, e.dec);
      }
    }
  }

  lemma PendingNatural(s: State)
    requires Inv(s)
    ensures Pending(s) >= 0
  {
    forall f
      ensures LeftOf(s.segs, f) >= 0
    {
      if f in s.segs && s.segs[f].mode == Writing {
        assert SegInv(s.segs[f], s.files[f], f);
      }
    }
  }

  /** The drain: it takes at most as many positive writes as bytes are pending; while a file
      is open another such write is possible; and when none is open any more, the head is
      the file that was blocked all along: one without packets or still receiving. */
  lemma {:induction false} DrainEndsAtBlocked(nSegments: int, s: State, es: seq<Event>)
    requires Inv(s) && Awake(s) && s.writeOk && PositiveWrites(es)
    ensures var r := Exec(nSegments, s, es);
            r.Running? ==>
              && |es| <= Pending(s)
              && (r.s.outFd != -1 ==> exists n :: n > 0 && CanWrite(r.s, n))
              && (r.s.outFd == -1 ==>
                    && r.s.min == Blocked(s)
                    && (r.s.min in r.s.segs ==> r.s.segs[r.s.min].mode == Receiving))
  {
    var r := Exec(nSegments, s, es);
    DrainAccounts(nSegments, s, es);
    if r.Running? {
      PendingNatural(r.s);
      if r.s.outFd != -1 {
        HeadCanWrite(r.s);
      }
    }
  }

  lemma {:induction false} BlockedAt(segs: map<int, Segment>, f: int, hi: int, at: int)
    requires f <= at < hi
    requires forall g :: f <= g < at ==> g in segs && segs[g].mode != Receiving
    requires at in segs ==> segs[at].mode == Receiving
    ensures FirstBlocked(segs, f, hi) == at
    decreases at - f
  {
    if f < at {
      BlockedAt(segs, f + 1, hi, at);
    }
  }

  /** With packets in order, if every file up to the newest has begun, that one is what the
      drain ends at. */
  lemma NewestIsBlocked(s: State, size: int -> UInt32)
    requires Shape(s) && OrderInv(s) && OrderlyInv(s, size) && s.recvFileNbr >= 0
    requires forall f :: s.min <= f < s.recvFileNbr ==> f in s.segs
    ensures Blocked(s) == s.recvFileNbr
  {
    BlockedAt(s.segs, s.min, s.min + SEGSTATE_SET_N, s.recvFileNbr);
  }

  /** While a file is open there is something left to write of it. */
  lemma HeadCanWrite(s: State)
    requires FilesInv(s) && s.HeadWriting()
    ensures CanWrite(s, 1)
  {
    assert SegInv(s.segs[s.min], s.files[s.min], s.min);
  }
}
