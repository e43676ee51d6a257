/** Which orders of packets the receiver survives, said of whole runs. */
module PacketOrder {
  import opened ParamDeriv
  import opened SymbolStore
  import opened Segments
  import opened Receiver
  import opened ReceiverInvariant
  import opened ReceiverRuns

  // ----- what a run of events says about the files

  /** The last event is a packet of a file in the window. */
  ghost predicate TakesLast(nSegments: int, readyFd: int, es: seq<Event>) {
    && |es| > 0 && es[|es| - 1].Recv?
    && var r := Exec(nSegments, Init(readyFd), es[..|es| - 1]);
       r.Running? && Taken(r.s, es[|es| - 1])
  }

  ghost predicate Taken(s: State, e: Event) {
    e.Recv? && s.min <= e.pkt.header.toi < s.min + SEGSTATE_SET_N
  }

  /** A packet of file f came while f was in the window. */
  ghost predicate Begun(nSegments: int, readyFd: int, es: seq<Event>, f: int)
    decreases |es|
  {
    && |es| > 0
    && (|| Begun(nSegments, readyFd, es[..|es| - 1], f)
        || (TakesLast(nSegments, readyFd, es) && es[|es| - 1].pkt.header.toi == f))
  }

  /** The last event begins a file beyond all that had begun before. */
  ghost predicate BeginsNewest(nSegments: int, readyFd: int, es: seq<Event>) {
    TakesLast(nSegments, readyFd, es) && AllBelow(nSegments, readyFd, es[..|es| - 1], es[|es| - 1].pkt.header.toi)
  }

  /** All files that have begun are below file f. */
  ghost predicate AllBelow(nSegments: int, readyFd: int, es: seq<Event>, f: int) {
    forall g :: Begun(nSegments, readyFd, es, g) ==> g < f
  }

  /** After file f had begun, a file beyond all that had begun did. */
  ghost predicate Overtaken(nSegments: int, readyFd: int, es: seq<Event>, f: int)
    decreases |es|
  {
    && |es| > 0
    && (|| Overtaken(nSegments, readyFd, es[..|es| - 1], f)
        || (Begun(nSegments, readyFd, es[..|es| - 1], f) && BeginsNewest(nSegments, readyFd, es)))
  }

  /** The last event is a packet of an overtaken file that has not left the window. */
  ghost predicate LastIsLate(nSegments: int, readyFd: int, es: seq<Event>) {
    && |es| > 0 && es[|es| - 1].Recv?
    && var front, f := es[..|es| - 1], es[|es| - 1].pkt.header.toi;
       var r := Exec(nSegments, Init(readyFd), front);
       && r.Running? && r.s.min != nSegments
       && r.s.min <= f && Overtaken(nSegments, readyFd, front, f)
  }

  lemma {:induction false} OvertakenHasBegun(nSegments: int, readyFd: int, es: seq<Event>, f: int)
    ensures Overtaken(nSegments, readyFd, es, f) ==> Begun(nSegments, readyFd, es, f)
    decreases |es|
  {
    if |es| > 0 {
      OvertakenHasBegun(nSegments, readyFd, es[..|es| - 1], f);
    }
  }

  // ----- the same read off the state

  /** The packet is the first of a file beyond all earlier ones. */
  ghost predicate Newest(s: State, e: Event) {
    Taken(s, e) && e.pkt.header.toi > s.recvFileNbr
  }

  /** Which files are in the window, and which of them are still receiving. */
  ghost predicate Moves(s: State, e: Event, s': State) {
    && s'.min >= s.min
    && (forall f :: f >= s'.min ==> (f in s'.segs <==> f in s.segs || (Taken(s, e) && e.pkt.header.toi == f)))
    && s'.recvFileNbr == (if Newest(s, e) then e.pkt.header.toi else s.recvFileNbr)
    && (forall f :: f in s'.segs ==>
          (s'.segs[f].mode != Receiving <==>
             f in s.segs && (s.segs[f].mode != Receiving || Newest(s, e))))
  }

  ghost predicate Numbered(s: State) {
    && (forall f :: f in s.segs ==> s.min <= f <= s.recvFileNbr && s.segs[f].fileNbr == f)
    && -1 <= s.recvFileNbr
  }

  lemma StartWriteMoves(s: State, e: Event, s0: State, open: int, dec: Decoder)
    requires Moves(s0, e, s)
    ensures Moves(s0, e, StartWrite(s, open, dec))
  {
  }

  lemma BeginMoves(s: State, e: Event)
    requires Numbered(s) && Taken(s, e) && e.pkt.header.toi !in s.segs
    requires DeriveParams(Int32Nat(e.pkt.header.tos)).Some?
    ensures var f := e.pkt.header.toi;
            var a := Advance(Begin(s, f, e.pkt.header.tos, DeriveParams(Int32Nat(e.pkt.header.tos)).value), f, e.open, e.dec);
            Moves(s, e, a)
  {
    var f := e.pkt.header.toi;
    var b := Begin(s, f, e.pkt.header.tos, DeriveParams(Int32Nat(e.pkt.header.tos)).value);
    var marked := b.(recvFileNbr := f, segs := MarkReady(b.segs, f));
    hide StartWrite;
    if f > s.recvFileNbr {
      assert Moves(s, e, marked);
      StartWriteMoves(marked, e, s, e.open, e.dec);
    }
  }

  lemma DeliverModes(s: State, pkt: Packet)
    ensures Deliver(s, pkt).Running? ==>
              var s' := Deliver(s, pkt).s;
              && s'.min == s.min && s'.recvFileNbr == s.recvFileNbr && s'.segs.Keys == s.segs.Keys
              && forall f :: f in s'.segs ==> s'.segs[f].mode == s.segs[f].mode
  {
  }

  lemma RecvMoves(s: State, e: Event)
    requires Numbered(s) && e.Recv?
    ensures TaskRecv(s, e.pkt, e.open, e.dec).Running? ==> Moves(s, e, TaskRecv(s, e.pkt, e.open, e.dec).s)
  {
    var f, tos := e.pkt.header.toi, e.pkt.header.tos;
    if Taken(s, e) {
      if f in s.segs {
        DeliverModes(s, e.pkt);
      } else if DeriveParams(Int32Nat(tos)).Some? {
        BeginMoves(s, e);
        var a := Advance(Begin(s, f, tos, DeriveParams(Int32Nat(tos)).value), f, e.open, e.dec);
        DeliverModes(a, e.pkt);
        hide Advance, Begin, Deliver;
      }
    }
  }

  lemma WriteMoves(s: State, e: Event)
    requires e.Writable? && CanWrite(s, e.n) && Numbered(s)
    ensures Moves(s, e, TaskWrite(s, e.n, e.open, e.dec))
  {
    var (seg', more) := s.segs[s.min].WriteMore(e.n, e.dec);
    var file' := s.FileOf(s.min).(out := s.FileOf(s.min).out + s.segs[s.min].Written(e.n),
                                  failed := s.FileOf(s.min).failed || e.n < 0);
    if !more {
      StartWriteMoves(Leave(s, file'), e, s, e.open, e.dec);
    }
  }

  lemma StepMoves(s: State, e: Event)
    requires Numbered(s) && Enabled(s, e)
    ensures Step(s, e).Running? ==> Moves(s, e, Step(s, e).s)
  {
    match e
    case Recv(_, _, _) => RecvMoves(s, e);
    case Timeout(open, dec) => StartWriteMoves(s.(writeOk := true), e, s, open, dec);
    case Writable(_, _, _) => WriteMoves(s, e);
    case SignalReady =>
  }

  /** The state knows which files have begun, and which of those in the window were
      overtaken. */
  ghost predicate Tracks(nSegments: int, readyFd: int, es: seq<Event>, s: State) {
    && (forall f :: f >= s.min ==> (f in s.segs <==> Begun(nSegments, readyFd, es, f)))
    && (forall f :: Begun(nSegments, readyFd, es, f) ==> 0 <= f <= s.recvFileNbr)
    && (s.recvFileNbr >= 0 ==> Begun(nSegments, readyFd, es, s.recvFileNbr))
    && (forall f :: f in s.segs ==> (s.segs[f].mode != Receiving <==> Overtaken(nSegments, readyFd, es, f)))
  }

  lemma InvNumbered(s: State)
    requires Inv(s)
    ensures Numbered(s) && s.min >= 0
  {
    WindowNumbers(s);
  }

  lemma TracksStep(nSegments: int, readyFd: int, es: seq<Event>, s: State, s': State)
    requires |es| > 0
    requires var front := es[..|es| - 1];
             && Exec(nSegments, Init(readyFd), front) == Running(s)
             && Tracks(nSegments, readyFd, front, s)
    requires Numbered(s) && Numbered(s') && s.min >= 0
    requires Moves(s, es[|es| - 1], s')
    ensures Tracks(nSegments, readyFd, es, s')
  {
    var front, e := es[..|es| - 1], es[|es| - 1];
    hide Exec;
    assert TakesLast(nSegments, readyFd, es) <==> Taken(s, e);
    assert BeginsNewest(nSegments, readyFd, es) <==> Newest(s, e);
    hide TakesLast, BeginsNewest;
    forall f
      ensures Begun(nSegments, readyFd, es, f) <==>
              Begun(nSegments, readyFd, front, f) || (Taken(s, e) && e.pkt.header.toi == f)
    {
    }
    forall f | f in s'.segs
      ensures s'.segs[f].mode != Receiving <==> Overtaken(nSegments, readyFd, es, f)
    {
      OvertakenHasBegun(nSegments, readyFd, front, f);
    }
  }

  lemma {:induction false} ExecTracks(nSegments: int, readyFd: int, es: seq<Event>)
    ensures var r := Exec(nSegments, Init(readyFd), es);
            r.Running? ==> Inv(r.s) && Tracks(nSegments, readyFd, es, r.s)
    decreases |es|
  {
    ExecInv(nSegments, readyFd, es);
    if |es| > 0 && Exec(nSegments, Init(readyFd), es).Running? {
      var front := es[..|es| - 1];
      ExecTracks(nSegments, readyFd, front);
      var s, s' := Exec(nSegments, Init(readyFd), front).s, Exec(nSegments, Init(readyFd), es).s;
      InvNumbered(s);
      InvNumbered(s');
      StepMoves(s, es[|es| - 1]);
      TracksStep(nSegments, readyFd, es, s, s');
    }
  }

  // ----- sizes

  lemma StepSizes(s: State, e: Event, size: int -> UInt32)
    requires Enabled(s, e) && SizesAgree(s, size)
    requires e.Recv? ==> SizeHonest(e.pkt, size)
    ensures Step(s, e).Running? ==> SizesAgree(Step(s, e).s, size)
  {
    hide TaskRecv, TaskWrite;
    match e
    case Recv(pkt, open, dec) => RecvSizes(s, pkt, open, dec, size);
    case Timeout(_, _) =>
    case Writable(n, open, dec) => WriteSizes(s, n, open, dec, size);
    case SignalReady =>
  }

  lemma RecvSizes(s: State, pkt: Packet, open: int, dec: Decoder, size: int -> UInt32)
    requires SizesAgree(s, size) && SizeHonest(pkt, size)
    ensures TaskRecv(s, pkt, open, dec).Running? ==> SizesAgree(TaskRecv(s, pkt, open, dec).s, size)
  {
    var f, tos := pkt.header.toi, pkt.header.tos;
    if f !in s.segs && DeriveParams(Int32Nat(tos)).Some? {
      var b := Begin(s, f, tos, DeriveParams(Int32Nat(tos)).value);
      assert SizesAgree(b, size);
      assert SizesAgree(Advance(b, f, open, dec), size);
    }
  }

  lemma WriteSizes(s: State, n: int, open: int, dec: Decoder, size: int -> UInt32)
    requires SizesAgree(s, size) && CanWrite(s, n)
    ensures SizesAgree(TaskWrite(s, n, open, dec), size)
  {
  }

  lemma {:induction false} ExecSizes(nSegments: int, readyFd: int, es: seq<Event>, size: int -> UInt32)
    requires AllSizeHonest(es, size)
    ensures var r := Exec(nSegments, Init(readyFd), es); r.Running? ==> SizesAgree(r.s, size)
  {
    if |es| > 0 {
      ExecSizes(nSegments, readyFd, es[..|es| - 1], size);
      if Exec(nSegments, Init(readyFd), es).Running? {
        StepSizes(Exec(nSegments, Init(readyFd), es[..|es| - 1]).s, es[|es| - 1], size);
      }
    }
  }

  // ----- which runs abort

  lemma StepAbortsExactlyWhenLate(nSegments: int, readyFd: int, es: seq<Event>, size: int -> UInt32)
    requires |es| > 0 && AllSizeHonest(es, size)
    ensures Exec(nSegments, Init(readyFd), es).Aborted?
       <==> Exec(nSegments, Init(readyFd), es[..|es| - 1]).Aborted? || LastIsLate(nSegments, readyFd, es)
  {
    var front, e := es[..|es| - 1], es[|es| - 1];
    var r := Exec(nSegments, Init(readyFd), front);
    if r.Running? && r.s.min != nSegments && e.Recv? {
      ExecTracks(nSegments, readyFd, front);
      ExecSizes(nSegments, readyFd, front, size);
      OvertakenHasBegun(nSegments, readyFd, front, e.pkt.header.toi);
      InvNumbered(r.s);
      AbortsExactlyWhenLate(r.s, e.pkt, e.open, e.dec, size);
    }
  }

  /** In any order of packets of honest size, a run aborts if and only if some packet of it
      comes late: its file had begun, then one beyond all others began, and the file has not
      left the window yet. */
  lemma {:induction false} RunAbortsExactlyWhenLate(nSegments: int, readyFd: int, es: seq<Event>, size: int -> UInt32)
    requires AllSizeHonest(es, size)
    ensures Exec(nSegments, Init(readyFd), es).Aborted?
       <==> exists i :: 0 < i <= |es| && LastIsLate(nSegments, readyFd, es[..i])
  {
    if |es| > 0 {
      var front := es[..|es| - 1];
      RunAbortsExactlyWhenLate(nSegments, readyFd, front, size);
      StepAbortsExactlyWhenLate(nSegments, readyFd, es, size);
      assert es[..|es|] == es;
      assert forall i :: 0 < i <= |front| ==> es[..i] == front[..i];
    }
  }

  /** A run that aborts: a packet of file 0, one of file 1, and another one of file 0. */
  lemma OvertakingRunAborts(nSegments: int, readyFd: int, a: Packet, b: Packet, c: Packet,
                            open: int, dec: Decoder, size: int -> UInt32)
    requires nSegments > 0
    requires a.header.toi == 0 && b.header.toi == 1 && c.header.toi == 0
    requires SizeHonest(a, size) && SizeHonest(b, size) && SizeHonest(c, size)
    ensures Exec(nSegments, Init(readyFd), [Recv(a, open, dec), Recv(b, open, dec), Recv(c, open, dec)]).Aborted?
  {
    var s0 := Init(readyFd);
    InitInv(readyFd);
    InvShape(s0);
    OrderlyRecv(s0, a, open, dec, size);
    TaskRecvInv(s0, a, open, dec);
    var s1 := TaskRecv(s0, a, open, dec).s;
    InvShape(s1);
    NewerBegins(s1, b, 0, open, dec, size);
    OvertakenFileAborts(s1, b, c, open, dec, size);
    ThreeRecvs(nSegments, readyFd, a, b, c, open, dec);
  }

  lemma ThreeRecvs(nSegments: int, readyFd: int, a: Packet, b: Packet, c: Packet, open: int, dec: Decoder)
    requires nSegments > 0
    requires var r1 := TaskRecv(Init(readyFd), a, open, dec);
             && r1.Running? && r1.s.min == 0
             && var r2 := TaskRecv(r1.s, b, open, dec);
                r2.Running? && r2.s.min == 0 && TaskRecv(r2.s, c, open, dec).Aborted?
    ensures Exec(nSegments, Init(readyFd), [Recv(a, open, dec), Recv(b, open, dec), Recv(c, open, dec)]).Aborted?
  {
    hide TaskRecv;
    var es := [Recv(a, open, dec), Recv(b, open, dec), Recv(c, open, dec)];
    assert es[..2][..1] == es[..1] && es[..1][..0] == [];
    assert Exec(nSegments, Init(readyFd), []) == Running(Init(readyFd));
    assert Exec(nSegments, Init(readyFd), es[..1]) == TaskRecv(Init(readyFd), a, open, dec);
    assert Exec(nSegments, Init(readyFd), es[..2]) == TaskRecv(TaskRecv(Init(readyFd), a, open, dec).s, b, open, dec);
  }
}
