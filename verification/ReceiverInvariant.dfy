/** What every iteration of the receiver's loop keeps, whatever the order of packets. */
module ReceiverInvariant {
  import opened Wrappers
  import opened ParamDeriv
  import opened SymbolStore
  import opened Segments
  import opened Receiver
  import opened FileHistory

  // ----- the invariant

  /** The segments in the window, against the history of their files. */
  ghost predicate WindowInv(min: int, segs: map<int, Segment>, files: map<int, FileLog>) {
    forall f :: f in segs ==>
      min <= f < min + SEGSTATE_SET_N && f in files && SegInv(segs[f], files[f], f)
  }

  /** The files that have left the window. */
  ghost predicate PastInv(min: int, files: map<int, FileLog>) {
    forall f :: 0 <= f < min ==> f in files && DoneInv(files[f], f)
  }

  /** File numbers: only files below the newest one are ready or being written. */
  ghost predicate OrderInv(s: State) {
    && -1 <= s.recvFileNbr
    && 0 <= s.min <= Max0(s.recvFileNbr)
    && (forall f :: f in s.segs ==> f <= s.recvFileNbr)
    && (forall f :: f in s.segs && s.segs[f].mode != Receiving ==> f < s.recvFileNbr)
    && (s.recvFileNbr >= 0 <==> s.started)
    && (s.recvFileNbr >= 0 ==> s.recvFileNbr in s.segs)
  }

  /** A file is open exactly when the head segment is being written, and no other is. */
  ghost predicate HeadInv(s: State) {
    && (s.outFd != -1 <==> s.HeadWriting())
    && (s.HeadWriting() ==> s.segs[s.min].outFd == s.outFd)
    && (forall f :: f in s.segs && s.segs[f].mode == Writing ==> f == s.min)
    && (s.outFd != -1 ==> s.writeOk)
    && (s.writeOk ==> s.started)
    && (!s.writeOk ==> s.min == 0)
  }

  /** Files were opened one after the other, each once. */
  ghost predicate OpenInv(s: State) {
    s.openLog == seq(Max0(s.min + (if s.outFd != -1 then 1 else 0)), i => i)
  }

  ghost predicate ControlInv(s: State) {
    OrderInv(s) && HeadInv(s) && OpenInv(s)
  }

  ghost predicate FilesInv(s: State) {
    WindowInv(s.min, s.segs, s.files) && PastInv(s.min, s.files)
  }

  ghost predicate Inv(s: State) {
    FilesInv(s) && ControlInv(s)
  }

  /** When files can be written and none is open, the head segment is not waiting. */
  ghost predicate Awake(s: State) {
    s.writeOk && s.outFd == -1 ==> !s.HeadReady()
  }

  lemma InitInv(readyFd: int)
    ensures Inv(Init(readyFd)) && Awake(Init(readyFd))
  {
  }

  // ----- one entry of the window changes

  lemma PutSeg(min: int, segs: map<int, Segment>, files: map<int, FileLog>, f: int, seg: Segment, file: FileLog)
    requires WindowInv(min, segs, files) && PastInv(min, files)
    requires min <= f < min + SEGSTATE_SET_N && SegInv(seg, file, f)
    ensures WindowInv(min, segs[f := seg], files[f := file])
    ensures PastInv(min, files[f := file])
  {
  }

  lemma DropHeadWindow(min: int, segs: map<int, Segment>, files: map<int, FileLog>, file: FileLog)
    requires WindowInv(min, segs, files)
    ensures WindowInv(min + 1, segs - {min}, files[min := file])
  {
    var segs', files' := segs - {min}, files[min := file];
    forall f | f in segs'
      ensures f in files' && SegInv(segs'[f], files'[f], f)
    {
      assert segs'[f] == segs[f] && files'[f] == files[f];
    }
  }

  lemma DropHeadPast(min: int, files: map<int, FileLog>, file: FileLog)
    requires PastInv(min, files) && DoneInv(file, min)
    ensures PastInv(min + 1, files[min := file])
  {
    var files' := files[min := file];
    forall f | 0 <= f < min + 1
      ensures f in files' && DoneInv(files'[f], f)
    {
      assert f < min ==> files'[f] == files[f];
    }
  }

  lemma MarkReadyWindow(min: int, segs: map<int, Segment>, files: map<int, FileLog>, limit: int)
    requires WindowInv(min, segs, files)
    ensures WindowInv(min, MarkReady(segs, limit), files)
  {
    var segs' := MarkReady(segs, limit);
    forall f | f in segs'
      ensures SegInv(segs'[f], files[f], f)
    {
      ReadySegInv(segs[f], files[f], f);
    }
  }

  // ----- opening the head

  lemma StartWriteInv(s: State, open: int, dec: Decoder)
    requires Inv(s) && s.outFd == -1 && s.writeOk
    ensures Inv(StartWrite(s, open, dec))
    ensures open >= 0 ==> Awake(StartWrite(s, open, dec))
  {
    if s.HeadReady() && open >= 0 {
      OpenSegInv(s.segs[s.min], s.files[s.min], s.min, open, dec);
      PutSeg(s.min, s.segs, s.files, s.min, s.segs[s.min].PrepareOutput(open, dec), s.files[s.min].(dec := Some(dec)));
      StartWriteControl(s, open, dec);
    }
  }

  lemma StartWriteControl(s: State, open: int, dec: Decoder)
    requires ControlInv(s) && s.outFd == -1 && s.writeOk
    ensures ControlInv(StartWrite(s, open, dec))
  {
  }

  // ----- writing

  /** The file being written is left behind. */
  ghost function Leave(s: State, file': FileLog): State {
    s.(min := s.min + 1, segs := s.segs - {s.min}, outFd := -1, files := s.files[s.min := file'])
  }

  lemma LeaveControl(s: State, file': FileLog)
    requires ControlInv(s) && s.outFd != -1
    ensures ControlInv(Leave(s, file'))
  {
  }

  lemma KeepWritingControl(s: State, seg': Segment, file': FileLog)
    requires ControlInv(s) && s.outFd != -1
    requires seg'.mode == Writing && seg'.outFd == s.outFd
    ensures ControlInv(s.(segs := s.segs[s.min := seg'], files := s.files[s.min := file']))
  {
  }

  lemma TaskWriteInv(s: State, n: int, open: int, dec: Decoder)
    requires Inv(s) && s.outFd != -1 && CanWrite(s, n)
    ensures Inv(TaskWrite(s, n, open, dec))
    ensures open >= 0 ==> Awake(TaskWrite(s, n, open, dec))
  {
    var seg, file := s.segs[s.min], s.files[s.min];
    var (seg', more) := seg.WriteMore(n, dec);
    var file' := file.(out := file.out + seg.Written(n), failed := file.failed || n < 0);
    WriteSegInv(seg, file, s.min, n, dec);
    if more {
      PutSeg(s.min, s.segs, s.files, s.min, seg', file');
      KeepWritingControl(s, seg', file');
    } else {
      DropHeadWindow(s.min, s.segs, s.files, file');
      DropHeadPast(s.min, s.files, file');
      LeaveControl(s, file');
      StartWriteInv(Leave(s, file'), open, dec);
    }
  }

  /** While a file is open the assertions made before writing hold: whatever write() returns
      is handled. */
  lemma OpenFileCanBeWritten(s: State, n: int)
    requires Inv(s) && s.outFd != -1
    ensures s.HeadWriting() && s.segs[s.min].Valid()
    ensures s.segs[s.min].outCb < s.segs[s.min].P.nCb
    ensures 0 < s.segs[s.min].Room()
    ensures CanWrite(s, n) <==> n <= s.segs[s.min].Room()
  {
    assert SegInv(s.segs[s.min], s.files[s.min], s.min);
    PosBelowEnd(s.segs[s.min]);
  }

  // ----- receiving

  /** A new segment may be the newest so far; then all below it become ready. */
  lemma BeginControl(s: State, f: int, tos: UInt32, p: CodingParams)
    requires ControlInv(s) && f !in s.segs && s.min <= f < s.min + SEGSTATE_SET_N
    requires forall g :: g in s.segs ==> s.segs[g].fileNbr == g
    ensures var b := Begin(s, f, tos, p);
            ControlInv(if f <= s.recvFileNbr then b else b.(recvFileNbr := f, segs := MarkReady(b.segs, f)))
  {
  }

  lemma BeginAdvanceInv(s: State, f: int, tos: UInt32, open: int, dec: Decoder)
    requires Inv(s) && f !in s.segs && s.min <= f < s.min + SEGSTATE_SET_N
    requires 1 <= tos <= MAX_FILE_SIZE
    ensures Inv(Advance(Begin(s, f, tos, ParamsOf(tos)), f, open, dec))
    ensures open >= 0 && Awake(s) ==> Awake(Advance(Begin(s, f, tos, ParamsOf(tos)), f, open, dec))
  {
    NewSegInv(f, tos);
    var b := Begin(s, f, tos, ParamsOf(tos));
    PutSeg(s.min, s.segs, s.files, f, b.segs[f], b.files[f]);
    WindowNumbers(s);
    BeginControl(s, f, tos, ParamsOf(tos));
    if f > s.recvFileNbr {
      MarkReadyWindow(b.min, b.segs, b.files, f);
      if s.writeOk && s.outFd == -1 {
        StartWriteInv(b.(recvFileNbr := f, segs := MarkReady(b.segs, f)), open, dec);
      }
    }
  }

  lemma WindowNumbers(s: State)
    requires FilesInv(s)
    ensures forall g :: g in s.segs ==> s.segs[g].fileNbr == g
  {
  }

  lemma DeliverControl(s: State, f: int, seg': Segment, file': FileLog)
    requires ControlInv(s) && f in s.segs && s.segs[f].mode == Receiving == seg'.mode
    ensures ControlInv(s.(segs := s.segs[f := seg'], files := s.files[f := file']))
    ensures Awake(s) ==> Awake(s.(segs := s.segs[f := seg'], files := s.files[f := file']))
  {
  }

  lemma DeliverInv(s: State, pkt: Packet)
    requires Inv(s)
    ensures Deliver(s, pkt).Running? ==>
              && Inv(Deliver(s, pkt).s)
              && (Awake(s) ==> Awake(Deliver(s, pkt).s))
  {
    var f := pkt.header.toi;
    if Deliver(s, pkt).Running? {
      var seg, file := s.segs[f], s.files[f];
      var file' := file.(pkts := file.pkts + [pkt]);
      AddSegInv(seg, file, f, pkt);
      PutSeg(s.min, s.segs, s.files, f, seg.AddPacket(pkt), file');
      DeliverControl(s, f, seg.AddPacket(pkt), file');
    }
  }

  // ----- every step

  lemma TaskRecvInv(s: State, pkt: Packet, open: int, dec: Decoder)
    requires Inv(s)
    ensures TaskRecv(s, pkt, open, dec).Running? ==>
              && Inv(TaskRecv(s, pkt, open, dec).s)
              && (Awake(s) && open >= 0 ==> Awake(TaskRecv(s, pkt, open, dec).s))
  {
    var f := pkt.header.toi;
    if s.min <= f < s.min + SEGSTATE_SET_N {
      if f in s.segs {
        DeliverInv(s, pkt);
      } else if DeriveParams(Int32Nat(pkt.header.tos)).Some? {
        AcceptedSizes(pkt.header.tos);
        BeginAdvanceInv(s, f, pkt.header.tos, open, dec);
        DeliverInv(Advance(Begin(s, f, pkt.header.tos, ParamsOf(pkt.header.tos)), f, open, dec), pkt);
      }
    }
  }

  ghost predicate OpensWell(e: Event) {
    !e.SignalReady? ==> e.open >= 0
  }

  lemma TimeoutInv(s: State, open: int, dec: Decoder)
    requires Inv(s) && s.outFd == -1 && s.started
    ensures Inv(StartWrite(s.(writeOk := true), open, dec))
    ensures open >= 0 ==> Awake(StartWrite(s.(writeOk := true), open, dec))
  {
    var s' := s.(writeOk := true);
    assert ControlInv(s');
    assert FilesInv(s');
    StartWriteInv(s', open, dec);
  }

  /** Every step that does not abort keeps the invariant; if opens succeed, it also leaves
      no ready head waiting. */
  lemma StepInv(s: State, e: Event)
    requires Inv(s) && Enabled(s, e)
    ensures Step(s, e).Running? ==> Inv(Step(s, e).s)
    ensures Step(s, e).Running? && Awake(s) && OpensWell(e) ==> Awake(Step(s, e).s)
  {
    match e
    case Recv(pkt, open, dec) => TaskRecvInv(s, pkt, open, dec);
    case Timeout(open, dec) => TimeoutInv(s, open, dec);
    case Writable(n, open, dec) => TaskWriteInv(s, n, open, dec);
    case SignalReady =>
      assert ControlInv(s.(readyFd := -1));
  }

  // ----- every run

  lemma {:induction false} ExecInv(nSegments: int, readyFd: int, es: seq<Event>)
    ensures var r := Exec(nSegments, Init(readyFd), es);
            r.Running? ==> Inv(r.s) && ((forall i :: 0 <= i < |es| ==> OpensWell(es[i])) ==> Awake(r.s))
  {
    if |es| == 0 {
      InitInv(readyFd);
    } else {
      var front := es[..|es| - 1];
      ExecInv(nSegments, readyFd, front);
      var r := Exec(nSegments, Init(readyFd), front);
      if Exec(nSegments, Init(readyFd), es).Running? {
        StepInv(r.s, es[|es| - 1]);
      }
    }
  }
}
