/** What each event does, and what a run's events say about its state. */
module ReceiverSteps {
  import opened Wrappers
  import opened ParamDeriv
  import opened SymbolStore
  import opened Segments
  import opened Receiver
  import opened FileHistory
  import opened ReceiverInvariant

  // ----- one event

  /** A deadline can pass once something was received and until one has; the readiness signal
      can be taken until something is received; a file that is open can always be written,
      and nothing else can. */
  lemma PossibleEvents(s: State, n: int, open: int, dec: Decoder)
    requires Inv(s)
    ensures Enabled(s, Timeout(open, dec)) <==> s.recvFileNbr >= 0 && !s.writeOk
    ensures Enabled(s, SignalReady) <==> s.recvFileNbr == -1 && s.readyFd > 0
    ensures Enabled(s, Writable(n, open, dec)) <==> s.outFd != -1 && n <= s.segs[s.min].Room()
  {
    if s.outFd != -1 {
      OpenFileCanBeWritten(s, n);
    }
  }

  /** The deadline allows writing; a head that is ready is opened then, if open succeeds, and
      nothing else happens. */
  lemma DeadlineStartsWriting(s: State, open: int, dec: Decoder)
    requires Inv(s) && Enabled(s, Timeout(open, dec))
    ensures var r := Step(s, Timeout(open, dec));
            && r.Running? && r.s.writeOk && r.s.min == s.min
            && (s.HeadReady() && open >= 0 ==>
                  && r.s.HeadWriting() && r.s.outFd == r.s.segs[s.min].outFd == open
                  && r.s.files == s.files[s.min := s.files[s.min].(dec := Some(dec))]
                  && r.s.segs == s.segs[s.min := r.s.segs[s.min]])
            && (!(s.HeadReady() && open >= 0) ==> r.s == s.(writeOk := true))
  {
  }

  /** The first packet of a file beyond all earlier ones opens the head if that had begun,
      writing is allowed and no file is open. */
  lemma NewestWakesHead(s: State, pkt: Packet, open: int, dec: Decoder)
    requires Inv(s) && s.writeOk && s.outFd == -1 && open >= 0
    requires s.recvFileNbr < pkt.header.toi < s.min + 4 && s.min in s.segs
    ensures var r := TaskRecv(s, pkt, open, dec);
            r.Running? ==> r.s.min == s.min && r.s.HeadWriting() && r.s.outFd == open
  {
    WindowNumbers(s);
    assert forall g :: g in s.segs ==> s.min <= g <= s.recvFileNbr;
    hide FilesInv;
    NewestBegins(s, pkt, open, dec);
  }

  lemma NewestBegins(s: State, pkt: Packet, open: int, dec: Decoder)
    requires s.min in s.segs && s.segs[s.min].mode != Writing && s.segs[s.min].fileNbr == s.min
    requires s.writeOk && s.outFd == -1 && open >= 0 && pkt.header.toi !in s.segs
    requires s.min < pkt.header.toi < s.min + 4 && s.recvFileNbr < pkt.header.toi
    ensures var r := TaskRecv(s, pkt, open, dec);
            r.Running? ==> r.s.min == s.min && r.s.HeadWriting() && r.s.outFd == open
  {
    var f, tos := pkt.header.toi, pkt.header.tos;
    if DeriveParams(Int32Nat(tos)).Some? {
      NewestOpens(Begin(s, f, tos, DeriveParams(Int32Nat(tos)).value), f, open, dec);
    }
    hide Advance;
  }

  lemma NewestOpens(b: State, f: int, open: int, dec: Decoder)
    requires b.min in b.segs && b.segs[b.min].mode != Writing && b.segs[b.min].fileNbr == b.min < f
    requires b.writeOk && b.outFd == -1 && open >= 0 && b.recvFileNbr < f
    ensures var a := Advance(b, f, open, dec);
            a.min == b.min && a.HeadWriting() && a.outFd == open
  {
  }

  /** Readiness is signalled once, and before anything is received. */
  lemma SignalIsFinal(s: State)
    requires Inv(s) && Enabled(s, SignalReady)
    ensures s.segs.Keys == {} && !s.started
    ensures var r := Step(s, SignalReady);
            r.Running? && r.s == s.(readyFd := -1) && !Enabled(r.s, SignalReady)
  {
    assert forall f :: f in s.segs ==> s.min <= f <= s.recvFileNbr;
  }

  /** The next file is opened right away if it is ready and open succeeds. */
  ghost predicate OpensNext(s: State, s': State, open: int) {
    && s'.min == s.min + 1
    && s'.outFd == if s'.min in s.segs && s.segs[s'.min].mode == ReadyToWrite && open >= 0 then open else -1
  }

  /** A write of n bytes extends the output along the content of the head; the head is left
      exactly at the end of its content, or when the write failed, which adds nothing. */
  lemma WriteExtendsOutput(s: State, n: int, open: int, dec: Decoder)
    requires Inv(s) && Enabled(s, Writable(n, open, dec))
    ensures s.min in s.files && GoodLog(s.files[s.min], s.min) && s.files[s.min].dec.Some?
    ensures var r := Step(s, Writable(n, open, dec));
            var c, before, after := ContentOf(s.files[s.min], s.min), s.FileOf(s.min).out, r.s.FileOf(s.min).out;
            && r.Running?
            && r.s.FileOf(s.min).failed == (n < 0)
            && (n < 0 ==> after == before && OpensNext(s, r.s, open))
            && (n >= 0 ==>
                  && |before| + n <= |c| && after == c[..|before| + n]
                  && (if |after| < |c| then r.s.min == s.min && r.s.outFd == s.outFd else OpensNext(s, r.s, open)))
            && (forall f :: f != s.min ==> r.s.FileOf(f).out == s.FileOf(f).out)
  {
    var seg, file := s.segs[s.min], s.files[s.min];
    assert SegInv(seg, file, s.min);
    hide TaskWrite, StartWrite, ControlInv, OpensNext;
    WriteParts(s, n, open, dec);
    if n < 0 {
      FailedWriteIsFinal(seg, n, dec);
    } else {
      WriteInBlock(seg, file, s.min, n, dec);
      MoveInBlock(seg, file, s.min, n, dec);
    }
    hide Segment.WriteMore, Segment.Written, CanWrite, FilesInv, Segment.Valid, Segment.Room;
  }

  /** What a write leaves alone, in terms of what the segment says. */
  lemma WriteParts(s: State, n: int, open: int, dec: Decoder)
    requires CanWrite(s, n) && s.min in s.files && s.outFd != -1
    ensures var (_, more) := s.segs[s.min].WriteMore(n, dec);
            var file, s' := s.files[s.min], TaskWrite(s, n, open, dec);
            && s'.FileOf(s.min).out == file.out + s.segs[s.min].Written(n)
            && s'.FileOf(s.min).failed == (file.failed || n < 0)
            && (if more then s'.min == s.min && s'.outFd == s.outFd else OpensNext(s, s', open))
            && (forall f :: f != s.min ==> s'.FileOf(f).out == s.FileOf(f).out)
  {
    var file := s.files[s.min];
    LeaveOpens(s, file.(out := file.out + s.segs[s.min].Written(n), failed := file.failed || n < 0), open, dec);
    hide StartWrite;
  }

  lemma LeaveOpens(s: State, file': FileLog, open: int, dec: Decoder)
    requires s.outFd != -1
    ensures var s' := StartWrite(Leave(s, file'), open, dec);
            && OpensNext(s, s', open)
            && s'.FileOf(s.min) == file'
            && (forall f :: f != s.min ==> s'.FileOf(f).out == s.FileOf(f).out)
  {
  }

  // ----- what a run has done

  ghost predicate TimedOut(es: seq<Event>) {
    exists i :: 0 <= i < |es| && es[i].Timeout?
  }

  ghost predicate Signalled(es: seq<Event>) {
    exists i :: 0 <= i < |es| && es[i].SignalReady?
  }

  lemma StepFlags(s: State, e: Event)
    requires Enabled(s, e) && Step(s, e).Running?
    ensures Step(s, e).s.writeOk == (s.writeOk || e.Timeout?)
    ensures Step(s, e).s.readyFd == if e.SignalReady? then -1 else s.readyFd
  {
  }

  /** Writing is allowed exactly after a deadline, and the ready descriptor is closed exactly
      after the signal. */
  lemma {:induction false} FlagsFollowEvents(nSegments: int, readyFd: int, es: seq<Event>)
    ensures var r := Exec(nSegments, Init(readyFd), es);
            r.Running? ==>
              && (r.s.writeOk <==> TimedOut(es))
              && r.s.readyFd == (if Signalled(es) then -1 else readyFd)
  {
    if |es| > 0 && Exec(nSegments, Init(readyFd), es).Running? {
      var front, e := es[..|es| - 1], es[|es| - 1];
      FlagsFollowEvents(nSegments, readyFd, front);
      StepFlags(Exec(nSegments, Init(readyFd), front).s, e);
      EventsSnoc(front, e);
      assert es == front + [e];
    }
  }

  lemma EventsSnoc(front: seq<Event>, e: Event)
    ensures TimedOut(front + [e]) <==> TimedOut(front) || e.Timeout?
    ensures Signalled(front + [e]) <==> Signalled(front) || e.SignalReady?
  {
    var es := front + [e];
    assert es[|front|] == e;
    if i :| 0 <= i < |front| && front[i].Timeout? {
      assert es[i].Timeout?;
    }
    if i :| 0 <= i < |front| && front[i].SignalReady? {
      assert es[i].SignalReady?;
    }
  }

  /** A run has at most one deadline and at most one signal. */
  lemma {:induction false} OnceEach(nSegments: int, readyFd: int, es: seq<Event>, i: nat, j: nat)
    requires Exec(nSegments, Init(readyFd), es).Running? && i < j < |es|
    ensures !(es[i].Timeout? && es[j].Timeout?) && !(es[i].SignalReady? && es[j].SignalReady?)
  {
    RunsInside(nSegments, readyFd, es, j + 1);
    var part := es[..j + 1];
    assert part[..j] == es[..j] && part[j] == es[j];
    FlagsFollowEvents(nSegments, readyFd, es[..j]);
    var s := Exec(nSegments, Init(readyFd), es[..j]).s;
    assert Enabled(s, es[j]);
    hide Exec, Step;
    assert es[..j][i] == es[i];
  }

  /** Every prefix of a run is a run. */
  lemma {:induction false} RunsInside(nSegments: int, readyFd: int, es: seq<Event>, n: nat)
    requires Exec(nSegments, Init(readyFd), es).Running? && n <= |es|
    ensures Exec(nSegments, Init(readyFd), es[..n]).Running?
    decreases |es|
  {
    if n == |es| {
      assert es[..n] == es;
    } else {
      RunsInside(nSegments, readyFd, es[..|es| - 1], n);
      assert es[..|es| - 1][..n] == es[..n];
    }
  }

  /** The decoder a file was opened with is that of some event of the run. */
  ghost predicate DecoderOf(es: seq<Event>, dec: Decoder) {
    exists i :: 0 <= i < |es| && !es[i].SignalReady? && es[i].dec == dec
  }

  lemma StepDecoders(s: State, e: Event, f: int)
    requires Enabled(s, e) && Step(s, e).Running?
    ensures var d := Step(s, e).s.FileOf(f).dec;
            d.Some? ==> d == s.FileOf(f).dec || (!e.SignalReady? && d.value == e.dec)
  {
    hide TaskRecv, TaskWrite;
    match e
    case Recv(pkt, open, dec) => RecvDecoders(s, pkt, open, dec, f);
    case Timeout(_, _) =>
    case Writable(n, open, dec) => WriteDecoders(s, n, open, dec, f);
    case SignalReady =>
  }

  lemma RecvDecoders(s: State, pkt: Packet, open: int, dec: Decoder, f: int)
    ensures var r := TaskRecv(s, pkt, open, dec);
            r.Running? && r.s.FileOf(f).dec.Some? ==>
              r.s.FileOf(f).dec == s.FileOf(f).dec || r.s.FileOf(f).dec.value == dec
  {
    hide Advance;
    var g, tos := pkt.header.toi, pkt.header.tos;
    if g !in s.segs && DeriveParams(Int32Nat(tos)).Some? {
      AdvanceDecoders(Begin(s, g, tos, DeriveParams(Int32Nat(tos)).value), g, open, dec, f);
    }
  }

  lemma AdvanceDecoders(s: State, g: int, open: int, dec: Decoder, f: int)
    ensures var d := Advance(s, g, open, dec).FileOf(f).dec;
            d.Some? ==> d == s.FileOf(f).dec || d.value == dec
  {
  }

  lemma WriteDecoders(s: State, n: int, open: int, dec: Decoder, f: int)
    requires CanWrite(s, n)
    ensures var s' := TaskWrite(s, n, open, dec);
            s'.FileOf(f).dec.Some? ==> s'.FileOf(f).dec == s.FileOf(f).dec || s'.FileOf(f).dec.value == dec
  {
  }

  lemma {:induction false} OpenedWithItsDecoder(nSegments: int, readyFd: int, es: seq<Event>, f: int)
    ensures var r := Exec(nSegments, Init(readyFd), es);
            r.Running? && r.s.FileOf(f).dec.Some? ==> DecoderOf(es, r.s.FileOf(f).dec.value)
  {
    if |es| > 0 && Exec(nSegments, Init(readyFd), es).Running? {
      var front, e := es[..|es| - 1], es[|es| - 1];
      OpenedWithItsDecoder(nSegments, readyFd, front, f);
      var s, s' := Exec(nSegments, Init(readyFd), front).s, Exec(nSegments, Init(readyFd), es).s;
      StepDecoders(s, e, f);
      hide Exec, Step, Enabled;
      if s'.FileOf(f).dec.Some? {
        DecoderSnoc(es, s'.FileOf(f).dec.value);
      }
    }
  }

  lemma DecoderSnoc(es: seq<Event>, dec: Decoder)
    requires |es| > 0
    ensures DecoderOf(es[..|es| - 1], dec) ==> DecoderOf(es, dec)
    ensures !es[|es| - 1].SignalReady? && es[|es| - 1].dec == dec ==> DecoderOf(es, dec)
  {
    var front := es[..|es| - 1];
    if i :| 0 <= i < |front| && !front[i].SignalReady? && front[i].dec == dec {
      assert es[i].dec == dec;
    }
  }
}
