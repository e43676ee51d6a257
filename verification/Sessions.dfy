/** Many files through the sender, the channel and the receiver's event loop. */
module Sessions {
  import opened Wrappers
  import opened Bytes
  import opened ParamDeriv
  import opened ProbeTable
  import opened SymbolStore
  import opened Segments
  import opened Sender
  import opened Receiver
  import opened FileHistory
  import opened ReceiverInvariant
  import opened ReceiverRuns
  import opened ReceiverSteps
  import opened EndToEnd

  /** The sender's side of a session. */
  datatype Session = Session(files: seq<seq<Byte>>, nExtra: seq<int>, enc: Encoder) {
    ghost predicate Valid() {
      && |files| == |nExtra| && |files| <= 0x1_0000
      && Systematic(enc, PD_T)
      && forall f :: 0 <= f < |files| ==> GoodFile(files[f]) && nExtra[f] <= MAX_REPAIR
    }

    ghost predicate Sends(pkt: Packet, f: int)
      requires Valid()
    {
      0 <= f < |files| && pkt in PacketsOf(files[f], f, nExtra[f], enc)
    }

    /** Every packet received is one that was sent for its file, and every decoder keeps the
        codec's promise. */
    ghost predicate Honest(e: Event)
      requires Valid()
    {
      && (e.Recv? ==> Sends(e.pkt, e.pkt.header.toi))
      && (!e.SignalReady? ==> Sound(e.dec, enc))
    }

    ghost function Size(): int -> UInt32
      requires Valid()
    {
      f => if 0 <= f < |files| && |files[f]| < 0x1_0000_0000 then |files[f]| else 0
    }
  }

  lemma SentSizes(ss: Session, pkt: Packet)
    requires ss.Valid() && ss.Sends(pkt, pkt.header.toi)
    ensures SizeHonest(pkt, ss.Size())
  {
    var f := pkt.header.toi;
    ReceivedHonest(ss.files[f], f, ss.nExtra[f], ss.enc, [pkt]);
    assert [pkt][0] == pkt;
  }

  /** A file's history has its size, consists of packets sent for it and was decoded
      faithfully. */
  ghost predicate HonestFile(ss: Session, file: FileLog, f: int)
    requires ss.Valid()
  {
    && 0 <= f < |ss.files| && file.tos == |ss.files[f]|
    && (forall i :: 0 <= i < |file.pkts| ==> ss.Sends(file.pkts[i], f))
    && (file.dec.Some? ==> Sound(file.dec.value, ss.enc))
  }

  ghost predicate HonestFiles(ss: Session, s: State)
    requires ss.Valid()
  {
    forall f :: f in s.files ==> HonestFile(ss, s.files[f], f)
  }

  ghost predicate Filed(s: State) {
    forall f :: f in s.segs ==> f in s.files
  }

  lemma StartWriteHonest(ss: Session, s: State, open: int, dec: Decoder)
    requires ss.Valid() && Filed(s) && HonestFiles(ss, s) && Sound(dec, ss.enc)
    ensures HonestFiles(ss, StartWrite(s, open, dec))
  {
  }

  lemma TaskWriteHonest(ss: Session, s: State, n: int, open: int, dec: Decoder)
    requires ss.Valid() && Filed(s) && HonestFiles(ss, s) && Sound(dec, ss.enc) && CanWrite(s, n)
    ensures HonestFiles(ss, TaskWrite(s, n, open, dec))
  {
    var (seg', more) := s.segs[s.min].WriteMore(n, dec);
    var file' := s.FileOf(s.min).(out := s.FileOf(s.min).out + s.segs[s.min].Written(n), failed := s.FileOf(s.min).failed || n < 0);
    if !more {
      StartWriteHonest(ss, Leave(s, file'), open, dec);
    }
  }

  lemma DeliverHonest(ss: Session, s: State, pkt: Packet)
    requires ss.Valid() && Filed(s) && HonestFiles(ss, s) && ss.Sends(pkt, pkt.header.toi)
    ensures Deliver(s, pkt).Running? ==> HonestFiles(ss, Deliver(s, pkt).s)
  {
  }

  lemma TaskRecvHonest(ss: Session, s: State, pkt: Packet, open: int, dec: Decoder)
    requires ss.Valid() && Filed(s) && HonestFiles(ss, s) && Sound(dec, ss.enc) && ss.Sends(pkt, pkt.header.toi)
    ensures TaskRecv(s, pkt, open, dec).Running? ==> HonestFiles(ss, TaskRecv(s, pkt, open, dec).s)
  {
    hide Deliver;
    var f := pkt.header.toi;
    SentSizes(ss, pkt);
    if f in s.segs {
      DeliverHonest(ss, s, pkt);
    } else if DeriveParams(Int32Nat(pkt.header.tos)).Some? {
      var b := Begin(s, f, pkt.header.tos, DeriveParams(Int32Nat(pkt.header.tos)).value);
      assert Filed(b) && HonestFiles(ss, b);
      StartWriteHonest(ss, b.(recvFileNbr := f, segs := MarkReady(b.segs, f)), open, dec);
      DeliverHonest(ss, Advance(b, f, open, dec), pkt);
    }
  }

  lemma StepHonest(ss: Session, s: State, e: Event)
    requires ss.Valid() && Filed(s) && HonestFiles(ss, s) && ss.Honest(e) && Enabled(s, e)
    ensures Step(s, e).Running? ==> HonestFiles(ss, Step(s, e).s)
  {
    hide TaskRecv, TaskWrite, StartWrite;
    match e
    case Recv(pkt, open, dec) => TaskRecvHonest(ss, s, pkt, open, dec);
    case Timeout(open, dec) => StartWriteHonest(ss, s.(writeOk := true), open, dec);
    case Writable(n, open, dec) => TaskWriteHonest(ss, s, n, open, dec);
    case SignalReady =>
  }

  ghost predicate AllHonest(ss: Session, es: seq<Event>)
    requires ss.Valid()
  {
    forall i :: 0 <= i < |es| ==> ss.Honest(es[i])
  }

  lemma {:induction false} ExecHonest(ss: Session, readyFd: int, es: seq<Event>)
    requires ss.Valid() && AllHonest(ss, es)
    ensures var r := Exec(|ss.files|, Init(readyFd), es); r.Running? ==> HonestFiles(ss, r.s)
  {
    if |es| > 0 {
      var front := es[..|es| - 1];
      ExecHonest(ss, readyFd, front);
      ExecInv(|ss.files|, readyFd, front);
      if Exec(|ss.files|, Init(readyFd), es).Running? {
        StepHonest(ss, Exec(|ss.files|, Init(readyFd), front).s, es[|es| - 1]);
      }
    }
  }

  /** The store of file f gave back a complete source block when the file was opened. */
  ghost predicate Recovered(file: FileLog, f: int) {
    GoodLog(file, f) && file.dec.Some? && StoreOf(file, f).GetData(file.dec.value).1
  }

  /** A file is recovered exactly if its packets were enough, and then its content is the
      file that was sent. */
  lemma RecoveredContent(ss: Session, file: FileLog, f: int)
    requires ss.Valid() && 0 <= f < |ss.files| && HonestFile(ss, file, f)
    requires GoodLog(file, f) && file.dec.Some?
    ensures Recovered(file, f) <==> Enough(ss.files[f], file.pkts, file.dec.value)
    ensures Recovered(file, f) ==> ContentOf(file, f) == ss.files[f]
  {
    assert Through(file.pkts, PacketsOf(ss.files[f], f, ss.nExtra[f], ss.enc)) by {
      forall i | 0 <= i < |file.pkts|
        ensures file.pkts[i] in PacketsOf(ss.files[f], f, ss.nExtra[f], ss.enc)
      {
        assert ss.Sends(file.pkts[i], f);
      }
    }
    hide Enough;
    StoredGivesFile(ss.files[f], f, ss.nExtra[f], ss.enc, file.dec.value, file.pkts);
    assert Stored(ss.files[f], file.pkts) == StoreOf(file, f);
  }

  // ----- every run, file by file

  /** The packets are enough for the decoder, if there was one, that the file was opened
      with. */
  ghost predicate EnoughFor(sent: seq<Byte>, pkts: seq<Packet>, dec: Option<Decoder>)
    requires GoodFile(sent)
  {
    Complete(sent, pkts) || (dec.Some? && Enough(sent, pkts, dec.value))
  }

  /** Whatever the order of honest packets and whatever becomes of the other files: a file
      of which enough was taken in is written as it was sent, cut off while it is the head or
      if a write failed; and a file left behind without a failed write takes up its whole
      length in the output, enough or not. */
  lemma {:induction false} FilesArrive(ss: Session, readyFd: int, es: seq<Event>, f: nat)
    requires ss.Valid() && AllHonest(ss, es) && f < |ss.files|
    ensures var r := Exec(|ss.files|, Init(readyFd), es);
            r.Running? ==>
              var file := r.s.FileOf(f);
              && (f < r.s.min && !file.failed ==> |file.out| == |ss.files[f]|)
              && (EnoughFor(ss.files[f], Accepted(|ss.files|, readyFd, es, f), file.dec) ==>
                    && file.out <= ss.files[f]
                    && (f < r.s.min && !file.failed ==> file.out == ss.files[f]))
  {
    var r := Exec(|ss.files|, Init(readyFd), es);
    if r.Running? {
      ExecInv(|ss.files|, readyFd, es);
      ExecHonest(ss, readyFd, es);
      LogIsAccepted(|ss.files|, readyFd, es, f);
      OutputsArePrefixes(|ss.files|, readyFd, es, f);
      if f in r.s.files {
        assert HonestFile(ss, r.s.files[f], f);
        FileContent(ss, r.s.files[f], f);
      }
      if f < r.s.min {
        OpenedHistory(r.s, f);
      }
    }
  }

  lemma FileContent(ss: Session, file: FileLog, f: int)
    requires ss.Valid() && HonestFile(ss, file, f)
    ensures GoodLog(file, f) && file.dec.Some? ==> |FinalContent(file, f)| == |ss.files[f]|
    ensures EnoughFor(ss.files[f], file.pkts, file.dec) ==> FinalContent(file, f) <= ss.files[f]
    ensures EnoughFor(ss.files[f], file.pkts, file.dec) && GoodLog(file, f) && file.dec.Some? ==>
              FinalContent(file, f) == ss.files[f]
  {
    if GoodLog(file, f) && file.dec.Some? {
      ContentSize(file, f);
      RecoveredContent(ss, file, f);
    }
  }

  // ----- every run, as a whole

  /** The stores of all files that were opened so far gave back complete source blocks. */
  ghost predicate AllRecovered(s: State) {
    && (forall f :: 0 <= f < s.min ==> Recovered(s.FileOf(f), f))
    && (s.outFd != -1 ==> Recovered(s.FileOf(s.min), s.min))
  }

  /** The output is the first files in full and the next one cut off somewhere. */
  ghost predicate OutputIsFiles(files: seq<seq<Byte>>, s: State) {
    && 0 <= s.min <= |files|
    && Output(s) == Join(files[..s.min]) + s.FileOf(s.min).out
    && Output(s) <= Join(files)
  }

  lemma RecoveredFinal(ss: Session, s: State, f: nat)
    requires ss.Valid() && PastInv(s.min, s.files) && HonestFiles(ss, s) && AllRecovered(s) && f < s.min
    ensures f < |ss.files| && FinalContent(s.FileOf(f), f) == ss.files[f]
  {
    assert DoneInv(s.files[f], f);
    assert HonestFile(ss, s.files[f], f);
    assert Recovered(s.FileOf(f), f);
    RecoveredContent(ss, s.files[f], f);
  }

  lemma RecoveredOutput(ss: Session, s: State)
    requires ss.Valid() && PastInv(s.min, s.files) && HonestFiles(ss, s) && AllRecovered(s)
    requires s.outFd != -1 ==> s.min in s.files
    requires 0 <= s.min && (s.min < |ss.files| || |ss.files| == 0 == s.min)
    requires Output(s) == Contents(s, s.min) + s.FileOf(s.min).out
    requires if s.outFd != -1 then s.FileOf(s.min).out <= FinalContent(s.FileOf(s.min), s.min)
             else s.FileOf(s.min).out == []
    ensures OutputIsFiles(ss.files, s)
  {
    hide Recovered, GoodLog, ContentOf, WindowInv, ControlInv;
    forall f | 0 <= f < s.min
      ensures ContentList(s, s.min)[f] == ss.files[f]
    {
      RecoveredFinal(ss, s, f);
    }
    assert ContentList(s, s.min) == ss.files[..s.min];
    if s.outFd != -1 {
      assert HonestFile(ss, s.files[s.min], s.min);
    }
    HeadWithin(ss, s);
  }

  /** The output of file f is a prefix of the sent file, and all of it once f is behind. */
  ghost predicate AsSent(files: seq<seq<Byte>>, s: State, f: nat)
    requires f < |files|
  {
    s.FileOf(f).out <= files[f] && (f < s.min ==> s.FileOf(f).out == files[f])
  }

  lemma {:induction false} RecoveredSession(ss: Session, readyFd: int, es: seq<Event>)
    requires ss.Valid() && AllHonest(ss, es) && NoFailedWrite(es)
    ensures var r := Exec(|ss.files|, Init(readyFd), es);
            r.Running? && AllRecovered(r.s) ==> OutputIsFiles(ss.files, r.s)
  {
    hide Inv, ControlInv, FilesInv, AllRecovered, OutputIsFiles, HonestFiles, Recovered;
    var r := Exec(|ss.files|, Init(readyFd), es);
    if r.Running? && AllRecovered(r.s) {
      HonestKnown(ss, es);
      HeadKnown(|ss.files|, readyFd, es);
      WholeRunOutput(|ss.files|, readyFd, es);
      ExecHonest(ss, readyFd, es);
      OpenHasFile(r.s);
      RecoveredOutput(ss, r.s);
    }
  }

  lemma OpenHasFile(s: State)
    requires Inv(s)
    ensures PastInv(s.min, s.files) && (s.outFd != -1 ==> s.min in s.files)
  {
  }

  lemma OpenedHistory(s: State, f: nat)
    requires Inv(s) && (f < s.min || (f == s.min && s.outFd != -1))
    ensures f in s.files && GoodLog(s.files[f], f) && s.files[f].dec.Some?
  {
    if f < s.min {
      assert DoneInv(s.files[f], f);
    } else {
      assert SegInv(s.segs[f], s.files[f], f);
    }
  }

  /** The whole pipeline, said of the run alone: honest packets, whatever is lost, repeated
      or reordered, whenever writes, timeouts and opens happen, but no failed write. In-order
      packets never abort the receiver. Each file of which enough was taken in comes out as it
      was sent; and if that is so of every file opened so far, the output is the sent files
      one after the other, the last one cut off somewhere. */
  lemma {:induction false} SessionArrives(ss: Session, readyFd: int, es: seq<Event>)
    requires ss.Valid() && AllHonest(ss, es) && NoFailedWrite(es)
    ensures var r := Exec(|ss.files|, Init(readyFd), es);
            && (InOrder(es) ==> !r.Aborted?)
            && (r.Running? ==>
                  && (forall f: nat :: f < |ss.files| && Served(ss, readyFd, es, r.s, f) ==> AsSent(ss.files, r.s, f))
                  && (AllServed(ss, readyFd, es, r.s) ==> OutputIsFiles(ss.files, r.s)))
  {
    hide AllRecovered, OutputIsFiles, AsSent, Recovered, Served;
    var r := Exec(|ss.files|, Init(readyFd), es);
    if InOrder(es) {
      HonestSizes(ss, es);
      InOrderNeverAborts(|ss.files|, readyFd, es, ss.Size());
    }
    forall f: nat | f < |ss.files| && r.Running? && Served(ss, readyFd, es, r.s, f)
      ensures AsSent(ss.files, r.s, f)
    {
      ServedAsSent(ss, readyFd, es, f);
    }
    if r.Running? && AllServed(ss, readyFd, es, r.s) {
      ServedMeansRecovered(ss, readyFd, es);
      RecoveredSession(ss, readyFd, es);
    }
  }

  /** Of file f the packets taken in were enough. */
  ghost predicate Served(ss: Session, readyFd: int, es: seq<Event>, s: State, f: nat)
    requires ss.Valid() && f < |ss.files|
  {
    EnoughFor(ss.files[f], Accepted(|ss.files|, readyFd, es, f), s.FileOf(f).dec)
  }

  lemma ServedAsSent(ss: Session, readyFd: int, es: seq<Event>, f: nat)
    requires ss.Valid() && AllHonest(ss, es) && NoFailedWrite(es) && f < |ss.files|
    requires var r := Exec(|ss.files|, Init(readyFd), es); r.Running? && Served(ss, readyFd, es, r.s, f)
    ensures AsSent(ss.files, Exec(|ss.files|, Init(readyFd), es).s, f)
  {
    hide Inv, EnoughFor, Accepted;
    ExecNoneFailed(|ss.files|, readyFd, es);
    FilesArrive(ss, readyFd, es, f);
  }

  /** Of every file opened so far the packets taken in were enough. */
  ghost predicate AllServed(ss: Session, readyFd: int, es: seq<Event>, s: State)
    requires ss.Valid()
  {
    forall f: nat :: f < |ss.files| && (f < s.min || (f == s.min && s.outFd != -1)) ==> Served(ss, readyFd, es, s, f)
  }

  lemma ServedMeansRecovered(ss: Session, readyFd: int, es: seq<Event>)
    requires ss.Valid() && AllHonest(ss, es)
    requires var r := Exec(|ss.files|, Init(readyFd), es); r.Running? && AllServed(ss, readyFd, es, r.s)
    ensures AllRecovered(Exec(|ss.files|, Init(readyFd), es).s)
  {
    var s := Exec(|ss.files|, Init(readyFd), es).s;
    ExecInv(|ss.files|, readyFd, es);
    ExecHonest(ss, readyFd, es);
    hide Inv, HonestFiles, Served, Recovered, GoodLog, Exec, ControlInv, FilesInv;
    forall f: nat | f <= s.min && (f < s.min || s.outFd != -1)
      ensures Recovered(s.FileOf(f), f)
    {
      FileRecovered(ss, readyFd, es, f);
    }
  }

  lemma FileRecovered(ss: Session, readyFd: int, es: seq<Event>, f: nat)
    requires ss.Valid() && AllHonest(ss, es)
    requires var r := Exec(|ss.files|, Init(readyFd), es);
             && r.Running? && Inv(r.s) && HonestFiles(ss, r.s)
             && AllServed(ss, readyFd, es, r.s)
             && (f < r.s.min || (f == r.s.min && r.s.outFd != -1))
    ensures Recovered(Exec(|ss.files|, Init(readyFd), es).s.FileOf(f), f)
  {
    var s := Exec(|ss.files|, Init(readyFd), es).s;
    OpenedHistory(s, f);
    assert HonestFile(ss, s.files[f], f);
    hide Inv, Complete, Recovered, GoodLog, Accepted, Exec;
    LogIsAccepted(|ss.files|, readyFd, es, f);
    assert Served(ss, readyFd, es, s, f);
    RecoveredContent(ss, s.files[f], f);
  }

  // ----- the drain delivers

  /** Every symbol id that a header can name for a file is below this. */
  const ID_LIMIT := 50000 + 0x40_0000

  /** The codec succeeds whenever it has as many distinct symbols as the block. */
  ghost predicate Able(dec: Decoder) {
    forall k: nat, entries: seq<Entry> :: |entries| >= k && Distinct(Ids(entries)) && Named(entries) ==>
      dec(k, PD_T, entries).Decoded?
  }

  ghost predicate Named(entries: seq<Entry>) {
    forall i :: 0 <= i < |entries| ==> entries[i].id < ID_LIMIT
  }

  lemma KeptAreNamed(file: seq<Byte>, pkts: seq<Packet>)
    requires GoodFile(file) && Short(pkts)
    ensures Named(Stored(file, pkts).entries)
  {
    var k, arrivals := FileParams(file).KLarge, Arrivals(FileParams(file), pkts);
    hide CodingParams.Valid;
    CollectKeepsFirst(k, PD_T, arrivals);
    var entries, ids := Stored(file, pkts).entries, ArrivalIds(arrivals);
    forall i | 0 <= i < |entries|
      ensures entries[i].id < ID_LIMIT
    {
      assert Ids(entries)[i] == Firsts(ids)[i];
      assert Firsts(ids)[i] in Firsts(ids);
      var j :| 0 <= j < |ids| && ids[j] == entries[i].id;
      assert ids[j] == SymbolId(FileParams(file), pkts[j].header);
    }
  }

  ghost predicate AllAble(es: seq<Event>) {
    forall i :: 0 <= i < |es| && !es[i].SignalReady? ==> Able(es[i].dec)
  }

  /** Of every file below the newest one begun the packets taken in suffice: they are
      complete, or plenty for an able codec. */
  ghost predicate SufficeBelow(ss: Session, readyFd: int, es: seq<Event>, newest: int, able: bool)
    requires ss.Valid()
  {
    forall f :: 0 <= f < newest && f < |ss.files| ==>
      Suffice(ss.files[f], Accepted(|ss.files|, readyFd, es, f), able)
  }

  ghost predicate Suffice(file: seq<Byte>, pkts: seq<Packet>, able: bool)
    requires GoodFile(file)
  {
    Complete(file, pkts) || (able && Plenty(file, pkts))
  }

  lemma NotEmpty(file: seq<Byte>, pkts: seq<Packet>, able: bool)
    requires GoodFile(file) && Suffice(file, pkts, able)
    ensures pkts != []
  {
    hide CompleteBy, CodingParams.Valid;
    var ids, k := PacketIds(file, pkts), FileParams(file).KLarge;
    if p :| CompleteBy(ids, k, p) {
      SomethingCame(ids, k, p);
    }
  }

  lemma SomethingCame(ids: seq<nat>, k: nat, p: nat)
    requires k > 0 && CompleteBy(ids, k, p)
    ensures |ids| > 0
  {
    assert 0 in ids[..p];
  }

  /** Every file below the newest has begun, and is in the window if it was not written yet. */
  lemma AllBegun(ss: Session, readyFd: int, es: seq<Event>, able: bool)
    requires ss.Valid() && AllHonest(ss, es)
    requires var r := Exec(|ss.files|, Init(readyFd), es);
             r.Running? && SufficeBelow(ss, readyFd, es, r.s.recvFileNbr, able)
    ensures var s := Exec(|ss.files|, Init(readyFd), es).s;
            && (s.recvFileNbr < |ss.files| || s.recvFileNbr == -1)
            && forall f :: s.min <= f < s.recvFileNbr ==> f in s.segs
  {
    var s := Exec(|ss.files|, Init(readyFd), es).s;
    HonestKnown(ss, es);
    NewestKnown(|ss.files|, readyFd, es);
    ExecNoStrays(|ss.files|, readyFd, es);
    forall f | s.min <= f < s.recvFileNbr
      ensures f in s.segs
    {
      LogIsAccepted(|ss.files|, readyFd, es, f);
      NotEmpty(ss.files[f], Accepted(|ss.files|, readyFd, es, f), able);
      assert f in s.files;
    }
  }

  ghost predicate AllOpen(es: seq<Event>) {
    forall i :: 0 <= i < |es| ==> OpensWell(es[i])
  }

  /** Delivery: in-order honest packets, opens and writes that succeed, a deadline that has
      passed, and enough packets of every file below the newest. Then no more positive writes
      are possible than bytes are pending, one is possible while a file is open, and when
      none is open the output is exactly all the files below the newest, one after the
      other. */
  lemma {:induction false} SessionDelivers(ss: Session, readyFd: int, es: seq<Event>, writes: seq<Event>, able: bool)
    requires ss.Valid() && AllHonest(ss, es + writes) && InOrder(es) && NoFailedWrite(es) && AllOpen(es)
    requires TimedOut(es) && PositiveWrites(writes) && (able ==> AllAble(es + writes))
    requires var r := Exec(|ss.files|, Init(readyFd), es);
             r.Running? && SufficeBelow(ss, readyFd, es, r.s.recvFileNbr, able)
    ensures var s := Exec(|ss.files|, Init(readyFd), es).s;
            var r := Exec(|ss.files|, Init(readyFd), es + writes);
            r.Running? ==>
              && |writes| <= Pending(s)
              && (r.s.outFd != -1 ==> exists n :: n > 0 && CanWrite(r.s, n))
              && (r.s.outFd == -1 ==>
                    && 0 <= r.s.min == s.recvFileNbr < |ss.files|
                    && Output(r.s) == Join(ss.files[..s.recvFileNbr]))
  {
    hide SufficeBelow, AllAble;
    var all, s := es + writes, Exec(|ss.files|, Init(readyFd), es).s;
    PrefixHonest(ss, es, writes);
    ExecInv(|ss.files|, readyFd, es);
    FlagsFollowEvents(|ss.files|, readyFd, es);
    HonestSizes(ss, es);
    InOrderNeverAborts(|ss.files|, readyFd, es, ss.Size());
    AllBegun(ss, readyFd, es, able);
    InvShape(s);
    NewestIsBlocked(s, ss.Size());
    ExecGoesOn(|ss.files|, Init(readyFd), es, writes);
    DrainEndsAtBlocked(|ss.files|, s, writes);
    var r := Exec(|ss.files|, Init(readyFd), all);
    if r.Running? && r.s.outFd == -1 {
      WritesKeepOrder(es, writes);
      DrainedOutput(ss, readyFd, es, writes, s.recvFileNbr, able);
    }
  }

  lemma PrefixHonest(ss: Session, es: seq<Event>, more: seq<Event>)
    requires ss.Valid() && AllHonest(ss, es + more)
    ensures AllHonest(ss, es)
  {
    forall i | 0 <= i < |es|
      ensures ss.Honest(es[i])
    {
      assert (es + more)[i] == es[i];
    }
  }

  lemma WritesKeepOrder(es: seq<Event>, writes: seq<Event>)
    requires InOrder(es) && NoFailedWrite(es) && PositiveWrites(writes)
    ensures InOrder(es + writes) && NoFailedWrite(es + writes) && NoPackets(writes)
  {
  }

  lemma DrainedOutput(ss: Session, readyFd: int, es: seq<Event>, writes: seq<Event>, newest: int, able: bool)
    requires ss.Valid() && AllHonest(ss, es + writes) && NoFailedWrite(es + writes)
    requires able ==> AllAble(es + writes)
    requires NoPackets(writes) && SufficeBelow(ss, readyFd, es, newest, able) && 0 <= newest < |ss.files|
    requires var r := Exec(|ss.files|, Init(readyFd), es + writes);
             r.Running? && r.s.outFd == -1 && r.s.min == newest
    ensures Output(Exec(|ss.files|, Init(readyFd), es + writes).s) == Join(ss.files[..newest])
  {
    var all := es + writes;
    var s := Exec(|ss.files|, Init(readyFd), all).s;
    forall f: nat | f < newest
      ensures Served(ss, readyFd, all, s, f)
    {
      NothingMoreAccepted(|ss.files|, readyFd, es, writes, f);
      AbleServes(ss, readyFd, all, f, able);
    }
    hide Served;
    assert AllServed(ss, readyFd, all, s);
    SessionArrives(ss, readyFd, all);
    WholeRunOutput(|ss.files|, readyFd, all);
  }

  /** What suffices for an able codec is enough for the one that a file behind was opened
      with. */
  lemma AbleServes(ss: Session, readyFd: int, es: seq<Event>, f: nat, able: bool)
    requires ss.Valid() && f < |ss.files| && AllHonest(ss, es)
    requires able ==> AllAble(es)
    requires Suffice(ss.files[f], Accepted(|ss.files|, readyFd, es, f), able)
    requires var r := Exec(|ss.files|, Init(readyFd), es); r.Running? && f < r.s.min
    ensures Served(ss, readyFd, es, Exec(|ss.files|, Init(readyFd), es).s, f)
  {
    var s, pkts := Exec(|ss.files|, Init(readyFd), es).s, Accepted(|ss.files|, readyFd, es, f);
    if !Complete(ss.files[f], pkts) {
      ExecInv(|ss.files|, readyFd, es);
      OpenedHistory(s, f);
      OpenedWithItsDecoder(|ss.files|, readyFd, es, f);
      LogIsAccepted(|ss.files|, readyFd, es, f);
      hide Exec, Accepted, Inv, Complete;
      var dec := s.files[f].dec.value;
      var i :| 0 <= i < |es| && !es[i].SignalReady? && es[i].dec == dec;
      assert Able(dec) && Short(pkts);
      PlentyIsEnough(ss.files[f], pkts, dec);
    }
  }

  lemma PlentyIsEnough(file: seq<Byte>, pkts: seq<Packet>, dec: Decoder)
    requires GoodFile(file) && Short(pkts) && Plenty(file, pkts) && Able(dec)
    ensures Enough(file, pkts, dec)
  {
    hide CodingParams.Valid, Complete, Named;
    var k, arrivals := FileParams(file).KLarge, Arrivals(FileParams(file), pkts);
    EnoughKept(k, PD_T, arrivals);
    CollectValid(k, PD_T, arrivals);
    KeptAreNamed(file, pkts);
  }

  // ----- the drain can always be finished

  /** From any state in which files can be written, some writes close all that can be. */
  lemma {:induction false} DrainExists(nSegments: int, s: State, open: int, dec: Decoder) returns (writes: seq<Event>)
    requires Inv(s) && Awake(s) && s.writeOk && open >= 0 && 0 <= s.recvFileNbr < nSegments
    ensures PositiveWrites(writes) && OnlyDecoder(writes, dec)
    ensures var r := Exec(nSegments, s, writes); r.Running? && r.s.outFd == -1
    decreases Pending(s)
  {
    if s.outFd == -1 {
      writes := [];
    } else {
      var n := s.segs[s.min].Room();
      OpenFileCanBeWritten(s, n);
      var e := Writable(n, open, dec);
      var s' := TaskWrite(s, n, open, dec);
      StepInv(s, e);
      StepNewest(s, e);
      WriteDrains(s, n, open, dec);
      PendingNatural(s');
      hide Inv, Awake, TaskWrite, Pending;
      var rest := DrainExists(nSegments, s', open, dec);
      writes := [e] + rest;
      OneEvent(nSegments, s, e);
      ExecGoesOn(nSegments, s, [e], rest);
      MoreWrites(e, rest, dec);
    }
  }

  ghost predicate OnlyDecoder(es: seq<Event>, dec: Decoder) {
    forall i :: 0 <= i < |es| ==> !es[i].SignalReady? && es[i].dec == dec
  }

  lemma OneEvent(nSegments: int, s: State, e: Event)
    requires s.min != nSegments && Enabled(s, e)
    ensures Exec(nSegments, s, [e]) == Step(s, e)
  {
    assert [e][..0] == [];
    assert Exec(nSegments, s, []) == Running(s);
  }

  lemma MoreWrites(e: Event, rest: seq<Event>, dec: Decoder)
    requires e.Writable? && e.n > 0 && e.open >= 0 && e.dec == dec
    requires PositiveWrites(rest) && OnlyDecoder(rest, dec)
    ensures PositiveWrites([e] + rest) && OnlyDecoder([e] + rest, dec)
  {
  }

  /** However a run of in-order honest packets went, if enough came of every file below the
      newest, it can go on without further packets to a state in which the output is exactly
      those files: with the deadline, if it has not passed, and writes. */
  lemma {:induction false} SessionCanDeliver(ss: Session, readyFd: int, es: seq<Event>, able: bool, open: int, dec: Decoder)
    returns (more: seq<Event>)
    requires ss.Valid() && AllHonest(ss, es) && InOrder(es) && NoFailedWrite(es) && AllOpen(es)
    requires open >= 0 && Sound(dec, ss.enc) && (able ==> AllAble(es) && Able(dec))
    requires var r := Exec(|ss.files|, Init(readyFd), es);
             r.Running? && r.s.recvFileNbr >= 0 && SufficeBelow(ss, readyFd, es, r.s.recvFileNbr, able)
    ensures NoPackets(more)
    ensures var s := Exec(|ss.files|, Init(readyFd), es).s;
            var r := Exec(|ss.files|, Init(readyFd), es + more);
            r.Running? && s.recvFileNbr <= |ss.files| && Output(r.s) == Join(ss.files[..s.recvFileNbr])
  {
    FlagsFollowEvents(|ss.files|, readyFd, es);
    hide Exec, SufficeBelow, Able, AllAble, Sound, AllHonest, InOrder, NoFailedWrite, AllOpen, NoPackets, TimedOut;
    if TimedOut(es) {
      more := Finish(ss, readyFd, es, able, open, dec);
    } else {
      var es' := es + [Timeout(open, dec)];
      DeadlinePasses(ss, readyFd, es, able, open, dec);
      var writes := Finish(ss, readyFd, es', able, open, dec);
      more := [Timeout(open, dec)] + writes;
      MorePackets(Timeout(open, dec), writes);
      assert es + more == es' + writes;
    }
  }

  lemma MorePackets(e: Event, more: seq<Event>)
    requires !e.Recv? && NoPackets(more)
    ensures NoPackets([e] + more)
  {
  }

  /** The deadline can pass, and changes none of what the delivery asks for. */
  lemma DeadlinePasses(ss: Session, readyFd: int, es: seq<Event>, able: bool, open: int, dec: Decoder)
    requires ss.Valid() && AllHonest(ss, es) && InOrder(es) && NoFailedWrite(es) && AllOpen(es)
    requires open >= 0 && Sound(dec, ss.enc) && (able ==> AllAble(es) && Able(dec))
    requires var r := Exec(|ss.files|, Init(readyFd), es);
             && r.Running? && r.s.recvFileNbr >= 0 && !r.s.writeOk
             && SufficeBelow(ss, readyFd, es, r.s.recvFileNbr, able)
    ensures var es' := es + [Timeout(open, dec)];
            && AllHonest(ss, es') && InOrder(es') && NoFailedWrite(es') && AllOpen(es') && TimedOut(es')
            && (able ==> AllAble(es'))
            && var r := Exec(|ss.files|, Init(readyFd), es');
               && r.Running? && r.s.recvFileNbr == Exec(|ss.files|, Init(readyFd), es).s.recvFileNbr
               && SufficeBelow(ss, readyFd, es', r.s.recvFileNbr, able)
  {
    hide Exec, Sound, Able, AllHonest, InOrder, NoFailedWrite, AllOpen, AllAble, SufficeBelow;
    var e := Timeout(open, dec);
    DeadlineRuns(ss, readyFd, es, open, dec);
    EventsSnoc(es, e);
    DeadlineFits(ss, es, able, open, dec);
    StillSuffice(ss, readyFd, es, e, Exec(|ss.files|, Init(readyFd), es).s.recvFileNbr, able);
    hide TimedOut;
  }

  lemma DeadlineFits(ss: Session, es: seq<Event>, able: bool, open: int, dec: Decoder)
    requires ss.Valid() && AllHonest(ss, es) && InOrder(es) && NoFailedWrite(es) && AllOpen(es)
    requires open >= 0 && Sound(dec, ss.enc) && (able ==> AllAble(es) && Able(dec))
    ensures var es' := es + [Timeout(open, dec)];
            && AllHonest(ss, es') && InOrder(es') && NoFailedWrite(es') && AllOpen(es')
            && (able ==> AllAble(es'))
  {
    hide Sound, Able, CodingParams.Valid;
    var es' := es + [Timeout(open, dec)];
    assert forall i :: 0 <= i < |es| ==> es'[i] == es[i];
  }

  lemma StillSuffice(ss: Session, readyFd: int, es: seq<Event>, e: Event, newest: int, able: bool)
    requires ss.Valid() && !e.Recv? && SufficeBelow(ss, readyFd, es, newest, able)
    ensures SufficeBelow(ss, readyFd, es + [e], newest, able)
  {
    forall f | 0 <= f < |ss.files|
      ensures Accepted(|ss.files|, readyFd, es + [e], f) == Accepted(|ss.files|, readyFd, es, f)
    {
      NothingMoreAccepted(|ss.files|, readyFd, es, [e], f);
    }
    hide Accepted, Suffice;
  }

  lemma DeadlineRuns(ss: Session, readyFd: int, es: seq<Event>, open: int, dec: Decoder)
    requires ss.Valid() && AllHonest(ss, es)
    requires var r := Exec(|ss.files|, Init(readyFd), es);
             r.Running? && r.s.recvFileNbr >= 0 && !r.s.writeOk
    ensures var r := Exec(|ss.files|, Init(readyFd), es + [Timeout(open, dec)]);
            r.Running? && r.s.recvFileNbr == Exec(|ss.files|, Init(readyFd), es).s.recvFileNbr
  {
    var e := Timeout(open, dec);
    var s := Exec(|ss.files|, Init(readyFd), es).s;
    HonestKnown(ss, es);
    HeadKnown(|ss.files|, readyFd, es);
    NewestKnown(|ss.files|, readyFd, es);
    PossibleEvents(s, 0, open, dec);
    DeadlineStartsWriting(s, open, dec);
    StepNewest(s, e);
    hide Inv, Step, Enabled;
    OneEvent(|ss.files|, s, e);
    ExecGoesOn(|ss.files|, Init(readyFd), es, [e]);
  }

  lemma Finish(ss: Session, readyFd: int, es: seq<Event>, able: bool, open: int, dec: Decoder)
    returns (writes: seq<Event>)
    requires ss.Valid() && AllHonest(ss, es) && InOrder(es) && NoFailedWrite(es) && AllOpen(es) && TimedOut(es)
    requires open >= 0 && Sound(dec, ss.enc) && (able ==> AllAble(es) && Able(dec))
    requires var r := Exec(|ss.files|, Init(readyFd), es);
             r.Running? && r.s.recvFileNbr >= 0 && SufficeBelow(ss, readyFd, es, r.s.recvFileNbr, able)
    ensures NoPackets(writes)
    ensures var s := Exec(|ss.files|, Init(readyFd), es).s;
            var r := Exec(|ss.files|, Init(readyFd), es + writes);
            r.Running? && s.recvFileNbr <= |ss.files| && Output(r.s) == Join(ss.files[..s.recvFileNbr])
  {
    var s := Exec(|ss.files|, Init(readyFd), es).s;
    HonestKnown(ss, es);
    NewestKnown(|ss.files|, readyFd, es);
    ExecInv(|ss.files|, readyFd, es);
    FlagsFollowEvents(|ss.files|, readyFd, es);
    hide Inv, SufficeBelow, Exec, Awake;
    writes := DrainExists(|ss.files|, s, open, dec);
    ExecGoesOn(|ss.files|, Init(readyFd), es, writes);
    WritesHonest(ss, es, writes, able, dec);
    WritesKeepOrder(es, writes);
    SessionDelivers(ss, readyFd, es, writes, able);
  }

  lemma WritesHonest(ss: Session, es: seq<Event>, writes: seq<Event>, able: bool, dec: Decoder)
    requires ss.Valid() && AllHonest(ss, es) && Sound(dec, ss.enc) && (able ==> AllAble(es) && Able(dec))
    requires PositiveWrites(writes) && OnlyDecoder(writes, dec)
    ensures AllHonest(ss, es + writes) && (able ==> AllAble(es + writes))
  {
    hide Able;
    forall i | 0 <= i < |es + writes|
      ensures ss.Honest((es + writes)[i])
    {
      if i < |es| {
        assert ss.Honest(es[i]);
      } else {
        assert (es + writes)[i] == writes[i - |es|];
      }
    }
  }

  lemma HeadKnown(nSegments: nat, readyFd: int, es: seq<Event>)
    requires KnownFiles(es, nSegments)
    ensures var r := Exec(nSegments, Init(readyFd), es);
            r.Running? ==> Inv(r.s) && 0 <= r.s.min && (r.s.min < nSegments || r.s.min == 0)
  {
    NewestKnown(nSegments, readyFd, es);
  }

  lemma HeadWithin(ss: Session, s: State)
    requires ss.Valid() && HonestFiles(ss, s)
    requires 0 <= s.min && (s.min < |ss.files| || |ss.files| == 0 == s.min)
    requires s.outFd != -1 ==> s.min in s.files && s.min < |ss.files|
    requires if s.outFd != -1 then
               Recovered(s.FileOf(s.min), s.min) && s.FileOf(s.min).out <= FinalContent(s.FileOf(s.min), s.min)
             else s.FileOf(s.min).out == []
    ensures Join(ss.files[..s.min]) + s.FileOf(s.min).out <= Join(ss.files)
  {
    hide HonestFile, Recovered, FinalContent;
    JoinPrefix(ss.files, s.min);
    if s.outFd != -1 {
      var file := s.files[s.min];
      assert HonestFile(ss, file, s.min);
      RecoveredWhole(ss, file, s.min);
      JoinSnoc(ss.files, s.min);
      JoinPrefix(ss.files, s.min + 1);
      PrefixUnder(Join(ss.files[..s.min]), file.out, ss.files[s.min]);
    }
  }

  lemma RecoveredWhole(ss: Session, file: FileLog, f: int)
    requires ss.Valid() && 0 <= f < |ss.files| && HonestFile(ss, file, f) && Recovered(file, f)
    ensures FinalContent(file, f) == ss.files[f]
  {
    RecoveredContent(ss, file, f);
  }

  lemma PrefixUnder<X>(a: seq<X>, b: seq<X>, c: seq<X>)
    requires b <= c
    ensures a + b <= a + c
  {
  }

  lemma HonestSizes(ss: Session, es: seq<Event>)
    requires ss.Valid() && AllHonest(ss, es)
    ensures AllSizeHonest(es, ss.Size())
  {
    forall i | 0 <= i < |es| && es[i].Recv?
      ensures SizeHonest(es[i].pkt, ss.Size())
    {
      assert ss.Honest(es[i]);
      SentSizes(ss, es[i].pkt);
    }
  }

  lemma HonestKnown(ss: Session, es: seq<Event>)
    requires ss.Valid() && AllHonest(ss, es)
    ensures KnownFiles(es, |ss.files|)
  {
    forall i | 0 <= i < |es| && es[i].Recv?
      ensures es[i].pkt.header.toi < |ss.files|
    {
      assert ss.Honest(es[i]);
    }
  }
}
