/** The history of one file, and what it says about the file's segment and output. */
module FileHistory {
  import opened Wrappers
  import opened Bytes
  import opened ParamDeriv
  import opened SymbolStore
  import opened Segments
  import opened Receiver

  // ----- what a file's log stands for

  ghost function ParamsOf(tos: UInt32): (p: CodingParams)
    requires 1 <= tos <= MAX_FILE_SIZE
    ensures p.T == PD_T && p.nCb == 1
  {
    AcceptedParams(tos);
    DeriveParams(Int32(tos)).value
  }

  function ArrivalOf(p: CodingParams, pkt: Packet): Arrival
    requires p.T > 0
  {
    Arrival(SymbolId(p, pkt.header), pkt.payload)
  }

  function Arrivals(p: CodingParams, pkts: seq<Packet>): (a: seq<Arrival>)
    requires p.T > 0
    ensures |a| == |pkts|
    ensures forall i :: 0 <= i < |a| ==> a[i] == ArrivalOf(p, pkts[i])
  {
    seq(|pkts|, i requires 0 <= i < |pkts| => ArrivalOf(p, pkts[i]))
  }

  /** The packets are all of file f, of one size, and fit. */
  ghost predicate GoodLog(file: FileLog, f: int) {
    && 1 <= file.tos <= MAX_FILE_SIZE
    && forall i :: 0 <= i < |file.pkts| ==>
         && file.pkts[i].header.toi == f
         && file.pkts[i].header.tos == file.tos
         && |file.pkts[i].payload| <= PD_T
  }

  /** The store that the logged packets leave behind. */
  ghost function StoreOf(file: FileLog, f: int): Store
    requires GoodLog(file, f)
  {
    AcceptedParams(file.tos);
    var p := ParamsOf(file.tos);
    Collect(p.KLarge, p.T, Arrivals(p, file.pkts))
  }

  lemma StoreOfValid(file: FileLog, f: int)
    requires GoodLog(file, f)
    ensures StoreOf(file, f).Valid()
    ensures StoreOf(file, f).K == ParamsOf(file.tos).KLarge && StoreOf(file, f).T == PD_T
  {
    AcceptedParams(file.tos);
    var p := ParamsOf(file.tos);
    CollectValid(p.KLarge, p.T, Arrivals(p, file.pkts));
  }

  /** What is to be written for a file that was opened. */
  ghost function ContentOf(file: FileLog, f: int): seq<Byte>
    requires GoodLog(file, f) && file.dec.Some?
  {
    Content([StoreOf(file, f)], file.tos, [file.dec.value])
  }

  /** It is as long as the file, whatever arrived of it. */
  lemma ContentSize(file: FileLog, f: int)
    requires GoodLog(file, f) && file.dec.Some?
    ensures |ContentOf(file, f)| == file.tos
  {
    AcceptedParams(file.tos);
    StoreOfValid(file, f);
    var seg := NewSegment(f, file.tos, ParamsOf(file.tos)).(stores := [StoreOf(file, f)]);
    ContentLength(seg, [file.dec.value]);
  }

  /** The same for any file: nothing if it was not opened. */
  ghost function FinalContent(file: FileLog, f: int): seq<Byte> {
    if GoodLog(file, f) && file.dec.Some? then ContentOf(file, f) else []
  }

  /** The content of a file does not depend on what was written of it. */
  lemma OutputIrrelevant(file: FileLog, f: int, out: seq<Byte>, failed: bool)
    requires GoodLog(file, f)
    ensures var file' := file.(out := out, failed := failed);
            && GoodLog(file', f) && StoreOf(file', f) == StoreOf(file, f)
            && (file.dec.Some? ==> ContentOf(file', f) == ContentOf(file, f))
  {
    var file' := file.(out := out, failed := failed);
    assert StoreOf(file', f) == StoreOf(file, f);
  }

  lemma LogSnoc(file: FileLog, f: int, pkt: Packet)
    requires GoodLog(file, f)
    requires pkt.header.toi == f && pkt.header.tos == file.tos && |pkt.payload| <= PD_T
    ensures var file' := file.(pkts := file.pkts + [pkt]);
            && GoodLog(file', f)
            && StoreOf(file', f) == StoreOf(file, f).Add(SymbolId(ParamsOf(file.tos), pkt.header), pkt.payload)
  {
    AcceptedParams(file.tos);
    var p := ParamsOf(file.tos);
    var file' := file.(pkts := file.pkts + [pkt]);
    var a, a' := Arrivals(p, file.pkts), Arrivals(p, file'.pkts);
    assert a' == a + [ArrivalOf(p, pkt)];
    assert a'[..|a'| - 1] == a;
  }

  // ----- a file at its stages

  /** A segment in the window, against its file's history. */
  ghost predicate SegInv(seg: Segment, file: FileLog, f: int) {
    && GoodLog(file, f)
    && seg.Valid() && seg.fileNbr == f
    && seg.fileLen == file.tos && seg.P == ParamsOf(file.tos)
    && seg.stores == [StoreOf(file, f)]
    && !file.failed
    && (if seg.mode == Writing then WritingInv(seg, file, f) else file.dec == None && file.out == [])
  }

  ghost predicate WritingInv(seg: Segment, file: FileLog, f: int)
    requires GoodLog(file, f) && seg.stores == [StoreOf(file, f)]
  {
    && file.dec.Some? && seg.outCb == 0
    && Loaded(seg, [file.dec.value])
    && |ContentOf(file, f)| == file.tos && seg.outOffs <= file.tos
    && file.out == ContentOf(file, f)[..seg.outOffs]
  }

  /** A file that has left the window was written in full, unless a write failed. */
  ghost predicate DoneInv(file: FileLog, f: int) {
    && GoodLog(file, f) && file.dec.Some?
    && file.out <= ContentOf(file, f)
    && (!file.failed ==> file.out == ContentOf(file, f))
  }

  // ----- what happens to a file

  lemma NewSegInv(f: int, tos: UInt32)
    requires 1 <= tos <= MAX_FILE_SIZE
    ensures SegInv(NewSegment(f, tos, ParamsOf(tos)), FileLog(tos, [], None, [], false), f)
  {
    AcceptedParams(tos);
    var p := ParamsOf(tos);
    NewSegmentValid(f, tos, p);
    var file := FileLog(tos, [], None, [], false);
    assert Arrivals(p, file.pkts) == [];
    assert NewSegment(f, tos, p).stores == [StoreOf(file, f)];
  }

  lemma ReadySegInv(seg: Segment, file: FileLog, f: int)
    requires SegInv(seg, file, f)
    ensures seg.mode == Receiving ==> SegInv(seg.(mode := ReadyToWrite), file, f)
  {
    var seg' := seg.(mode := ReadyToWrite);
    StoresKept(seg, seg');
  }

  lemma AddSegInv(seg: Segment, file: FileLog, f: int, pkt: Packet)
    requires SegInv(seg, file, f) && seg.Accepts(pkt)
    ensures SegInv(seg.AddPacket(pkt), file.(pkts := file.pkts + [pkt]), f)
  {
    AcceptedParams(file.tos);
    LogSnoc(file, f, pkt);
    AddPacketValid(seg, pkt);
  }

  lemma OpenSegInv(seg: Segment, file: FileLog, f: int, fd: int, dec: Decoder)
    requires SegInv(seg, file, f) && seg.mode != Writing && fd != -1
    ensures SegInv(seg.PrepareOutput(fd, dec), file.(dec := Some(dec)), f)
  {
    AcceptedParams(file.tos);
    PrepareStarts(seg, fd, [dec]);
    ContentLength(seg, [dec]);
    var file' := file.(dec := Some(dec));
    assert StoreOf(file', f) == StoreOf(file, f);
    assert ContentOf(file', f) == Content(seg.stores, seg.fileLen, [dec]);
  }

  lemma FailedSegDone(seg: Segment, file: FileLog, f: int)
    requires SegInv(seg, file, f) && seg.mode == Writing
    ensures DoneInv(file.(failed := true), f)
  {
    OutputIrrelevant(file, f, file.out, true);
  }

  /** Writing in one code block takes the next n bytes of the content. */
  lemma WriteInBlock(seg: Segment, file: FileLog, f: int, n: nat, dec: Decoder)
    requires SegInv(seg, file, f) && seg.mode == Writing
    requires n <= seg.Room()
    ensures seg.outOffs + n <= file.tos == |ContentOf(file, f)|
    ensures file.out + seg.Written(n) == ContentOf(file, f)[..seg.outOffs + n]
  {
    var decs := [file.dec.value];
    WrittenIsContent(seg, decs, n);
    assert Content(seg.stores, seg.fileLen, decs) == ContentOf(file, f);
    assert seg.P.SymsBefore(0) == 0 && seg.Pos() == seg.outOffs;
    PrefixGrows(ContentOf(file, f), seg.outOffs, n);
  }

  lemma MoveInBlock(seg: Segment, file: FileLog, f: int, n: nat, dec: Decoder)
    requires SegInv(seg, file, f) && seg.mode == Writing
    requires n <= seg.Room()
    ensures var (seg', more) := seg.WriteMore(n, dec);
            && (more <==> seg.outOffs + n < file.tos)
            && (more ==> seg'.Valid() && seg' == seg.(outOffs := seg.outOffs + n))
  {
    WriteMoves(seg, [file.dec.value], n, dec);
    BlockEnd(seg, 0);
    assert seg.P.SymsBefore(0) == 0;
  }

  /** The output grows along the content of the file. */
  lemma GoodWrite(seg: Segment, file: FileLog, f: int, n: nat, dec: Decoder)
    requires SegInv(seg, file, f) && seg.mode == Writing
    requires n <= seg.Room()
    ensures var (seg', more) := seg.WriteMore(n, dec);
            var file' := file.(out := file.out + seg.Written(n));
            if more then SegInv(seg', file', f) && seg'.mode == Writing && seg'.outFd == seg.outFd
            else DoneInv(file', f)
  {
    WriteInBlock(seg, file, f, n, dec);
    MoveInBlock(seg, file, f, n, dec);
    OutputIrrelevant(file, f, file.out + seg.Written(n), file.failed);
    assert file.(out := file.out + seg.Written(n), failed := file.failed) == file.(out := file.out + seg.Written(n));
  }

  lemma WriteSegInv(seg: Segment, file: FileLog, f: int, n: int, dec: Decoder)
    requires SegInv(seg, file, f) && seg.mode == Writing
    requires n <= seg.Room()
    ensures var (seg', more) := seg.WriteMore(n, dec);
            var file' := file.(out := file.out + seg.Written(n), failed := file.failed || n < 0);
            if more then SegInv(seg', file', f) && seg'.mode == Writing && seg'.outFd == seg.outFd
            else DoneInv(file', f)
  {
    AcceptedParams(file.tos);
    var file' := file.(out := file.out + seg.Written(n), failed := file.failed || n < 0);
    if n < 0 {
      FailedSegDone(seg, file, f);
      assert file' == file.(failed := true);
    } else {
      GoodWrite(seg, file, f, n, dec);
      assert file' == file.(out := file.out + seg.Written(n));
    }
  }
}
